/**
 * Feed tables as the cleaner sees them: a table is the sequence of outcomes of
 * deserialising its rows, one per data row, and a cleaned table is written
 * record by record through a writer.
 */
module Tables {

  /** The outcome of deserialising one row: a record, or a row that did not parse. */
  datatype Row<T> = Parsed(record: T) | Malformed

  /** The records of the rows that parsed, in table order. */
  function Records<T>(rows: seq<Row<T>>): seq<T>
  {
    if rows == [] then []
    else
      var last := rows[|rows| - 1];
      Records(rows[..|rows| - 1]) + (if last.Parsed? then [last.record] else [])
  }

  /** How many rows failed to parse. */
  function MalformedCount<T>(rows: seq<Row<T>>): nat
  {
    if rows == [] then 0
    else MalformedCount(rows[..|rows| - 1]) + (if rows[|rows| - 1].Malformed? then 1 else 0)
  }

  /** The elements of `s` that satisfy `keep`, in their original relative order. */
  function Filter<T>(s: seq<T>, keep: T -> bool): seq<T>
  {
    if s == [] then []
    else
      var last := s[|s| - 1];
      Filter(s[..|s| - 1], keep) + (if keep(last) then [last] else [])
  }

  /**
   * A table whose every row parses to the given record: what reading back a
   * written table gives. Its parsed records are exactly the given ones and
   * none of its rows is malformed.
   */
  function AsRows<T>(s: seq<T>): (rows: seq<Row<T>>)
    ensures Records(rows) == s
    ensures MalformedCount(rows) == 0
  {
    if s == [] then []
    else
      var init := AsRows(s[..|s| - 1]);
      RecordsSnoc(init, Parsed(s[|s| - 1]));
      assert s == s[..|s| - 1] + [s[|s| - 1]];
      init + [Parsed(s[|s| - 1])]
  }

  /** The destination of a cleaned table: every record serialised so far, in order. */
  class TableWriter<T> {
    var written: seq<T>

    /** A writer on a freshly created file holds no record. */
    constructor ()
      ensures written == []
    {
      written := [];
    }

    /** Appends one record to the table being written. */
    method Serialize(record: T)
      modifies this
      ensures written == old(written) + [record]
    {
      written := written + [record];
    }
  }

  lemma RecordsSnoc<T>(rows: seq<Row<T>>, row: Row<T>)
    ensures Records(rows + [row]) == Records(rows) + (if row.Parsed? then [row.record] else [])
    ensures MalformedCount(rows + [row]) == MalformedCount(rows) + (if row.Malformed? then 1 else 0)
  {
  }

  lemma FilterSnoc<T>(s: seq<T>, x: T, keep: T -> bool)
    ensures Filter(s + [x], keep) == Filter(s, keep) + (if keep(x) then [x] else [])
  {
  }

  /** Selecting from the parsed records of one more row: the step every stage's loop takes. */
  lemma SelectSnoc<T>(rows: seq<Row<T>>, row: Row<T>, keep: T -> bool)
    ensures Filter(Records(rows + [row]), keep) ==
            Filter(Records(rows), keep) + (if row.Parsed? && keep(row.record) then [row.record] else [])
  {
    RecordsSnoc(rows, row);
    if row.Parsed? {
      FilterSnoc(Records(rows), row.record, keep);
    } else {
      assert Records(rows + [row]) == Records(rows);
    }
  }

  /** Every row either parses or is counted as malformed. */
  lemma {:induction false} RecordsCount<T>(rows: seq<Row<T>>)
    ensures |Records(rows)| + MalformedCount(rows) == |rows|
  {
    if rows != [] {
      RecordsCount(rows[..|rows| - 1]);
    }
  }

  /** A record is among the parsed records exactly when some row parsed to it. */
  lemma {:induction false} RecordsMembership<T>(rows: seq<Row<T>>, x: T)
    ensures x in Records(rows) <==> Parsed(x) in rows
  {
    if rows != [] {
      var init := rows[..|rows| - 1];
      RecordsMembership(init, x);
      assert rows == init + [rows[|rows| - 1]];
    }
  }

  /** An element survives the filter exactly when it occurs in the input and is kept. */
  lemma {:induction false} FilterMembership<T>(s: seq<T>, keep: T -> bool, x: T)
    ensures x in Filter(s, keep) <==> x in s && keep(x)
  {
    if s != [] {
      var init := s[..|s| - 1];
      FilterMembership(init, keep, x);
      assert s == init + [s[|s| - 1]];
    }
  }

  /**
   * Selecting with a predicate and with its complement puts every element in
   * exactly one of the two results.
   */
  lemma {:induction false} FilterSplit<T>(s: seq<T>, keep: T -> bool, drop: T -> bool)
    requires forall x :: drop(x) <==> !keep(x)
    ensures |Filter(s, keep)| + |Filter(s, drop)| == |s|
  {
    if s != [] {
      var init, last := s[..|s| - 1], s[|s| - 1];
      FilterSplit(init, keep, drop);
      assert s == init + [last];
      FilterSnoc(init, last, keep);
      FilterSnoc(init, last, drop);
      assert drop(last) == !keep(last);
    }
  }

  /** Filtering a sequence all of whose elements are kept returns it unchanged. */
  lemma {:induction false} FilterAllKept<T>(s: seq<T>, keep: T -> bool)
    requires forall i :: 0 <= i < |s| ==> keep(s[i])
    ensures Filter(s, keep) == s
  {
    if s != [] {
      FilterAllKept(s[..|s| - 1], keep);
    }
  }

  /** Filtering twice with the same predicate is filtering once. */
  lemma FilterIdempotent<T>(s: seq<T>, keep: T -> bool)
    ensures Filter(Filter(s, keep), keep) == Filter(s, keep)
  {
    var f := Filter(s, keep);
    forall i | 0 <= i < |f|
      ensures keep(f[i])
    {
      FilterMembership(s, keep, f[i]);
    }
    FilterAllKept(f, keep);
  }

  /** A malformed row contributes only to the malformed count. */
  lemma {:induction false} DropMalformed<T>(before: seq<Row<T>>, after: seq<Row<T>>)
    ensures Records(before + [Malformed] + after) == Records(before + after)
    ensures MalformedCount(before + [Malformed] + after) == MalformedCount(before + after) + 1
  {
    if after == [] {
      assert before + [Malformed] + after == before + [Malformed];
      assert before + after == before;
      RecordsSnoc(before, Malformed);
    } else {
      var init, last := after[..|after| - 1], after[|after| - 1];
      DropMalformed(before, init);
      assert before + [Malformed] + after == (before + [Malformed] + init) + [last];
      assert before + after == (before + init) + [last];
      RecordsSnoc(before + [Malformed] + init, last);
      RecordsSnoc(before + init, last);
    }
  }
}
