/**
 * A database table the scripts write to, as the sequence of its rows in
 * insertion order. Only the two statements the scripts issue are modelled:
 * `TRUNCATE TABLE` and a one-row `INSERT`.
 */
module Sink {

  class Table<R> {
    var rows: seq<R>

    constructor (initial: seq<R>)
      ensures rows == initial
    {
      rows := initial;
    }

    /** `TRUNCATE TABLE`: every row is removed. */
    method Truncate()
      modifies this
      ensures rows == []
    {
      rows := [];
    }

    /** `INSERT INTO ... VALUES (...)`: the row is appended. */
    method Insert(r: R)
      modifies this
      ensures rows == old(rows) + [r]
    {
      rows := rows + [r];
    }

    /** One `INSERT` per element of `rs`, in order. */
    method InsertAll(rs: seq<R>)
      modifies this
      ensures rows == old(rows) + rs
    {
      var i := 0;
      while i < |rs|
        invariant 0 <= i <= |rs|
        invariant rows == old(rows) + rs[..i]
      {
        assert rs[..i + 1] == rs[..i] + [rs[i]];
        Insert(rs[i]);
        i := i + 1;
      }
      assert rs[..i] == rs;
    }
  }
}
