/**
 A result set behind a cursor: rows are fetched one after the other, and random
 access moves the cursor and fetches.
 */
module ResultCursor {
  import opened Iterators

  datatype Row = Row(fields: seq<string>) {
    /** The source's conversion of a row to `bool`. */
    predicate HasData() {
      fields != []
    }
  }

  /** What fetching comes to; the last two are the exceptions of the source. */
  datatype Fetched = Got(row: Row) | BadQuery | EndOfResults

  datatype Option<T> = None | Some(value: T)

  /** The C interface's result: its rows and the position of the next one. */
  class MysqlRes {
    const rows: seq<Row>
    var cursor: nat

    constructor (rows: seq<Row>)
      ensures this.rows == rows && cursor == 0
    {
      this.rows, cursor := rows, 0;
    }

    ghost predicate Valid()
      reads this
    {
      cursor <= |rows|
    }

    method FetchRow() returns (d: Option<Row>)
      requires Valid()
      modifies this
      ensures Valid()
      ensures if old(cursor) < |rows| then d == Some(rows[old(cursor)]) && cursor == old(cursor) + 1
              else d == None && cursor == old(cursor)
    {
      if cursor == |rows| { return None; }
      d := Some(rows[cursor]);
      cursor := cursor + 1;
    }

    /** The interface documents no more than offsets of rows. */
    method DataSeek(offset: SizeType)
      requires Valid()
      modifies this
      ensures Valid()
      ensures offset < |rows| ==> cursor == offset
    {
      if offset < |rows| {
        cursor := offset;
      } else {
        var anywhere :| 0 <= anywhere <= |rows|;
        cursor := anywhere;
      }
    }
  }

  /** The flag that the source's `OptionalExceptions` adds to results. */
  class ResUse {
    var result: MysqlRes?
    var initialized: bool
    var exceptions: bool

    constructor (result: MysqlRes?, te: bool)
      ensures this.result == result && initialized == (result != null) && exceptions == te
    {
      this.result, initialized, exceptions := result, result != null, te;
    }

    ghost predicate Valid()
      reads this, result
    {
      result != null ==> result.Valid()
    }

    ghost function Remaining(): seq<Row>
      requires Valid()
      reads this, result
    {
      if result == null then [] else result.rows[result.cursor..]
    }

    method FetchRow() returns (r: Fetched)
      requires Valid()
      modifies result
      ensures Valid()
      ensures result == null ==> r == if exceptions then BadQuery else Got(Row([]))
      ensures result != null && old(Remaining()) == [] ==>
                Remaining() == [] && r == if exceptions then EndOfResults else Got(Row([]))
      ensures old(Remaining()) != [] ==> r == Got(old(Remaining())[0]) && Remaining() == old(Remaining())[1..]
    {
      if result == null {
        if exceptions { return BadQuery; } else { return Got(Row([])); }
      }
      var d := result.FetchRow();
      if d.None? {
        if exceptions { return EndOfResults; } else { return Got(Row([])); }
      }
      return Got(d.value);
    }

    /** Never too many, so every index below it is a row; too few exactly from 2^32 rows on, and then by whole wraps. */
    method Size() returns (n: SizeType)
      requires result != null || !initialized
      ensures !initialized ==> n == 0
      ensures initialized ==> n <= |result.rows| && (|result.rows| - n) % 0x1_0000_0000 == 0
      ensures initialized ==> (n == |result.rows| <==> |result.rows| < 0x1_0000_0000)
    {
      n := if initialized then Wrap(|result.rows|) else 0;
    }

    /** Row `i`, wherever the cursor was; the next fetch then gives row `i + 1` or the end. */
    method At(i: SizeType) returns (r: Fetched)
      requires Valid() && result != null
      modifies result
      ensures Valid()
      ensures i < |result.rows| ==> r == Got(result.rows[i]) && Remaining() == result.rows[i + 1..]
    {
      result.DataSeek(i);
      r := FetchRow();
    }
  }

  /**
   Walking from `begin()` to `end()`, with any number of fetches, and with them any
   exceptions, after each step, yields the rows in order: all of them when
   their number fits in the index, and the first ones, up to the wrapped size, otherwise.
   */
  method Walk(res: ResUse, address: nat, fetches: nat -> nat) returns (seen: seq<Row>)
    requires res.Valid() && res.result != null && res.initialized
    modifies res.result
    ensures seen == res.result.rows[..Wrap(|res.result.rows|)]
    ensures |res.result.rows| < 0x1_0000_0000 <==> seen == res.result.rows
  {
    var rows := res.result.rows;
    var n := res.Size();
    var it, end := Begin(address), End(address, n);
    seen := [];
    while it.NotEqual(end)
      invariant it.d == end.d == address && end.i == n <= |rows|
      invariant it.i <= n && res.Valid()
      invariant seen == rows[..it.i]
      decreases n - it.i
    {
      var r := res.At(it.i);
      seen := seen + [r.row];
      var k := 0;
      while k < fetches(it.i)
        invariant res.Valid()
      {
        var _ := res.FetchRow();
        k := k + 1;
      }
      it := it.Next();
    }
  }
}
