/** Handing the rows of a result to a functor or to a container. */
module RowConsumers {
  import opened ResultCursor

  /** The rows up to the first without columns: such a row reads as the end. */
  ghost function Usable(rows: seq<Row>): seq<Row> {
    if rows == [] || !rows[0].HasData() then [] else [rows[0]] + Usable(rows[1..])
  }

  lemma {:induction false} AllUsable(rows: seq<Row>)
    ensures Usable(rows) == rows <==> forall k :: 0 <= k < |rows| ==> rows[k].HasData()
  {
    if rows != [] {
      AllUsable(rows[1..]);
      assert rows == [rows[0]] + rows[1..];
      assert forall k :: 0 <= k < |rows[1..]| ==> rows[1..][k] == rows[k + 1];
      if forall k :: 0 <= k < |rows| ==> rows[k].HasData() {
        assert rows[0].HasData();
      }
    }
  }

  /** The usable rows are those in front of the first one without columns, if there is one. */
  lemma {:induction false} UsableIsFront(rows: seq<Row>)
    ensures Usable(rows) <= rows && forall k :: 0 <= k < |Usable(rows)| ==> rows[k].HasData()
    ensures |Usable(rows)| < |rows| ==> !rows[|Usable(rows)|].HasData()
  {
    if rows != [] && rows[0].HasData() {
      UsableIsFront(rows[1..]);
      assert forall k :: 1 <= k < |rows| ==> rows[k] == rows[1..][k - 1];
    }
  }

  /** A functor may keep state: its answer can depend on the rows it was called with before. */
  type Accept = (seq<Row>, Row) -> bool

  ghost function Accepted(before: seq<Row>, rows: seq<Row>, fn: Accept): seq<Row>
    decreases |rows|
  {
    if rows == [] then []
    else (if fn(before, rows[0]) then [rows[0]] else []) + Accepted(before + [rows[0]], rows[1..], fn)
  }

  ghost function Mapped<T>(rows: seq<Row>, f: Row -> T): seq<T> {
    seq(|rows|, k requires 0 <= k < |rows| => f(rows[k]))
  }

  /** A row is judged after all before it; what is accepted of two stretches of rows is what is accepted of each. */
  lemma {:induction false} AcceptedByParts(before: seq<Row>, x: seq<Row>, y: seq<Row>, row: Row, fn: Accept)
    ensures Accepted(before, [], fn) == []
    ensures Accepted(before, [row], fn) == if fn(before, row) then [row] else []
    ensures Accepted(before, x + y, fn) == Accepted(before, x, fn) + Accepted(before + x, y, fn)
    decreases |x|
  {
    NoneAccepted(before, fn);
    NoneAccepted(before + [row], fn);
    AcceptedStep(before, row, [], fn);
    hide Accepted;
    assert [row] + [] == [row];
    if x == [] {
      assert x + y == y && before + x == before && [] + Accepted(before, y, fn) == Accepted(before, y, fn);
    } else {
      var first, rest := x[0], x[1..];
      assert x == [first] + rest && x + y == [first] + (rest + y);
      assert before + [first] + rest == before + x;
      AcceptedByParts(before + [first], rest, y, row, fn);
      AcceptedStep(before, first, rest, fn);
      AcceptedStep(before, first, rest + y, fn);
    }
  }

  lemma AcceptedStep(before: seq<Row>, row: Row, rows: seq<Row>, fn: Accept)
    ensures Accepted(before, [row] + rows, fn) ==
            if fn(before, row) then [row] + Accepted(before + [row], rows, fn) else Accepted(before + [row], rows, fn)
  {
    assert ([row] + rows)[1..] == rows;
    assert [] + Accepted(before + [row], rows, fn) == Accepted(before + [row], rows, fn);
  }

  lemma NoneAccepted(before: seq<Row>, fn: Accept)
    ensures Accepted(before, [], fn) == []
  {
  }

  lemma NoneMapped<T>(f: Row -> T)
    ensures Mapped([], f) == []
  {
  }

  /** Switches exceptions off while it lives. */
  class NoExceptions {
    const assoc: ResUse
    const wereEnabled: bool

    constructor (a: ResUse)
      modifies a
      ensures assoc == a && wereEnabled == old(a.exceptions)
      ensures !a.exceptions && a.result == old(a.result) && a.initialized == old(a.initialized)
    {
      assoc, wereEnabled := a, a.exceptions;
      new;
      a.exceptions := false;
    }

    method Destroy()
      modifies assoc
      ensures assoc.exceptions == wereEnabled && assoc.result == old(assoc.result)
      ensures assoc.initialized == old(assoc.initialized)
    {
      assoc.exceptions := wereEnabled;
    }
  }

  /**
   The loop condition `Row row = res.fetch_row()`: fetch, and read the row as `bool`. An
   exception would leave the loop instead.
   */
  method Next(res: ResUse) returns (row: Row, more: bool, raised: bool)
    requires res.Valid() && res.result != null
    modifies res.result
    ensures res.Valid() && raised == (res.exceptions && old(res.Remaining()) == [])
    ensures Usable(old(res.Remaining())) == if more then [row] + Usable(res.Remaining()) else []
    ensures |res.Remaining()| <= |old(res.Remaining())| && (more ==> |res.Remaining()| < |old(res.Remaining())|)
  {
    var r := res.FetchRow();
    raised := !r.Got?;
    row := if r.Got? then r.row else Row([]);
    more := row.HasData();
  }

  /** `x` is done and `y` is to come. */
  ghost predicate Splits(all: seq<Row>, x: seq<Row>, y: seq<Row>) {
    all == x + y
  }

  lemma MoveOn(all: seq<Row>, x: seq<Row>, y: seq<Row>, z: seq<Row>)
    requires Splits(all, x, y + z)
    ensures Splits(all, x + y, z)
  {
  }

  lemma Ends(all: seq<Row>)
    ensures Splits(all, [], all)
    ensures forall x :: Splits(all, x, []) ==> x == all
  {
    assert all == [] + all;
    forall x: seq<Row> | Splits(all, x, []) ensures x == all {
      assert x == x + [];
    }
  }

  /** `calls` are the rows the functor was called with; `raised` whether an exception left the loop. */
  method ForEach(res: ResUse) returns (calls: seq<Row>, raised: bool)
    requires res.Valid()
    modifies res, res.result
    ensures res.result == old(res.result) && res.exceptions == old(res.exceptions) && !raised
    ensures calls == Usable(old(res.Remaining()))
  {
    calls, raised := [], false;
    if res.result != null {
      var ne := new NoExceptions(res);
      ghost var rows := Usable(res.Remaining());
      assert res.Remaining() == old(res.Remaining());
      Ends(rows);
      hide Usable, Splits, res.Remaining;
      var row, more;
      row, more, raised := Next(res);
      while more
        invariant res.Valid() && res.result == old(res.result) && !res.exceptions && !raised
        invariant Splits(rows, calls, if more then [row] + Usable(res.Remaining()) else [])
        decreases |res.Remaining()|, more
      {
        MoveOn(rows, calls, [row], Usable(res.Remaining()));
        calls := calls + [row];
        row, more, raised := Next(res);
      }
      ne.Destroy();
    }
  }

  method StoreIf(res: ResUse, con: seq<Row>, fn: Accept) returns (con': seq<Row>, raised: bool)
    requires res.Valid()
    modifies res, res.result
    ensures res.result == old(res.result) && res.exceptions == old(res.exceptions) && !raised
    ensures con' == con + Accepted([], Usable(old(res.Remaining())), fn)
  {
    con', raised := con, false;
    if res.result != null {
      var ne := new NoExceptions(res);
      ghost var all := con + Accepted([], Usable(res.Remaining()), fn);
      assert res.Remaining() == old(res.Remaining());
      Ends(all);
      NoneAccepted([], fn);
      hide Usable, Splits, Accepted, res.Remaining;
      var calls := [];
      var row, more;
      row, more, raised := Next(res);
      while more
        invariant res.Valid() && res.result == old(res.result) && !res.exceptions && !raised
        invariant Splits(all, con', if more then Accepted(calls, [row] + Usable(res.Remaining()), fn) else [])
        decreases |res.Remaining()|, more
      {
        AcceptedStep(calls, row, Usable(res.Remaining()), fn);
        NoneAccepted(calls + [row], fn);
        if fn(calls, row) {
          MoveOn(all, con', [row], Accepted(calls + [row], Usable(res.Remaining()), fn));
          con' := con' + [row];
        }
        calls := calls + [row];
        row, more, raised := Next(res);
      }
      ne.Destroy();
    }
  }

  /**
   The head of the loops below: the C interface's fetch, and a `Row` made of what it gives.
   These loops do not switch exceptions off, but they do not use `fetch_row` either.
   */
  method NextRaw(res: ResUse) returns (row: Row, more: bool)
    requires res.Valid() && res.result != null
    modifies res.result
    ensures res.Valid() && |res.Remaining()| <= |old(res.Remaining())|
    ensures more ==> |res.Remaining()| < |old(res.Remaining())|
    ensures Usable(old(res.Remaining())) == if more then [row] + Usable(res.Remaining()) else []
  {
    var d := res.result.FetchRow();
    if d.None? { return Row([]), false; }
    return d.value, d.value.HasData();
  }

  lemma MappedCons<T>(row: Row, rows: seq<Row>, f: Row -> T)
    ensures Mapped([row] + rows, f) == [f(row)] + Mapped(rows, f)
  {
  }

  ghost function ToSet<T>(s: seq<T>): set<T> {
    set t | t in s
  }

  lemma ToSetCons<T>(t: T, s: seq<T>)
    ensures ToSet([t] + s) == {t} + ToSet(s)
  {
  }

  lemma ElementsOfMapped<T>(rows: seq<Row>, f: Row -> T)
    ensures forall t :: t in ToSet(Mapped(rows, f)) <==> exists row :: row in rows && f(row) == t
  {
    forall row | row in rows ensures f(row) in Mapped(rows, f) {
      var k :| 0 <= k < |rows| && rows[k] == row;
      assert Mapped(rows, f)[k] == f(row);
    }
  }

  method StoreInSequence<T>(res: ResUse, con: seq<T>, make: Row -> T) returns (con': seq<T>)
    requires res.Valid() && res.result != null
    modifies res.result
    ensures con' == con + Mapped(Usable(old(res.Remaining())), make)
    ensures var rows := Usable(old(res.Remaining()));
            |con'| == |con| + |rows| && forall k :: 0 <= k < |rows| ==> con'[|con| + k] == make(rows[k])
  {
    con' := con;
    ghost var rows := Usable(res.Remaining());
    ghost var all := con + Mapped(rows, make);
    assert forall k :: 0 <= k < |rows| ==> all[|con| + k] == make(rows[k]);
    NoneMapped(make);
    hide Usable, Mapped, res.Remaining;
    while true
      invariant res.Valid()
      invariant all == con' + Mapped(Usable(res.Remaining()), make)
      decreases |res.Remaining()|
    {
      var row, more := NextRaw(res);
      if !more { break; }
      MappedCons(row, Usable(res.Remaining()), make);
      con' := con' + [make(row)];
    }
  }

  method StoreInSet<T>(res: ResUse, con: set<T>, make: Row -> T) returns (con': set<T>)
    requires res.Valid() && res.result != null
    modifies res.result
    ensures con' == con + ToSet(Mapped(Usable(old(res.Remaining())), make))
    ensures forall t :: t in con' <==> t in con || exists row :: row in Usable(old(res.Remaining())) && make(row) == t
  {
    con' := con;
    ghost var rows := Usable(res.Remaining());
    ghost var all := con + ToSet(Mapped(rows, make));
    NoneMapped(make);
    assert ToSet<T>([]) == {};
    hide Usable, Mapped, ToSet, res.Remaining;
    while true
      invariant res.Valid()
      invariant all == con' + ToSet(Mapped(Usable(res.Remaining()), make))
      decreases |res.Remaining()|
    {
      var row, more := NextRaw(res);
      if !more { break; }
      MappedCons(row, Usable(res.Remaining()), make);
      ToSetCons(make(row), Mapped(Usable(res.Remaining()), make));
      con' := con' + {make(row)};
    }
    assert con' == all;
    ElementsOfMapped(rows, make);
  }
}
