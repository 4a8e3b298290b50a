/**
 The fixed-slot table of watchers as a value: what `watch`, `revoke` and
 `clearWatcher` do to the slots, and the bounded set that the slots stand for.
 A watcher is the number of its address.
 */
module WatchTable {

  type Ptr = nat
  const NULL: Ptr := 0

  type Table = seq<Ptr>

  datatype Op = Watch(w: Ptr) | Revoke(w: Ptr) | Clear

  /** The first slot that holds `p`, or the number of slots. */
  ghost function IndexOf(t: Table, p: Ptr): (i: nat)
    ensures i <= |t|
    ensures i < |t| ==> t[i] == p
    ensures i < |t| <==> p in t
    ensures forall k :: 0 <= k < i ==> t[k] != p
  {
    if t == [] then 0 else if t[0] == p then 0 else
    assert t == [t[0]] + t[1..];
    1 + IndexOf(t[1..], p)
  }

  /** `watch` finds neither the watcher nor a hole: the source's `assert(false)`. */
  ghost predicate WatchFails(t: Table, w: Ptr) {
    w !in t && NULL !in t
  }

  ghost function Watched(t: Table, w: Ptr): (t': Table)
    ensures |t'| == |t|
  {
    if w in t || NULL !in t then t else t[IndexOf(t, NULL) := w]
  }

  ghost function Revoked(t: Table, w: Ptr): (t': Table)
    ensures |t'| == |t|
  {
    seq(|t|, i requires 0 <= i < |t| => if t[i] == w then NULL else t[i])
  }

  ghost function Cleared(t: Table): (t': Table)
    ensures |t'| == |t|
  {
    seq(|t|, _ => NULL)
  }

  ghost function Do(t: Table, op: Op): (t': Table)
    ensures |t'| == |t|
  {
    match op
    case Watch(w) => Watched(t, w)
    case Revoke(w) => Revoked(t, w)
    case Clear => Cleared(t)
  }

  ghost function DoAll(t: Table, ops: seq<Op>): (t': Table)
    ensures |t'| == |t|
    decreases |ops|
  {
    if ops == [] then t else DoAll(Do(t, ops[0]), ops[1..])
  }

  // ----- The bounded set behind the slots -----

  ghost predicate Distinct(t: Table) {
    forall i, j :: 0 <= i < j < |t| && t[i] != NULL ==> t[i] != t[j]
  }

  ghost function Registered(t: Table): set<Ptr> {
    set p | p in t && p != NULL
  }

  /** The same operations on a set that holds at most `room` watchers. */
  ghost function DoOnSet(s: set<Ptr>, room: nat, op: Op): set<Ptr> {
    match op
    case Watch(w) => if w == NULL || w in s || |s| >= room then s else s + {w}
    case Revoke(w) => s - {w}
    case Clear => {}
  }

  ghost function DoAllOnSet(s: set<Ptr>, room: nat, ops: seq<Op>): set<Ptr>
    decreases |ops|
  {
    if ops == [] then s else DoAllOnSet(DoOnSet(s, room, ops[0]), room, ops[1..])
  }

  lemma TailOfDistinct(t: Table)
    requires Distinct(t) && t != []
    ensures Distinct(t[1..])
    ensures Registered(t) == Registered(t[1..]) + if t[0] == NULL then {} else {t[0]}
    ensures t[0] != NULL ==> t[0] !in t[1..]
  {
    var rest := t[1..];
    assert t == [t[0]] + rest;
    assert forall k :: 0 <= k < |rest| ==> rest[k] == t[k + 1];
  }

  /** Distinct watchers fill the table exactly when it has no hole. */
  lemma {:induction false} FullWithoutHole(t: Table)
    requires Distinct(t)
    ensures |Registered(t)| <= |t|
    ensures |Registered(t)| == |t| <==> NULL !in t
  {
    if t == [] {
      assert Registered(t) == {};
    } else {
      TailOfDistinct(t);
      assert t == [t[0]] + t[1..];
      FullWithoutHole(t[1..]);
      hide Distinct;
    }
  }

  /**
   `watch` is insertion: it fails exactly when the table is full of others, and it
   never moves a watcher that is there already.
   */
  lemma WatchInserts(t: Table, w: Ptr)
    requires Distinct(t) && w != NULL
    ensures Distinct(Watched(t, w))
    ensures WatchFails(t, w) <==> w !in Registered(t) && |Registered(t)| == |t|
    ensures Registered(Watched(t, w)) == if WatchFails(t, w) then Registered(t) else Registered(t) + {w}
    ensures forall i :: 0 <= i < |t| && t[i] != NULL ==> Watched(t, w)[i] == t[i]
    ensures Watched(Watched(t, w), w) == Watched(t, w)
  {
    FullWithoutHole(t);
    if w !in t && NULL in t {
      var h := IndexOf(t, NULL);
      var t' := t[h := w];
      assert t'[h] == w;
      forall p ensures p in Registered(t') <==> p in Registered(t) + {w} {
        if p in Registered(t) {
          var k :| 0 <= k < |t| && t[k] == p;
          assert t'[k] == p;
        }
      }
      assert Registered(t') == Registered(t) + {w};
    }
  }

  lemma RevokeRemoves(t: Table, w: Ptr)
    requires Distinct(t)
    ensures Distinct(Revoked(t, w))
    ensures Registered(Revoked(t, w)) == Registered(t) - {w}
    ensures forall i :: 0 <= i < |t| && t[i] != w ==> Revoked(t, w)[i] == t[i]
  {
    var t' := Revoked(t, w);
    forall p ensures p in Registered(t') <==> p in Registered(t) - {w} {
      if p in Registered(t) - {w} {
        var k :| 0 <= k < |t| && t[k] == p;
        assert t'[k] == p;
      }
      if p in Registered(t') {
        var k :| 0 <= k < |t'| && t'[k] == p;
        assert t[k] == p;
      }
    }
    assert Registered(t') == Registered(t) - {w};
  }

  lemma DoRefinesSet(t: Table, op: Op)
    requires Distinct(t)
    ensures Distinct(Do(t, op))
    ensures Registered(Do(t, op)) == DoOnSet(Registered(t), |t|, op)
  {
    match op
    case Watch(w) =>
      FullWithoutHole(t);
      if w != NULL {
        WatchInserts(t, w);
      }
    case Revoke(w) => RevokeRemoves(t, w);
    case Clear =>
  }

  /** Over any run of operations the slots stay distinct and stand for the bounded set. */
  lemma {:induction false} RunRefinesSet(t: Table, ops: seq<Op>)
    requires Distinct(t)
    ensures Distinct(DoAll(t, ops))
    ensures Registered(DoAll(t, ops)) == DoAllOnSet(Registered(t), |t|, ops)
    decreases |ops|
  {
    if ops != [] {
      DoRefinesSet(t, ops[0]);
      RunRefinesSet(Do(t, ops[0]), ops[1..]);
    }
  }

  // ----- Staying in one slot -----

  ghost predicate Spares(ops: seq<Op>, w: Ptr) {
    forall k :: 0 <= k < |ops| ==> ops[k] != Revoke(w) && ops[k] != Clear
  }

  lemma {:induction false} SparedStays(t: Table, ops: seq<Op>, w: Ptr, j: nat)
    requires j < |t| && t[j] == w != NULL && Spares(ops, w)
    ensures DoAll(t, ops)[j] == w
    decreases |ops|
  {
    if ops != [] {
      assert ops[0] != Revoke(w) && ops[0] != Clear;
      assert forall k :: 0 <= k < |ops[1..]| ==> ops[1..][k] == ops[k + 1];
      SparedStays(Do(t, ops[0]), ops[1..], w, j);
    }
  }

  lemma {:induction false} DoAllAppended(t: Table, x: seq<Op>, y: seq<Op>)
    ensures DoAll(t, x + y) == DoAll(DoAll(t, x), y)
    decreases |x|
  {
    if x == [] {
      assert x + y == y;
    } else {
      assert (x + y)[1..] == x[1..] + y;
      DoAllAppended(Do(t, x[0]), x[1..], y);
    }
  }

  /** A watcher that is let in and not taken out again sits in what was the first hole. */
  lemma ReturnedToFirstHole(t: Table, before: seq<Op>, w: Ptr, after: seq<Op>)
    requires w != NULL && Spares(after, w)
    requires var u := DoAll(t, before); w !in u && NULL in u
    ensures var h := IndexOf(DoAll(t, before), NULL);
            h < |t| && DoAll(t, before + [Watch(w)] + after)[h] == w
  {
    var u := DoAll(t, before);
    DoAllAppended(t, before + [Watch(w)], after);
    DoAllAppended(t, before, [Watch(w)]);
    assert DoAll(u, [Watch(w)]) == DoAll(Watched(u, w), []);
    SparedStays(Watched(u, w), after, w, IndexOf(u, NULL));
  }

  /** Revoking and watching again takes the first hole, which is not behind the slot left. */
  lemma RenewedIsNotLater(t: Table, w: Ptr, j: nat)
    requires Distinct(t) && j < |t| && t[j] == w != NULL
    ensures var t' := DoAll(t, [Revoke(w), Watch(w)]);
            exists j' :: 0 <= j' <= j && t'[j'] == w
  {
    var r := Revoked(t, w);
    RevokeRemoves(t, w);
    assert r[j] == NULL && w !in r;
    var h := IndexOf(r, NULL);
    assert h <= j && Watched(r, w)[h] == w;
    assert DoAll(t, [Revoke(w), Watch(w)]) == Watched(r, w) by {
      assert [Revoke(w), Watch(w)][1..] == [Watch(w)] && [Watch(w)][1..] == [];
      assert DoAll(r, [Watch(w)]) == DoAll(Watched(r, w), []);
    }
    assert DoAll(t, [Revoke(w), Watch(w)])[h] == w;
  }
}
