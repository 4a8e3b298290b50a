/**
 A notification pass over the watcher table. Every callback may operate on the table
 at will: `react` gives, from the watchers called so far and the one being called,
 the operations its callback performs.
 */
module Notification {
  import opened WatchTable

  type React = (seq<Ptr>, Ptr) -> seq<Op>

  /** One call made by the pass: the slot, the watcher, the table it found, and what the callback did. */
  datatype Call = Call(slot: nat, w: Ptr, table: Table, ops: seq<Op>)

  datatype Outcome = Outcome(table: Table, log: seq<Call>)

  ghost function Callees(log: seq<Call>): (ws: seq<Ptr>)
    ensures |ws| == |log|
    ensures forall k :: 0 <= k < |log| ==> ws[k] == log[k].w
  {
    seq(|log|, k requires 0 <= k < |log| => log[k].w)
  }

  /** The pass from slot `i` on, after the calls in `log`. */
  ghost function Pass(t: Table, i: nat, log: seq<Call>, react: React): Outcome
    requires i <= |t|
    decreases |t| - i
  {
    if i == |t| then Outcome(t, log)
    else if t[i] == NULL then Pass(t, i + 1, log, react)
    else
      var ops := react(Callees(log), t[i]);
      Pass(DoAll(t, ops), i + 1, log + [Call(i, t[i], t, ops)], react)
  }

  ghost function Count(log: seq<Call>, w: Ptr): nat {
    if log == [] then 0
    else Count(log[..|log| - 1], w) + if log[|log| - 1].w == w then 1 else 0
  }

  lemma CountSnoc(log: seq<Call>, c: Call, w: Ptr)
    ensures Count(log + [c], w) == Count(log, w) + if c.w == w then 1 else 0
  {
    assert (log + [c])[..|log|] == log;
  }

  lemma {:induction false} PassExtendsLog(t: Table, i: nat, log: seq<Call>, react: React)
    requires i <= |t|
    ensures log <= Pass(t, i, log, react).log
    ensures |Pass(t, i, log, react).log| <= |log| + (|t| - i)
    decreases |t| - i
  {
    if i < |t| {
      if t[i] == NULL {
        PassExtendsLog(t, i + 1, log, react);
      } else {
        var ops := react(Callees(log), t[i]);
        PassExtendsLog(DoAll(t, ops), i + 1, log + [Call(i, t[i], t, ops)], react);
      }
    }
  }

  /** The call went to a watcher that was in the table, once, at that moment. */
  ghost predicate Current(c: Call) {
    c.slot < |c.table| && c.table[c.slot] == c.w != NULL && Distinct(c.table)
  }

  /**
   Whatever the callbacks do: every call is current, slots are visited upwards, so that
   there are at most as many calls as slots, and the table stays a table of distinct watchers.
   */
  lemma {:induction false} EveryCallIsCurrent(t: Table, i: nat, log: seq<Call>, react: React)
    requires i <= |t| && Distinct(t)
    requires forall k :: 0 <= k < |log| ==> Current(log[k]) && log[k].slot < i
    requires forall k, m :: 0 <= k < m < |log| ==> log[k].slot < log[m].slot
    ensures var out := Pass(t, i, log, react);
            && (forall k :: 0 <= k < |out.log| ==> Current(out.log[k]) && out.log[k].slot < |t|)
            && (forall k, m :: 0 <= k < m < |out.log| ==> out.log[k].slot < out.log[m].slot)
            && |out.log| <= |log| + (|t| - i)
            && |out.table| == |t| && Distinct(out.table)
    decreases |t| - i
  {
    if i < |t| {
      if t[i] == NULL {
        EveryCallIsCurrent(t, i + 1, log, react);
      } else {
        var ops := react(Callees(log), t[i]);
        RunRefinesSet(t, ops);
        EveryCallIsCurrent(DoAll(t, ops), i + 1, log + [Call(i, t[i], t, ops)], react);
      }
    }
  }

  // ----- Nothing but the callbacks changes the table -----

  /** What the callbacks of these calls did, one after the other. */
  ghost function AllOps(log: seq<Call>): seq<Op> {
    if log == [] then [] else AllOps(log[..|log| - 1]) + log[|log| - 1].ops
  }

  lemma AllOpsSnoc(log: seq<Call>, c: Call)
    ensures AllOps(log + [c]) == AllOps(log) + c.ops
  {
    assert (log + [c])[..|log|] == log;
  }

  /** The calls in `log` tell the truth: each found what those before it left, and did what its callback does then. */
  ghost predicate Faithful(start: Table, log: seq<Call>, react: React) {
    forall k :: 0 <= k < |log| ==>
      log[k].table == DoAll(start, AllOps(log[..k])) && log[k].ops == react(Callees(log[..k]), log[k].w)
  }

  lemma FaithfulSnoc(start: Table, log: seq<Call>, react: React, c: Call)
    requires Faithful(start, log, react)
    requires c.table == DoAll(start, AllOps(log)) && c.ops == react(Callees(log), c.w)
    ensures Faithful(start, log + [c], react)
    ensures DoAll(start, AllOps(log + [c])) == DoAll(c.table, c.ops)
  {
    hide DoAll, AllOps;
    var more := log + [c];
    AllOpsSnoc(log, c);
    DoAllAppended(start, AllOps(log), c.ops);
    forall k | 0 <= k < |more|
      ensures more[k].table == DoAll(start, AllOps(more[..k])) && more[k].ops == react(Callees(more[..k]), more[k].w)
    {
      assert more[..k] == if k < |log| then log[..k] else log;
    }
  }

  /** At every moment of a pass the table is what the callbacks so far have made of the one it started with. */
  lemma {:induction false} OnlyCallbacksChange(start: Table, t: Table, i: nat, log: seq<Call>, react: React)
    requires i <= |t| && t == DoAll(start, AllOps(log)) && Faithful(start, log, react)
    ensures var out := Pass(t, i, log, react);
            Faithful(start, out.log, react) && out.table == DoAll(start, AllOps(out.log))
    decreases |t| - i
  {
    if i < |t| {
      hide DoAll, AllOps, Faithful;
      if t[i] == NULL {
        OnlyCallbacksChange(start, t, i + 1, log, react);
      } else {
        var c := Call(i, t[i], t, react(Callees(log), t[i]));
        FaithfulSnoc(start, log, react, c);
        OnlyCallbacksChange(start, DoAll(t, c.ops), i + 1, log + [c], react);
      }
    }
  }

  /**
   The table after a whole pass is the one before it after all operations of all callbacks, in
   order; the table at each call is that of the calls before it.
   */
  lemma TableAfterPass(t: Table, react: React)
    ensures var out := Pass(t, 0, [], react);
            && out.table == DoAll(t, AllOps(out.log))
            && forall k :: 0 <= k < |out.log| ==>
                 && out.log[k].table == DoAll(t, AllOps(out.log[..k]))
                 && out.log[k].ops == react(Callees(out.log[..k]), out.log[k].w)
  {
    OnlyCallbacksChange(t, t, 0, [], react);
  }

  lemma {:induction false} NoOps(log: seq<Call>)
    requires forall k :: 0 <= k < |log| ==> log[k].ops == []
    ensures AllOps(log) == []
  {
    if log != [] {
      NoOps(log[..|log| - 1]);
    }
  }

  /** Callbacks that do nothing leave every slot as it was. */
  lemma QuietPass(t: Table, react: React)
    requires forall called, w :: react(called, w) == []
    ensures Pass(t, 0, [], react).table == t
  {
    TableAfterPass(t, react);
    NoOps(Pass(t, 0, [], react).log);
  }

  lemma {:induction false} LetIn(t: Table, ops: seq<Op>, w: Ptr)
    requires w != NULL && w in DoAll(t, ops)
    ensures w in t || Watch(w) in ops
    decreases |ops|
  {
    if ops != [] {
      LetIn(Do(t, ops[0]), ops[1..], w);
      if w !in t && ops[0] != Watch(w) {
        NotLetIn(t, ops[0], w);
      }
    }
  }

  lemma NotLetIn(t: Table, op: Op, w: Ptr)
    requires w != NULL && w !in t && op != Watch(w)
    ensures w !in Do(t, op)
  {
  }

  lemma {:induction false} OpsOfCalls(log: seq<Call>, op: Op)
    requires op in AllOps(log)
    ensures exists k :: 0 <= k < |log| && op in log[k].ops
  {
    var n := |log| - 1;
    if op in log[n].ops {
    } else {
      OpsOfCalls(log[..n], op);
      var k :| 0 <= k < n && op in log[..n][k].ops;
      assert op in log[k].ops;
    }
  }

  /** Nobody is in the table at the end who was not there at the start and was let in by no callback. */
  lemma NobodyComesUncalled(t: Table, react: React, w: Ptr)
    requires w != NULL && w in Pass(t, 0, [], react).table
    ensures w in t || exists k :: 0 <= k < |Pass(t, 0, [], react).log| && Watch(w) in Pass(t, 0, [], react).log[k].ops
  {
    TableAfterPass(t, react);
    var log := Pass(t, 0, [], react).log;
    LetIn(t, AllOps(log), w);
    if w !in t {
      OpsOfCalls(log, Watch(w));
    }
  }

  // ----- How often each watcher is called -----

  /** The callback leaves `w` registered, or is `w`'s own and only revokes and watches itself again. */
  ghost predicate Gentle(c: Call, w: Ptr) {
    Spares(c.ops, w) || (c.w == w && c.ops == [Revoke(w), Watch(w)])
  }

  /** Where a gentle callback leaves the watcher: in its slot, or, by its own doing, not behind it. */
  lemma GentleSlot(c: Call, w: Ptr, j: nat) returns (j': nat)
    requires Gentle(c, w) && Distinct(c.table) && j < |c.table| && c.table[j] == w != NULL
    requires c.slot < |c.table| && c.table[c.slot] == c.w
    ensures j' < |c.table| && DoAll(c.table, c.ops)[j'] == w
    ensures j' == j || (j' <= j && c.slot == j)
  {
    if Spares(c.ops, w) {
      SparedStays(c.table, c.ops, w, j);
      j' := j;
    } else {
      RenewedIsNotLater(c.table, w, j);
      j' :| 0 <= j' <= j && DoAll(c.table, c.ops)[j'] == w;
    }
  }

  /**
   The main fact, at any moment of the pass: a watcher that no callback removes is
   called exactly once more if its slot is still ahead and not at all otherwise.
   */
  lemma {:induction false} CalledOnceIfAhead(t: Table, i: nat, log: seq<Call>, react: React, w: Ptr, j: nat)
    requires i <= |t| && Distinct(t) && j < |t| && t[j] == w != NULL
    requires var all := Pass(t, i, log, react).log;
             forall k :: |log| <= k < |all| ==> Gentle(all[k], w)
    ensures Count(Pass(t, i, log, react).log, w) == Count(log, w) + if i <= j then 1 else 0
    ensures w in Pass(t, i, log, react).table
    decreases |t| - i
  {
    if i == |t| {
    } else if t[i] == NULL {
      CalledOnceIfAhead(t, i + 1, log, react, w, j);
    } else {
      var ops := react(Callees(log), t[i]);
      var c := Call(i, t[i], t, ops);
      var t' := DoAll(t, ops);
      PassExtendsLog(t', i + 1, log + [c], react);
      assert Pass(t, i, log, react) == Pass(t', i + 1, log + [c], react);
      assert Pass(t, i, log, react).log[|log|] == c;
      RunRefinesSet(t, ops);
      CountSnoc(log, c, w);
      var j' := GentleSlot(c, w, j);
      assert t[i] == w <==> i == j;
      hide Pass, DoAll, Count, Gentle, Distinct, Registered, DoAllOnSet;
      CalledOnceIfAhead(t', i + 1, log + [c], react, w, j');
    }
  }

  /**
   In a whole pass, every watcher registered at the start is called exactly once, and is
   still registered at the end, unless some callback removes it other than to renew itself.
   */
  lemma StayersCalledOnce(t: Table, react: React, w: Ptr)
    requires Distinct(t) && w in Registered(t)
    requires forall c :: c in Pass(t, 0, [], react).log ==> Gentle(c, w)
    ensures Count(Pass(t, 0, [], react).log, w) == 1
    ensures w in Registered(Pass(t, 0, [], react).table)
  {
    var j :| 0 <= j < |t| && t[j] == w;
    CalledOnceIfAhead(t, 0, [], react, w, j);
  }

  /** A watcher that no callback removes at all also keeps its slot. */
  lemma {:induction false} SlotNeverMoves(t: Table, i: nat, log: seq<Call>, react: React, w: Ptr, j: nat)
    requires i <= |t| && j < |t| && t[j] == w != NULL
    requires var all := Pass(t, i, log, react).log;
             forall k :: |log| <= k < |all| ==> Spares(all[k].ops, w)
    ensures |Pass(t, i, log, react).table| == |t| && Pass(t, i, log, react).table[j] == w
    ensures var all := Pass(t, i, log, react).log;
            forall k :: |log| <= k < |all| ==> j < |all[k].table| && all[k].table[j] == w
    decreases |t| - i
  {
    if i == |t| {
    } else if t[i] == NULL {
      SlotNeverMoves(t, i + 1, log, react, w, j);
    } else {
      var ops := react(Callees(log), t[i]);
      var c := Call(i, t[i], t, ops);
      PassExtendsLog(DoAll(t, ops), i + 1, log + [c], react);
      assert Pass(t, i, log, react).log[|log|] == c;
      SparedStays(t, ops, w, j);
      SlotNeverMoves(DoAll(t, ops), i + 1, log + [c], react, w, j);
    }
  }

  // ----- Exactly how often -----

  ghost function One(b: bool): int {
    if b then 1 else 0
  }

  /** `w` is in slot `i` or behind it. */
  ghost predicate Ahead(t: Table, i: nat, w: Ptr)
    requires i <= |t|
  {
    w in t[i..]
  }

  /** By how much the callback changes the number of calls that `w` still gets: 1, 0 or -1. */
  ghost function Gain(c: Call, w: Ptr): int
    requires c.slot < |c.table|
  {
    One(Ahead(DoAll(c.table, c.ops), c.slot + 1, w)) - One(Ahead(c.table, c.slot + 1, w))
  }

  ghost predicate InTables(log: seq<Call>) {
    forall k :: 0 <= k < |log| ==> log[k].slot < |log[k].table|
  }

  ghost function Gains(log: seq<Call>, w: Ptr): int
    requires InTables(log)
  {
    if log == [] then 0 else Gains(log[..|log| - 1], w) + Gain(log[|log| - 1], w)
  }

  lemma AheadSplits(t: Table, i: nat, w: Ptr)
    requires i < |t| && Distinct(t) && w != NULL
    ensures One(Ahead(t, i, w)) == One(t[i] == w) + One(Ahead(t, i + 1, w))
  {
    assert t[i..] == [t[i]] + t[i + 1..];
  }

  /**
   Whatever the callbacks do: a watcher is called once if it is registered at the start, once
   more for every callback that brings it from behind the loop to ahead of it, and once less
   for every callback that takes it from ahead.
   */
  lemma {:induction false} CallsAreGains(t: Table, i: nat, log: seq<Call>, react: React, w: Ptr)
    requires i <= |t| && Distinct(t) && w != NULL && InTables(log)
    ensures var all := Pass(t, i, log, react).log;
            InTables(all) && Count(all, w) - Gains(all, w) == Count(log, w) - Gains(log, w) + One(Ahead(t, i, w))
    decreases |t| - i
  {
    if i == |t| {
    } else if t[i] == NULL {
      AheadSplits(t, i, w);
      CallsAreGains(t, i + 1, log, react, w);
    } else {
      var ops := react(Callees(log), t[i]);
      var c := Call(i, t[i], t, ops);
      RunRefinesSet(t, ops);
      AheadSplits(t, i, w);
      CountSnoc(log, c, w);
      assert (log + [c])[..|log|] == log;
      CallsAreGains(DoAll(t, ops), i + 1, log + [c], react, w);
    }
  }

  /** So in a whole pass a registered watcher is called exactly once if and only if gains and losses balance. */
  lemma CallsInPass(t: Table, react: React, w: Ptr)
    requires Distinct(t) && w != NULL
    ensures var all := Pass(t, 0, [], react).log;
            InTables(all) && Count(all, w) == One(w in t) + Gains(all, w)
  {
    CallsAreGains(t, 0, [], react, w);
    assert t[0..] == t;
  }

  /** The callback takes `w` out, if it is in, and lets it in again; `hole` is the slot that it gets. */
  ghost predicate Returns(c: Call, w: Ptr, before: seq<Op>, after: seq<Op>, hole: nat) {
    var u := DoAll(c.table, before);
    && c.ops == before + [Watch(w)] + after && Spares(after, w)
    && w !in u && NULL in u && hole == IndexOf(u, NULL)
  }

  /** At such a callback nothing but the first hole decides: ahead of the loop, one call follows, otherwise none. */
  lemma ReturnedAtHole(t: Table, i: nat, log: seq<Call>, react: React, w: Ptr, before: seq<Op>, after: seq<Op>, h: nat)
    requires i < |t| && Distinct(t) && t[i] != NULL && w != NULL
    requires Returns(Call(i, t[i], t, react(Callees(log), t[i])), w, before, after, h)
    requires var all := Pass(t, i, log, react).log;
             forall k :: |log| < k < |all| ==> Gentle(all[k], w)
    ensures Count(Pass(t, i, log, react).log, w) == Count(log, w) + One(t[i] == w) + One(i < h)
  {
    hide DoAll, IndexOf, Count, Distinct, Gentle, Spares, Registered;
    var ops := react(Callees(log), t[i]);
    var c := Call(i, t[i], t, ops);
    ReturnedToFirstHole(t, before, w, after);
    RunRefinesSet(t, ops);
    CountSnoc(log, c, w);
    assert Pass(t, i, log, react) == Pass(DoAll(t, ops), i + 1, log + [c], react);
    CalledOnceIfAhead(DoAll(t, ops), i + 1, log + [c], react, w, h);
  }

  /**
   A watcher registered in slot `j` that one callback, call `k` of the pass, takes out and lets
   in again, and that is otherwise left alone, is called once, less one if it was taken from
   ahead of the loop, and once more if it came back ahead of it.
   */
  lemma {:induction false} ReturnedOnce(
      t: Table, i: nat, log: seq<Call>, react: React, w: Ptr, j: nat, k: nat, before: seq<Op>, after: seq<Op>, h: nat)
    requires i <= |t| && Distinct(t) && j < |t| && t[j] == w != NULL
    requires var all := Pass(t, i, log, react).log;
             && |log| <= k < |all| && Returns(all[k], w, before, after, h)
             && forall m :: |log| <= m < |all| && m != k ==> Gentle(all[m], w)
    ensures var all := Pass(t, i, log, react).log;
            Count(all, w) == Count(log, w) + One(i <= j)
                             - One(all[k].slot < IndexOf(all[k].table, w)) + One(all[k].slot < h)
    decreases |t| - i
  {
    if t[i] == NULL {
      ReturnedOnce(t, i + 1, log, react, w, j, k, before, after, h);
    } else {
      var ops := react(Callees(log), t[i]);
      var c := Call(i, t[i], t, ops);
      var t' := DoAll(t, ops);
      PassExtendsLog(t', i + 1, log + [c], react);
      assert Pass(t, i, log, react).log[|log|] == c;
      RunRefinesSet(t, ops);
      CountSnoc(log, c, w);
      if k == |log| {
        assert IndexOf(t, w) == j;
        ReturnedAtHole(t, i, log, react, w, before, after, h);
      } else {
        var j' := GentleSlot(c, w, j);
        ReturnedOnce(t', i + 1, log + [c], react, w, j', k, before, after, h);
      }
    }
  }

  /** So it is called exactly once if and only if it comes back on the side of the loop that it was taken from. */
  lemma ReturnedToItsSide(t: Table, react: React, w: Ptr, k: nat, before: seq<Op>, after: seq<Op>, h: nat)
    requires Distinct(t) && w in Registered(t)
    requires var all := Pass(t, 0, [], react).log;
             && k < |all| && Returns(all[k], w, before, after, h)
             && forall m :: 0 <= m < |all| && m != k ==> Gentle(all[m], w)
    ensures var all := Pass(t, 0, [], react).log;
            var i, p := all[k].slot, IndexOf(all[k].table, w);
            && (Count(all, w) == 1 <==> (i < p <==> i < h))
            && (Count(all, w) == 2 <==> p <= i < h)
            && (Count(all, w) == 0 <==> h <= i < p)
  {
    var j :| 0 <= j < |t| && t[j] == w;
    ReturnedOnce(t, 0, [], react, w, j, k, before, after, h);
  }

  // ----- Where the promise ends -----

  /** Watcher 2 takes 1 out, fills the front slot with 3, and puts 1 back behind itself. */
  ghost function Shuffle(before: seq<Ptr>, w: Ptr): seq<Op> {
    if w == 2 then [Revoke(1), Watch(3), Watch(1)] else []
  }

  lemma OneCall(t: Table, i: nat, log: seq<Call>, react: React, t': Table, log': seq<Call>)
    requires i < |t| && t[i] != NULL
    requires t' == DoAll(t, react(Callees(log), t[i]))
    requires log' == log + [Call(i, t[i], t, react(Callees(log), t[i]))]
    ensures Pass(t, i, log, react) == Pass(t', i + 1, log', react)
    ensures forall w :: Count(log', w) == Count(log, w) + if t[i] == w then 1 else 0
  {
    forall w ensures Count(log', w) == Count(log, w) + if t[i] == w then 1 else 0 {
      CountSnoc(log, Call(i, t[i], t, react(Callees(log), t[i])), w);
    }
  }

  lemma ShuffledTable()
    ensures DoAll([1, 2, NULL], [Revoke(1), Watch(3), Watch(1)]) == [3, 2, 1]
  {
    var ops := [Revoke(1), Watch(3), Watch(1)];
    assert Revoked([1, 2, NULL], 1) == [NULL, 2, NULL];
    assert Watched([NULL, 2, NULL], 3) == [3, 2, NULL];
    assert Watched([3, 2, NULL], 1) == [3, 2, 1];
    assert ops[1..] == [Watch(3), Watch(1)] && ops[1..][1..] == [Watch(1)] && ops[1..][1..][1..] == [];
    assert DoAll([3, 2, 1], []) == [3, 2, 1];
  }

  /** So a watcher that another callback removes and returns can be called twice, and a newcomer not at all. */
  lemma CanBeCalledTwice()
    ensures var out := Pass([1, 2, NULL], 0, [], Shuffle);
            Count(out.log, 1) == 2 && Count(out.log, 3) == 0 && out.table == [3, 2, 1]
  {
    var t := [1, 2, NULL];
    ShuffledTable();
    var a := [] + [Call(0, 1, t, [])];
    var b := a + [Call(1, 2, t, Shuffle(Callees(a), 2))];
    var c := b + [Call(2, 1, [3, 2, 1], [])];
    OneCall(t, 0, [], Shuffle, t, a);
    OneCall(t, 1, a, Shuffle, [3, 2, 1], b);
    OneCall([3, 2, 1], 2, b, Shuffle, [3, 2, 1], c);
  }
}
