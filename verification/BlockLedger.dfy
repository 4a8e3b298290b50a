/**
 The books that the class-wide counters and the allocator keep for a whole
 population of block buffers: who holds which storage, what the allocator was
 asked, and every value the running block counter has had.

 Buffers and pieces of storage appear under numbers.
 */
module BlockLedger {

  /** One answer of the allocator, or one return of storage to it. */
  datatype Call = Malloc(blk: nat, n: nat) | Refused(n: nat) | Free(blk: nat, n: nat)

  // ----- The allocator's log -----

  ghost function Outstanding(calls: seq<Call>): map<nat, nat> {
    if calls == [] then map[]
    else
      After(Outstanding(calls[..|calls| - 1]), calls[|calls| - 1])
  }

  ghost function After(out: map<nat, nat>, c: Call): map<nat, nat> {
    match c
    case Malloc(a, n) => out[a := n]
    case Refused(_) => out
    case Free(a, _) => out - {a}
  }

  ghost predicate Issued(calls: seq<Call>, a: nat) {
    exists i :: 0 <= i < |calls| && calls[i].Malloc? && calls[i].blk == a
  }

  /** Storage is new when handed out, and is returned only while outstanding, with its own block count. */
  ghost predicate Disciplined(calls: seq<Call>) {
    calls != [] ==>
      Disciplined(calls[..|calls| - 1]) && Allowed(calls[..|calls| - 1], calls[|calls| - 1])
  }

  ghost predicate Allowed(before: seq<Call>, c: Call) {
    match c
    case Malloc(a, _) => !Issued(before, a)
    case Refused(_) => true
    case Free(a, n) => a in Outstanding(before) && Outstanding(before)[a] == n
  }

  ghost function Mallocs(calls: seq<Call>, a: nat): nat {
    if calls == [] then 0
    else
      var c := calls[|calls| - 1];
      Mallocs(calls[..|calls| - 1], a) + if c.Malloc? && c.blk == a then 1 else 0
  }

  ghost function Frees(calls: seq<Call>, a: nat): nat {
    if calls == [] then 0
    else
      var c := calls[|calls| - 1];
      Frees(calls[..|calls| - 1], a) + if c.Free? && c.blk == a then 1 else 0
  }

  lemma IssuedSnoc(calls: seq<Call>, c: Call, a: nat)
    ensures Issued(calls + [c], a) <==> Issued(calls, a) || (c.Malloc? && c.blk == a)
  {
    var all := calls + [c];
    assert all[|calls|] == c;
    if Issued(calls, a) {
      var i :| 0 <= i < |calls| && calls[i].Malloc? && calls[i].blk == a;
      assert all[i] == calls[i];
    }
  }

  lemma LogSnoc(calls: seq<Call>, c: Call)
    ensures Outstanding(calls + [c]) == After(Outstanding(calls), c)
    ensures Disciplined(calls + [c]) <==> Disciplined(calls) && Allowed(calls, c)
  {
    assert (calls + [c])[..|calls|] == calls;
  }

  /** Storage is handed out at most once, and was freed once exactly if it is no longer outstanding. */
  lemma {:induction false} FreedOnce(calls: seq<Call>, a: nat)
    requires Disciplined(calls)
    ensures Mallocs(calls, a) == if Issued(calls, a) then 1 else 0
    ensures Frees(calls, a) == if Issued(calls, a) && a !in Outstanding(calls) then 1 else 0
    ensures a in Outstanding(calls) ==> Issued(calls, a)
  {
    if calls != [] {
      var before, c := calls[..|calls| - 1], calls[|calls| - 1];
      assert calls == before + [c];
      FreedOnce(before, a);
      IssuedSnoc(before, c, a);
    }
  }

  /** Storage goes back with the block count it was handed out with. */
  lemma {:induction false} FreedAsAllocated(calls: seq<Call>, a: nat, n: nat)
    requires Disciplined(calls)
    ensures a in Outstanding(calls) && Outstanding(calls)[a] == n ==> Malloc(a, n) in calls
    ensures Free(a, n) in calls ==> Malloc(a, n) in calls
  {
    if calls != [] {
      var before, c := calls[..|calls| - 1], calls[|calls| - 1];
      assert calls == before + [c];
      FreedAsAllocated(before, a, n);
    }
  }

  // ----- Sums over a population -----

  ghost function Sum(m: map<nat, nat>): nat {
    if m == map[] then 0
    else
      var b :| b in m;
      m[b] + Sum(m - {b})
  }

  lemma {:induction false} SumRemove(m: map<nat, nat>, b: nat)
    requires b in m
    ensures Sum(m) == m[b] + Sum(m - {b})
    decreases |m|
  {
    var c :| c in m && Sum(m) == m[c] + Sum(m - {c});
    if c != b {
      SumRemove(m - {c}, b);
      SumRemove(m - {b}, c);
      assert m - {c} - {b} == m - {b} - {c};
    }
  }

  lemma SumUpdate(m: map<nat, nat>, b: nat, n: nat)
    ensures Sum(m[b := n]) == Sum(m - {b}) + n
    ensures b in m ==> Sum(m) == Sum(m - {b}) + m[b]
    ensures b !in m ==> m - {b} == m
  {
    SumRemove(m[b := n], b);
    assert m[b := n] - {b} == m - {b};
    if b in m {
      SumRemove(m, b);
    }
  }

  ghost predicate IsMax(x: int, s: seq<int>) {
    x in s && forall i :: 0 <= i < |s| ==> s[i] <= x
  }

  // ----- The ledger and its steps -----

  /**
   `blocks` is the block count of every live buffer, `data` the storage of those
   that have some, `calls` the allocator's log, `current` and `peak` the two
   class-wide counters, and `seen` every value `current` has had.
   */
  datatype Ledger = Ledger(
    blocks: map<nat, nat>, data: map<nat, nat>, calls: seq<Call>,
    current: int, peak: int, seen: seq<int>)

  datatype Step =
    | Construct(b: nat)
    | Grow(b: nat, a: nat, n: nat)
    | Refuse(b: nat, n: nat)
    | Release(b: nat)
    | Destroy(b: nat)

  ghost function Empty(): Ledger {
    Ledger(map[], map[], [], 0, 0, [0])
  }

  ghost predicate Enabled(l: Ledger, s: Step) {
    match s
    case Construct(b) => b !in l.blocks
    case Grow(b, a, n) => b in l.blocks && l.blocks[b] < n && !Issued(l.calls, a)
    case Refuse(b, n) => b in l.blocks
    case Release(b) => b in l.blocks
    case Destroy(b) => b in l.blocks
  }

  /** The call that gives back what `b` holds, if it holds anything. */
  ghost function GiveBack(l: Ledger, b: nat): seq<Call>
    requires b in l.blocks
  {
    if l.blocks[b] > 0 && b in l.data then [Free(l.data[b], l.blocks[b])] else []
  }

  ghost function Released(l: Ledger, b: nat): Ledger
    requires b in l.blocks
  {
    if l.blocks[b] == 0 then l
    else
      var now := l.current - l.blocks[b];
      Ledger(l.blocks[b := 0], l.data - {b}, l.calls + GiveBack(l, b), now, l.peak, l.seen + [now])
  }

  ghost function Apply(l: Ledger, s: Step): Ledger
    requires Enabled(l, s)
  {
    match s
    case Construct(b) => l.(blocks := l.blocks[b := 0])
    case Grow(b, a, n) =>
      var now := l.current + (n - l.blocks[b]);
      Ledger(l.blocks[b := n], l.data[b := a], l.calls + [Malloc(a, n)] + GiveBack(l, b),
             now, if now > l.peak then now else l.peak, l.seen + [now])
    case Refuse(b, n) => l.(calls := l.calls + [Refused(n)])
    case Release(b) => Released(l, b)
    case Destroy(b) =>
      var r := Released(l, b);
      r.(blocks := r.blocks - {b})
  }

  // ----- Soundness -----

  /** Storage and buffers with a positive block count correspond one to one, with matching counts. */
  ghost predicate Owned(l: Ledger) {
    var out := Outstanding(l.calls);
    && l.data.Keys == (set b | b in l.blocks && l.blocks[b] > 0)
    && (forall b, c :: b in l.data && c in l.data && b != c ==> l.data[b] != l.data[c])
    && (forall b :: b in l.data ==> l.data[b] in out && out[l.data[b]] == l.blocks[b])
    && (forall a :: a in out ==> exists b :: b in l.data && l.data[b] == a)
  }

  ghost predicate Counted(l: Ledger) {
    && l.current == Sum(l.blocks)
    && IsMax(l.peak, l.seen)
    && l.seen[|l.seen| - 1] == l.current
  }

  ghost predicate Sound(l: Ledger) {
    Disciplined(l.calls) && Owned(l) && Counted(l)
  }

  lemma MaxSnoc(x: int, s: seq<int>, y: int)
    requires IsMax(x, s)
    ensures IsMax(if y > x then y else x, s + [y])
  {
    var i :| 0 <= i < |s| && s[i] == x;
    assert (s + [y])[i] == x && (s + [y])[|s|] == y;
  }

  lemma GrowKeepsLog(l: Ledger, b: nat, a: nat, n: nat)
    requires Sound(l) && Enabled(l, Grow(b, a, n))
    ensures a !in Outstanding(l.calls)
    ensures Disciplined(Apply(l, Grow(b, a, n)).calls)
    ensures Outstanding(Apply(l, Grow(b, a, n)).calls) ==
            (if l.blocks[b] > 0 then Outstanding(l.calls) - {l.data[b]} else Outstanding(l.calls))[a := n]
  {
    var l' := Apply(l, Grow(b, a, n));
    var mid := l.calls + [Malloc(a, n)];
    LogSnoc(l.calls, Malloc(a, n));
    FreedOnce(l.calls, a);
    if l.blocks[b] > 0 {
      var f := Free(l.data[b], l.blocks[b]);
      LogSnoc(mid, f);
      assert l'.calls == mid + [f];
    } else {
      assert l'.calls == mid;
    }
  }

  lemma GrowKeepsOwned(l: Ledger, b: nat, a: nat, n: nat)
    requires Sound(l) && Enabled(l, Grow(b, a, n))
    ensures Owned(Apply(l, Grow(b, a, n)))
  {
    hide Outstanding, Disciplined, Issued, Sum, IsMax;
    var l' := Apply(l, Grow(b, a, n));
    GrowKeepsLog(l, b, a, n);
    var out, out' := Outstanding(l.calls), Outstanding(l'.calls);
    forall x | x in out' ensures exists c :: c in l'.data && l'.data[c] == x {
      if x == a {
        assert l'.data[b] == a;
      } else {
        var c :| c in l.data && l.data[c] == x;
        assert l'.data[c] == x;
      }
    }
  }

  lemma GrowKeepsSound(l: Ledger, b: nat, a: nat, n: nat)
    requires Sound(l) && Enabled(l, Grow(b, a, n))
    ensures Sound(Apply(l, Grow(b, a, n)))
  {
    GrowKeepsLog(l, b, a, n);
    GrowKeepsOwned(l, b, a, n);
    SumUpdate(l.blocks, b, n);
    MaxSnoc(l.peak, l.seen, l.current + (n - l.blocks[b]));
  }

  lemma ReleaseKeepsSound(l: Ledger, b: nat)
    requires Sound(l) && b in l.blocks
    ensures Sound(Released(l, b))
    ensures Released(l, b).blocks == l.blocks[b := 0]
  {
    if l.blocks[b] > 0 {
      var l' := Released(l, b);
      var f := Free(l.data[b], l.blocks[b]);
      LogSnoc(l.calls, f);
      assert l'.calls == l.calls + [f];
      forall x | x in Outstanding(l'.calls) ensures exists c :: c in l'.data && l'.data[c] == x {
        var c :| c in l.data && l.data[c] == x;
        assert l'.data[c] == x;
      }
      SumUpdate(l.blocks, b, 0);
      MaxSnoc(l.peak, l.seen, l'.current);
    }
  }

  lemma RemoveKeepsSound(l: Ledger, b: nat)
    requires Sound(l) && b in l.blocks && l.blocks[b] == 0
    ensures Sound(l.(blocks := l.blocks - {b}))
  {
    SumRemove(l.blocks, b);
  }

  /** Every step of any buffer keeps the books of all of them in order. */
  lemma StepKeepsSound(l: Ledger, s: Step)
    requires Sound(l) && Enabled(l, s)
    ensures Sound(Apply(l, s))
  {
    match s
    case Construct(b) => SumUpdate(l.blocks, b, 0);
    case Grow(b, a, n) => GrowKeepsSound(l, b, a, n);
    case Refuse(b, n) => LogSnoc(l.calls, Refused(n));
    case Release(b) => ReleaseKeepsSound(l, b);
    case Destroy(b) =>
      ReleaseKeepsSound(l, b);
      RemoveKeepsSound(Released(l, b), b);
  }

  // ----- Whole runs -----

  ghost predicate Legal(steps: seq<Step>)
    decreases |steps|, 0
  {
    steps != [] ==>
      Legal(steps[..|steps| - 1]) && Enabled(Run(steps[..|steps| - 1]), steps[|steps| - 1])
  }

  ghost function Run(steps: seq<Step>): Ledger
    requires Legal(steps)
    decreases |steps|, 1
  {
    if steps == [] then Empty() else Apply(Run(steps[..|steps| - 1]), steps[|steps| - 1])
  }

  lemma OneMore(steps: seq<Step>, s: Step)
    requires Legal(steps) && Enabled(Run(steps), s)
    ensures Legal(steps + [s]) && Run(steps + [s]) == Apply(Run(steps), s)
  {
    var more := steps + [s];
    assert more[..|more| - 1] == steps && more[|more| - 1] == s;
  }

  /** Conservation and ownership, for any interleaving of the steps of any population. */
  lemma {:induction false} RunIsSound(steps: seq<Step>)
    requires Legal(steps)
    ensures Sound(Run(steps))
  {
    if steps == [] {
    } else {
      RunIsSound(steps[..|steps| - 1]);
      StepKeepsSound(Run(steps[..|steps| - 1]), steps[|steps| - 1]);
    }
  }

  /** From step to step the peak is the larger of what it was and what the counter is now. */
  lemma PeakFollows(steps: seq<Step>, more: seq<Step>)
    requires Legal(steps) && Legal(more) && steps <= more && |more| <= |steps| + 1
    ensures var p, now := Run(steps).peak, Run(more).current;
            Run(more).peak == if now > p then now else p
  {
    RunIsSound(steps);
    if |more| > |steps| {
      assert more[..|more| - 1] == steps;
    } else {
      assert more == steps;
    }
  }

  /**
   Once every buffer is destroyed nothing is outstanding, the counter is back at
   zero, and every piece of storage ever handed out was freed exactly once, with
   the block count it was allocated with.
   */
  lemma NothingLeaks(steps: seq<Step>, a: nat, n: nat)
    requires Legal(steps) && Run(steps).blocks == map[]
    ensures Run(steps).current == 0 && Outstanding(Run(steps).calls) == map[]
    ensures Issued(Run(steps).calls, a) ==> Mallocs(Run(steps).calls, a) == 1 == Frees(Run(steps).calls, a)
    ensures Free(a, n) in Run(steps).calls <==> Malloc(a, n) in Run(steps).calls
  {
    var l := Run(steps);
    RunIsSound(steps);
    FreedOnce(l.calls, a);
    FreedAsAllocated(l.calls, a, n);
    if Malloc(a, n) in l.calls {
      MallocIsFreed(l.calls, a, n);
    }
  }

  lemma {:induction false} MallocIsFreed(calls: seq<Call>, a: nat, n: nat)
    requires Disciplined(calls) && Malloc(a, n) in calls
    ensures Free(a, n) in calls || (a in Outstanding(calls) && Outstanding(calls)[a] == n)
  {
    var before, c := calls[..|calls| - 1], calls[|calls| - 1];
    assert calls == before + [c];
    if Malloc(a, n) in before {
      MallocIsFreed(before, a, n);
      var i :| 0 <= i < |before| && before[i] == Malloc(a, n);
      assert Issued(before, a);
    }
  }

  // ----- What the operations need to know of a reachable ledger -----

  lemma HoldersDiffer(steps: seq<Step>, b: nat, c: nat)
    requires Legal(steps) && b in Run(steps).data && c in Run(steps).data && b != c
    ensures Run(steps).data[b] != Run(steps).data[c]
  {
    RunIsSound(steps);
  }

  lemma CountCoversOne(steps: seq<Step>, b: nat)
    requires Legal(steps) && b in Run(steps).blocks
    ensures Run(steps).current >= Run(steps).blocks[b]
    ensures b in Run(steps).data <==> Run(steps).blocks[b] > 0
  {
    RunIsSound(steps);
    SumRemove(Run(steps).blocks, b);
  }

  lemma HeldIsReturnable(steps: seq<Step>, b: nat)
    requires Legal(steps) && b in Run(steps).data && b in Run(steps).blocks
    ensures Allowed(Run(steps).calls, Free(Run(steps).data[b], Run(steps).blocks[b]))
  {
    RunIsSound(steps);
  }

  /** After new storage was handed out, the old one of the same buffer can still be returned. */
  lemma OldStaysReturnable(steps: seq<Step>, b: nat, a: nat, n: nat)
    requires Legal(steps) && Enabled(Run(steps), Grow(b, a, n)) && b in Run(steps).data
    ensures Allowed(Run(steps).calls + [Malloc(a, n)], Free(Run(steps).data[b], Run(steps).blocks[b]))
    ensures Run(steps).data[b] != a
  {
    RunIsSound(steps);
    LogSnoc(Run(steps).calls, Malloc(a, n));
    FreedOnce(Run(steps).calls, Run(steps).data[b]);
  }

  // ----- Numbers as names -----

  ghost predicate NamesBelow(l: Ledger, n: nat) {
    && (forall a: nat :: Issued(l.calls, a) ==> a < n)
    && (forall b :: b in l.blocks ==> b < n)
  }

  lemma NamesStayBelow(l: Ledger, s: Step, n: nat, n': nat)
    requires NamesBelow(l, n) && Enabled(l, s) && n <= n'
    requires s.Construct? ==> s.b < n'
    requires s.Grow? ==> s.a < n'
    ensures NamesBelow(Apply(l, s), n')
  {
    var l' := Apply(l, s);
    forall a: nat | Issued(l'.calls, a) ensures a < n' {
      if !Issued(l.calls, a) {
        var i :| 0 <= i < |l'.calls| && l'.calls[i].Malloc? && l'.calls[i].blk == a;
        assert i >= |l.calls|;
      }
    }
  }
}
