/**
 Any number of buffers of one pool, and any interleaving of what may be done to them.
 The driver is not in the source; it puts the guarantees of the operations together.
 */
module Populations {
  import opened BlockArithmetic
  import opened BlockLedger
  import opened BlockBuffers
  import opened ForwardBuffers
  import opened PopulationModel

  ghost predicate AllDifferent(s: seq<BlockBuffer>) {
    forall i, j :: 0 <= i < j < |s| ==> s[i] != s[j]
  }

  ghost function StateOf(b: BlockBuffer): Buf
    requires b.Live()
    reads b, b.pool, b.Storage()
  {
    Buf(b.Contents(), b.block)
  }

  ghost function Names(s: seq<BlockBuffer>): (names: seq<nat>)
    ensures |names| == |s|
  {
    seq(|s|, i requires 0 <= i < |s| => s[i].name)
  }

  class Population {
    const pool: Pool
    var live: seq<BlockBuffer>
    ghost var view: seq<Buf>
    ghost var repr: set<object>

    /** The pool and the population know the same buffers. */
    ghost predicate Enrolled()
      reads this`live, pool, pool.roster.Values
    {
      && pool.Valid()
      && (forall n :: n in pool.roster ==>
            pool.roster[n].pool == pool && pool.roster[n].name == n && pool.roster[n].Live())
      && (forall i :: 0 <= i < |live| ==> live[i].name in pool.roster && pool.roster[live[i].name] == live[i])
      && (forall n :: n in pool.roster ==> pool.roster[n] in live)
      && AllDifferent(live)
    }

    /** The buffers in `s` hold what is in `v`. */
    ghost predicate Show(s: seq<BlockBuffer>, v: seq<Buf>)
      reads this`repr, pool, repr
    {
      this !in repr && |v| == |s| && forall i :: 0 <= i < |s| ==> s[i] in repr && Shows(s[i], v[i])
    }

    ghost predicate Shows(b: BlockBuffer, x: Buf)
      reads this`repr, pool, repr, b
    {
      b in repr && b.Storage() <= repr && b.pool == pool && b.Live() && x == StateOf(b)
    }

    /** `view` is what the live buffers hold. */
    ghost predicate Valid()
      reads this, pool, repr, pool.roster.Values
    {
      Enrolled() && Show(live, view)
    }

    constructor (pool: Pool)
      requires pool.Valid() && pool.roster == map[]
      ensures Valid() && this.pool == pool && live == [] && view == [] && repr == {}
    {
      this.pool := pool;
      live := [];
      view, repr := [], {};
    }

    /** Enrolled but for `b`, which the pool knows and the population does not. */
    ghost predicate Lacks(b: BlockBuffer)
      reads this`live, pool, pool.roster.Values
    {
      && pool.Valid()
      && (forall n :: n in pool.roster ==>
            pool.roster[n].pool == pool && pool.roster[n].name == n && pool.roster[n].Live())
      && (forall i :: 0 <= i < |live| ==> live[i].name in pool.roster && pool.roster[live[i].name] == live[i])
      && (forall n :: n in pool.roster ==> pool.roster[n] in live || pool.roster[n] == b)
      && b !in live && b.name in pool.roster && pool.roster[b.name] == b
      && AllDifferent(live)
    }

    method Create() returns (b: BlockBuffer)
      requires Valid()
      modifies pool
      ensures fresh(b) && b.pool == pool && b.data == null && b.Live() && StateOf(b) == Buf([], 0)
      ensures Show(live, view) && Lacks(b) && pool.steps == old(pool.steps) + [Construct(b.name)]
    {
      hide Run, Legal, NamesBelow, Bytes, AllDifferent, BlockBuffer.Live, Pool.Valid;
      b := new BlockBuffer(pool);
    }

    /** A new buffer, empty and without storage, joins at the end. */
    method Add()
      requires Valid()
      modifies this, pool
      ensures Valid() && fresh(repr - old(repr))
      ensures |live| == |old(live)| + 1 && live[..|old(live)|] == old(live) && fresh(live[|old(live)|])
      ensures view == old(view) + [Buf([], 0)]
      ensures pool.steps == old(pool.steps) + [Construct(live[|old(live)|].name)]
    {
      hide Enrolled, Lacks, BlockBuffer.Live;
      var b := Create();
      Enlist(b);
      label Enlisted:
      assert Show(live[..|live| - 1], view);
      view, repr := view + [Buf([], 0)], repr + {b};
      forall i | 0 <= i < |live| ensures live[i] in repr && Shows(live[i], view[i]) {
        assert i < |live| - 1 ==> old@Enlisted(Shows(live[..|live| - 1][i], view[i]));
      }
    }

    method Enlist(b: BlockBuffer)
      requires Lacks(b)
      modifies this`live
      ensures Enrolled() && live == old(live) + [b]
    {
      assert AllDifferent(live + [b]);
      hide AllDifferent, BlockBuffer.Live, Pool.Valid;
      live := live + [b];
    }

    /** One action on the buffer at `at`; the others keep their bytes and blocks. */
    method Act(at: nat, a: Action) returns (ok: bool)
      requires Valid() && at < |live| && Admissible(view[at].bytes, a)
      modifies this`view, this`repr, pool, live[at], live[at].Storage()
      ensures Valid() && live == old(live) && fresh(repr - old(repr))
      ensures Answer(old(view[at]), a, ok, pool.blockSize, pool.maxBlocks)
      ensures view == Next(old(view), On(at, a), ok, pool.blockSize)
      ensures pool.steps == old(pool.steps) ||
              exists s: Step :: s.b == live[at].name && pool.steps == old(pool.steps) + [s]
      ensures |pool.steps| > |old(pool.steps)| && pool.steps[|old(pool.steps)|].Refuse? <==>
              Denied(old(view), On(at, a), ok, pool.blockSize, pool.maxBlocks)
    {
      hide Run, Legal, NamesBelow, Bytes, AllDifferent, Enrolled, Answer, BytesAfter, BlockAfter,
           BlockBuffer.Live, Pool.Valid;
      OnlyAt(at);
      ok := Touch(live[at], a);
      repr := repr + live[at].Storage();
      ghost var now := view[at := StateOf(live[at])];
      forall i | 0 <= i < |live| ensures Shows(live[i], now[i]) {
        assert old(Shows(live[i], view[i]));
      }
      view := now;
    }

    lemma OnlyAt(at: nat)
      requires Enrolled() && at < |live|
      ensures live[at].pool == pool && live[at].Live()
      ensures forall i :: 0 <= i < |live| ==> live[i] in pool.roster.Values && (live[i] == live[at] <==> i == at)
    {
    }

    method Touch(b: BlockBuffer, a: Action) returns (ok: bool)
      requires Enrolled() && b in live && b.pool == pool && b.Live() && Admissible(b.Contents(), a)
      modifies pool, b, b.Storage()
      ensures Enrolled() && Did(b, a, ok)
    {
      hide Run, Legal, NamesBelow, Bytes, BlockBuffer.Stepped, BlockBuffer.Live, Pool.Valid, AllDifferent, Answer,
           BytesAfter, BlockAfter;
      ok := Perform(b, a);
    }

    /** `rest` is what is live without `b`. */
    ghost predicate Without(b: BlockBuffer, rest: seq<BlockBuffer>)
      reads this`live
    {
      && b in live
      && (forall i :: 0 <= i < |rest| ==> rest[i] in live && rest[i] != b)
      && AllDifferent(rest)
      && (forall c :: c in live && c != b ==> c in rest)
    }

    lemma TakenOut(at: nat)
      requires at < |live| && AllDifferent(live) && Show(live, view)
      ensures Without(live[at], live[..at] + live[at + 1..])
      ensures Show(live[..at] + live[at + 1..], view[..at] + view[at + 1..])
    {
      hide Shows;
      var rest := live[..at] + live[at + 1..];
      assert forall i :: 0 <= i < |rest| ==> rest[i] == live[if i < at then i else i + 1];
      forall b | b in live && b != live[at] ensures b in rest {
        var k :| 0 <= k < |live| && live[k] == b;
        assert rest[if k < at then k else k - 1] == b;
      }
    }

    method Strike(b: BlockBuffer, rest: seq<BlockBuffer>)
      requires Enrolled() && Without(b, rest)
      modifies this`live, pool, b
      ensures Enrolled() && live == rest
      ensures pool.steps == old(pool.steps) + [BlockLedger.Destroy(b.name)]
      ensures forall c :: c in rest ==> c.Live() && c.Contents() == old(c.Contents())
    {
      hide Run, Legal, NamesBelow, Bytes, BlockBuffer.Stepped, BlockBuffer.Live, Pool.Valid, AllDifferent;
      b.Destroy();
      live := rest;
    }

    method Discard(b: BlockBuffer, rest: seq<BlockBuffer>, ghost v: seq<Buf>)
      requires Enrolled() && Without(b, rest) && Show(rest, v)
      modifies this`live, pool, b
      ensures Enrolled() && live == rest && Show(rest, v)
      ensures pool.steps == old(pool.steps) + [BlockLedger.Destroy(b.name)]
    {
      hide Run, Legal, NamesBelow, Bytes, Enrolled, Pool.Valid, AllDifferent, BlockBuffer.Live;
      Strike(b, rest);
      forall i | 0 <= i < |rest| ensures Shows(rest[i], v[i]) {
        assert old(Shows(rest[i], v[i]) && rest[i] != b);
      }
    }

    /** The buffer at `at` is destroyed; the others stay in order and keep their bytes and blocks. */
    method Remove(at: nat)
      requires Valid() && at < |live|
      modifies this, pool, live[at]
      ensures Valid() && fresh(repr - old(repr))
      ensures live == old(live[..at] + live[at + 1..]) && view == old(view[..at] + view[at + 1..])
      ensures pool.steps == old(pool.steps) + [BlockLedger.Destroy(old(live[at]).name)]
    {
      TakenOut(at);
      hide Run, Legal, NamesBelow, Bytes, AllDifferent, BlockBuffer.Live, Pool.Valid, Without, Enrolled, Shows;
      Discard(live[at], live[..at] + live[at + 1..], view[..at] + view[at + 1..]);
      view := view[..at] + view[at + 1..];
    }

    /** Whether what the source asserts, and the address space, allow the action. */
    method Allows(b: BlockBuffer, a: Action) returns (can: bool)
      requires b.Live()
      ensures can == Admissible(b.Contents(), a)
    {
      can := Admissible(if b.data == null then [] else b.data[..b.size], a);
    }

    lemma NamesDiffer()
      requires Enrolled()
      ensures var names := Names(live);
              && (forall i, j :: 0 <= i < j < |names| ==> names[i] != names[j])
              && (forall i :: 0 <= i < |names| ==> names[i] in pool.roster && pool.roster[names[i]] == live[i])
              && pool.roster.Keys == set n | n in names
    {
      hide Pool.Valid, BlockBuffer.Live;
      forall n | n in pool.roster ensures n in Names(live) {
        var i :| 0 <= i < |live| && live[i] == pool.roster[n];
        assert Names(live)[i] == n;
      }
    }

    /** The counter, kept by increments over the whole class, is the total of what the buffers have. */
    lemma CurrentIsTotal()
      requires Valid()
      ensures pool.current == Total(view)
      ensures 0 < pool.blockSize && Legal(pool.steps)
      ensures pool.current == Run(pool.steps).current && pool.peak == Run(pool.steps).peak
    {
      CountersMatchBuffers(pool);
      NamesDiffer();
      assert forall i :: 0 <= i < |live| ==> Shows(live[i], view[i]);
      hide Run, Legal, NamesBelow, Bytes, Sum, IsMax, Enrolled, AllDifferent, BlockBuffer.Live, Names;
      TotalIsSum(view, Names(live), pool.Population());
    }

    /** One event; one that cannot happen is passed over. */
    method Happen(e: Event) returns (ok: bool)
      requires Valid()
      modifies this, pool, repr
      ensures Valid() && fresh(repr - old(repr))
      ensures view == Next(old(view), e, ok, pool.blockSize)
      ensures e.On? && Possible(old(view), e) ==>
                Answer(old(view)[e.at], e.action, ok, pool.blockSize, pool.maxBlocks)
      ensures old(pool.steps) <= pool.steps && |pool.steps| <= |old(pool.steps)| + 1
      ensures |pool.steps| > |old(pool.steps)| && pool.steps[|old(pool.steps)|].Refuse? <==>
              Denied(old(view), e, ok, pool.blockSize, pool.maxBlocks)
    {
      hide Run, Legal, NamesBelow, Bytes, AllDifferent, BlockBuffer.Live, Pool.Valid, Enrolled, Answer, Admissible,
           BytesAfter, BlockAfter;
      ok := true;
      match e {
        case New => Add();
        case On(at, a) =>
          if at < |live| {
            assert Shows(live[at], view[at]);
            var can := Allows(live[at], a);
            if can { ok := Act(at, a); }
          }
        case End(at) => if at < |live| { Remove(at); }
      }
    }

    /**
     A whole run, with the answers it gave: bytes and blocks of all buffers are what the
     model says of these answers, and so are the counter and the peak.
     */
    method RunAll(events: seq<Event>) returns (oks: seq<bool>)
      requires Valid()
      modifies this, pool, repr
      ensures Valid() && fresh(repr - old(repr))
      ensures |oks| == |events| && Answers(old(view), events, oks, pool.blockSize, pool.maxBlocks)
      ensures view == Course(old(view), events, oks, pool.blockSize)
      ensures old(pool.steps) <= pool.steps && |pool.steps| <= |old(pool.steps)| + |events|
      ensures Refusals(pool.steps) ==
              Refusals(old(pool.steps)) + Denials(old(view), events, oks, pool.blockSize, pool.maxBlocks)
      ensures pool.current == Total(view)
      ensures IsMax(pool.peak, [old(pool.peak)] + Totals(old(view), events, oks, pool.blockSize))
      ensures pool.current == Sum(pool.Population()) && IsMax(pool.peak, Run(pool.steps).seen)
      ensures live == [] ==> pool.current == 0 && Outstanding(pool.calls) == map[]
      ensures live == [] ==>
                forall a: nat :: Issued(pool.calls, a) ==> Mallocs(pool.calls, a) == 1 == Frees(pool.calls, a)
      decreases |events|
    {
      hide Run, Legal, NamesBelow, Bytes, Enrolled, Show, Next, Answer, Denied, IsMax, Total, Sum, Outstanding, Issued,
           Mallocs, Frees;
      CurrentIsTotal();
      if events == [] {
        Books();
        MaxCons(pool.peak, pool.peak, []);
        return [];
      }
      ghost var before := pool.steps;
      var ok := Happen(events[0]);
      CurrentIsTotal();
      PeakFollows(before, pool.steps);
      RefusalsOfMore(before, pool.steps);
      ghost var v := view;
      var rest := RunAll(events[1..]);
      oks := [ok] + rest;
      assert oks[1..] == rest;
      MaxOfMore(old(pool.peak), Total(v), pool.peak, Totals(v, events[1..], rest, pool.blockSize));
    }

    /** What the objects and the books say of each other in every valid population. */
    lemma Books()
      requires Valid()
      ensures pool.current == Sum(pool.Population()) && IsMax(pool.peak, Run(pool.steps).seen)
      ensures live == [] ==> pool.current == 0 && Outstanding(pool.calls) == map[]
      ensures live == [] ==>
                forall a: nat :: Issued(pool.calls, a) ==> Mallocs(pool.calls, a) == 1 == Frees(pool.calls, a)
    {
      hide Run, Legal, NamesBelow, Bytes;
      CountersMatchBuffers(pool);
      if live == [] {
        assert pool.Population() == map[];
        assert forall n, a :: !Holds(pool, n, a);
        assert Run(pool.steps).blocks == map[];
        forall a: nat | Issued(pool.calls, a) ensures Mallocs(pool.calls, a) == 1 == Frees(pool.calls, a) {
          NothingLeaks(pool.steps, a, 0);
        }
      }
    }
  }

  /** The answer was possible, bytes and blocks are what the model says, and no other buffer noticed. */
  twostate predicate Did(b: BlockBuffer, a: Action, ok: bool)
    requires old(b.Live()) && Admissible(old(b.Contents()), a)
    reads *
  {
    && b.Live() && b.pool.Valid() && b.pool.roster == old(b.pool.roster) && b.Stepped() && b.OthersKept()
    && (b.data == null || b.data == old(b.data) || fresh(b.data))
    && Answer(old(StateOf(b)), a, ok, b.pool.blockSize, b.pool.maxBlocks)
    && b.Contents() == BytesAfter(old(b.Contents()), a, ok)
    && b.block == BlockAfter(old(StateOf(b)), a, ok, b.pool.blockSize)
    && (Refused(old(b.pool.steps), b.pool.steps) <==>
        !ok && Needed(old(StateOf(b)), a, b.pool.blockSize) <= Bytes(b.pool.maxBlocks, b.pool.blockSize))
  }

  /** The step that was added, if one was, is a refusal. */
  ghost predicate Refused(before: seq<Step>, after: seq<Step>) {
    |after| > |before| && after[|before|].Refuse?
  }

  method Perform(b: BlockBuffer, a: Action) returns (ok: bool)
    requires b.Live() && Admissible(b.Contents(), a)
    modifies b, b.pool, b.Storage()
    ensures Did(b, a, ok)
  {
    match a {
      case DoAppend(app) => ok := PerformAppend(b, app);
      case DoReserve(n) => ok := PerformReserve(b, n);
      case DoResize(n, c) => ok := PerformResize(b, n, c);
      case DoReplace(pos, rep) => ok := PerformReplace(b, pos, rep);
      case DoErase(pos, n, hold) => PerformErase(b, pos, n, hold); ok := true;
      case DoConsume(cuts) => PerformConsume(b, cuts); ok := true;
    }
  }

  method PerformAppend(b: BlockBuffer, app: seq<Byte>) returns (ok: bool)
    requires b.Live() && Admissible(b.Contents(), DoAppend(app))
    modifies b, b.pool, b.Storage()
    ensures Did(b, DoAppend(app), ok)
  {
    hide Run, Legal, NamesBelow, Bytes, BlocksFor, BlockBuffer.Stepped, BlockBuffer.OthersKept;
    ok := b.Append(app);
  }

  method PerformReserve(b: BlockBuffer, n: SizeT) returns (ok: bool)
    requires b.Live() && Admissible(b.Contents(), DoReserve(n))
    modifies b, b.pool, b.Storage()
    ensures Did(b, DoReserve(n), ok)
  {
    hide Run, Legal, NamesBelow, Bytes, BlocksFor, BlockBuffer.Stepped, BlockBuffer.OthersKept;
    ok := b.Reserve(n);
  }

  method PerformResize(b: BlockBuffer, n: SizeT, c: Byte) returns (ok: bool)
    requires b.Live() && Admissible(b.Contents(), DoResize(n, c))
    modifies b, b.pool, b.Storage()
    ensures Did(b, DoResize(n, c), ok)
  {
    hide Run, Legal, NamesBelow, Bytes, BlocksFor, BlockBuffer.Stepped, BlockBuffer.OthersKept;
    ok := b.Resize(n, c);
  }

  method PerformReplace(b: BlockBuffer, pos: SizeT, rep: seq<Byte>) returns (ok: bool)
    requires b.Live() && Admissible(b.Contents(), DoReplace(pos, rep))
    modifies b, b.pool, b.Storage()
    ensures Did(b, DoReplace(pos, rep), ok)
  {
    hide Run, Legal, NamesBelow, Bytes, BlocksFor, BlockBuffer.Stepped, BlockBuffer.OthersKept;
    ok := b.Replace(pos, rep);
  }

  method PerformErase(b: BlockBuffer, pos: SizeT, n: SizeT, hold: bool)
    requires b.Live() && Admissible(b.Contents(), DoErase(pos, n, hold))
    modifies b, b.pool, b.Storage()
    ensures Did(b, DoErase(pos, n, hold), true)
  {
    hide Run, Legal, NamesBelow, Bytes, BlocksFor, BlockBuffer.Stepped, BlockBuffer.OthersKept;
    b.Erase(pos, n, hold);
  }

  method PerformConsume(b: BlockBuffer, cuts: seq<Cut>)
    requires b.Live() && Admissible(b.Contents(), DoConsume(cuts))
    modifies b, b.pool, b.Storage()
    ensures Did(b, DoConsume(cuts), true)
  {
    hide Run, Legal, NamesBelow, Bytes, BlocksFor, BlockBuffer.Stepped, BlockBuffer.OthersKept;
    Consume(b, cuts);
  }
}
