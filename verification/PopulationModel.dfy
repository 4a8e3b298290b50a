/**
 A population of buffers without storage: for each buffer its bytes and its number of
 blocks. What happens next follows from the event and the answer of the allocator.
 */
module PopulationModel {
  import opened BlockArithmetic
  import opened BlockLedger
  import opened BlockBuffers
  import opened ForwardBuffers

  /** One operation on a buffer; the last is the whole life of a cursor on it. */
  datatype Action =
    | DoAppend(app: seq<Byte>)
    | DoReserve(n: SizeT)
    | DoResize(n: SizeT, c: Byte)
    | DoReplace(pos: SizeT, rep: seq<Byte>)
    | DoErase(pos: SizeT, n: SizeT, hold: bool)
    | DoConsume(cuts: seq<Cut>)

  /** What happens next: a new buffer, an action on a live one, or the end of one. */
  datatype Event = New | On(at: nat, action: Action) | End(at: nat)

  datatype Buf = Buf(bytes: seq<Byte>, block: nat)

  // ----- One buffer -----

  /** What the source's assertions, and the size of the address space, ask of an action. */
  predicate Admissible(bytes: seq<Byte>, a: Action) {
    match a
    case DoAppend(app) => |bytes| + |app| <= SIZE_MAX
    case DoReplace(pos, rep) => |bytes| + |rep| <= SIZE_MAX
    case DoErase(pos, n, hold) => pos <= |bytes|
    case DoConsume(cuts) => AllInBounds(bytes, cuts)
    case _ => true
  }

  /** The number of bytes that the action wants room for, or 0. */
  ghost function Needed(x: Buf, a: Action, bs: nat): nat {
    match a
    case DoAppend(app) => if app == [] then 0 else |x.bytes| + |app|
    case DoReserve(n) => if n <= Bytes(x.block, bs) then 0 else |x.bytes| + n - Bytes(x.block, bs)
    case DoResize(n, c) => if n <= |x.bytes| then 0 else n
    case DoReplace(pos, rep) =>
      if rep == [] then 0
      else if pos >= |x.bytes| then |x.bytes| + |rep|
      else if pos + |rep| >= |x.bytes| then pos + |rep|
      else 0
    case DoErase(_, _, _) => 0
    case DoConsume(_) => 0
  }

  /** The allocator decides only where there is neither room enough nor too much asked for. */
  ghost predicate Answer(x: Buf, a: Action, ok: bool, bs: nat, max: nat) {
    var need := Needed(x, a, bs);
    (need <= Bytes(x.block, bs) ==> ok) && (Bytes(x.block, bs) < need && Bytes(max, bs) < need ==> !ok)
  }

  ghost function BytesAfter(bytes: seq<Byte>, a: Action, ok: bool): seq<Byte>
    requires Admissible(bytes, a)
  {
    match a
    case DoAppend(app) => if ok then bytes + app else bytes
    case DoReserve(_) => bytes
    case DoResize(n, c) => if ok then Padded(bytes, n, c) else bytes
    case DoReplace(pos, rep) =>
      if ok then Overwritten(bytes, pos, rep) else if pos < |bytes| then bytes[..pos] else bytes
    case DoErase(pos, n, hold) => Erased(bytes, pos, n)
    case DoConsume(cuts) => Eager(bytes, cuts)
  }

  /** Growth is to the least sufficient count; only erasing, unless told to hold, and the end of a cursor give back. */
  ghost function BlockAfter(x: Buf, a: Action, ok: bool, bs: nat): nat
    requires bs > 0 && Admissible(x.bytes, a)
  {
    if BytesAfter(x.bytes, a, ok) == [] && (a.DoConsume? || (a.DoErase? && !a.hold)) then 0
    else if ok && Needed(x, a, bs) > Bytes(x.block, bs) then BlocksFor(Needed(x, a, bs), bs)
    else x.block
  }

  // ----- All buffers -----

  /** Events that cannot happen are passed over. */
  ghost predicate Possible(v: seq<Buf>, e: Event) {
    match e
    case New => true
    case On(at, a) => at < |v| && Admissible(v[at].bytes, a)
    case End(at) => at < |v|
  }

  ghost function Next(v: seq<Buf>, e: Event, ok: bool, bs: nat): seq<Buf>
    requires bs > 0
  {
    if !Possible(v, e) then v
    else
      match e
      case New => v + [Buf([], 0)]
      case On(at, a) => v[at := Buf(BytesAfter(v[at].bytes, a, ok), BlockAfter(v[at], a, ok, bs))]
      case End(at) => v[..at] + v[at + 1..]
  }

  ghost function Course(v: seq<Buf>, events: seq<Event>, oks: seq<bool>, bs: nat): seq<Buf>
    requires bs > 0 && |oks| == |events|
    decreases |events|
  {
    if events == [] then v else Course(Next(v, events[0], oks[0], bs), events[1..], oks[1..], bs)
  }

  /** The answers are such as the source can give. */
  ghost predicate Answers(v: seq<Buf>, events: seq<Event>, oks: seq<bool>, bs: nat, max: nat)
    requires bs > 0 && |oks| == |events|
    decreases |events|
  {
    events != [] ==>
      && (events[0].On? && Possible(v, events[0]) ==> Answer(v[events[0].at], events[0].action, oks[0], bs, max))
      && Answers(Next(v, events[0], oks[0], bs), events[1..], oks[1..], bs, max)
  }

  /** The answer was a refusal by the allocator: no is said to what would have fitted. */
  ghost predicate Denied(v: seq<Buf>, e: Event, ok: bool, bs: nat, max: nat) {
    e.On? && Possible(v, e) && !ok && Needed(v[e.at], e.action, bs) <= Bytes(max, bs)
  }

  /** How many refusals there were in a run. */
  ghost function Denials(v: seq<Buf>, events: seq<Event>, oks: seq<bool>, bs: nat, max: nat): nat
    requires bs > 0 && |oks| == |events|
    decreases |events|
  {
    if events == [] then 0
    else
      (if Denied(v, events[0], oks[0], bs, max) then 1 else 0) +
      Denials(Next(v, events[0], oks[0], bs), events[1..], oks[1..], bs, max)
  }

  /** How many refusals are on record. */
  ghost function Refusals(steps: seq<Step>): nat {
    if steps == [] then 0 else Refusals(steps[..|steps| - 1]) + if steps[|steps| - 1].Refuse? then 1 else 0
  }

  lemma RefusalsOfMore(steps: seq<Step>, more: seq<Step>)
    requires steps <= more && |more| <= |steps| + 1
    ensures Refusals(more) == Refusals(steps) + if |more| > |steps| && more[|steps|].Refuse? then 1 else 0
  {
    if |more| > |steps| {
      assert more[..|more| - 1] == steps;
    } else {
      assert more == steps;
    }
  }

  /** The blocks of all buffers together. */
  ghost function Total(v: seq<Buf>): nat {
    if v == [] then 0 else Total(v[..|v| - 1]) + v[|v| - 1].block
  }

  /** What they come to after each event. */
  ghost function Totals(v: seq<Buf>, events: seq<Event>, oks: seq<bool>, bs: nat): seq<int>
    requires bs > 0 && |oks| == |events|
    decreases |events|
  {
    if events == [] then []
    else
      var v' := Next(v, events[0], oks[0], bs);
      [Total(v')] + Totals(v', events[1..], oks[1..], bs)
  }

  /** The two populations have the same bytes. */
  ghost predicate SameBytes(v: seq<Buf>, w: seq<Buf>) {
    |v| == |w| && forall i :: 0 <= i < |v| ==> v[i].bytes == w[i].bytes
  }

  /** How large blocks are, and who has how many, shows in the answers and nowhere else. */
  lemma {:induction false} BytesFollowAnswers(
      v: seq<Buf>, w: seq<Buf>, events: seq<Event>, oks: seq<bool>, bs: nat, bs': nat)
    requires bs > 0 && bs' > 0 && |oks| == |events| && SameBytes(v, w)
    ensures SameBytes(Course(v, events, oks, bs), Course(w, events, oks, bs'))
    decreases |events|
  {
    hide BytesAfter, BlockAfter, Admissible;
    if events != [] {
      var v', w' := Next(v, events[0], oks[0], bs), Next(w, events[0], oks[0], bs');
      assert SameBytes(v', w');
      BytesFollowAnswers(v', w', events[1..], oks[1..], bs, bs');
    }
  }

  /** The total is the sum that the books keep, whatever the buffers are called. */
  lemma {:induction false} TotalIsSum(v: seq<Buf>, names: seq<nat>, m: map<nat, nat>)
    requires |names| == |v| && (forall i, j :: 0 <= i < j < |names| ==> names[i] != names[j])
    requires m.Keys == set n | n in names
    requires forall i :: 0 <= i < |v| ==> names[i] in m && m[names[i]] == v[i].block
    ensures Sum(m) == Total(v)
  {
    if v == [] {
      assert m == map[];
    } else {
      var k := |v| - 1;
      SumRemove(m, names[k]);
      assert names == names[..k] + [names[k]];
      TotalIsSum(v[..k], names[..k], m - {names[k]});
    }
  }

  lemma MaxCons(q: int, p: int, t: seq<int>)
    ensures IsMax(q, [p] + t) <==> p <= q && (forall x :: x in t ==> x <= q) && (q == p || q in t)
  {
    var s := [p] + t;
    assert forall x :: x in s <==> x == p || x in t;
    assert IsMax(q, s) <==> q in s && forall x :: x in s ==> x <= q by {
      if forall x :: x in s ==> x <= q {
        assert forall i :: 0 <= i < |s| ==> s[i] in s;
      }
    }
    hide IsMax;
    assert forall x :: x in t ==> x in s;
    assert p in s;
  }

  lemma MaxOfMore(p: int, now: int, q: int, later: seq<int>)
    requires IsMax(q, [if now > p then now else p] + later)
    ensures IsMax(q, [p] + ([now] + later))
  {
    MaxCons(q, if now > p then now else p, later);
    MaxCons(q, p, [now] + later);
    hide IsMax;
  }
}
