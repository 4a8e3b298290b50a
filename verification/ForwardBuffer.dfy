/**
 Consuming a buffer from the front: erasing at the front only moves a cursor, and
 the bytes go when the cursor is destroyed.
 */
module ForwardBuffers {
  import opened BlockArithmetic
  import opened BlockLedger
  import opened BlockBuffers

  // ----- Lazy and eager erasing -----

  /** One call `erase(pos, n)`. */
  datatype Cut = Cut(pos: SizeT, n: SizeT)

  /** The bytes of the underlying buffer and the cursor. */
  datatype Cursor = Cursor(bytes: seq<Byte>, pos: nat)

  ghost predicate WellPlaced(c: Cursor) {
    c.pos <= |c.bytes|
  }

  ghost function Visible(c: Cursor): seq<Byte>
    requires WellPlaced(c)
  {
    c.bytes[c.pos..]
  }

  /** What the source asserts of a call that finds `size` visible bytes. */
  predicate InBounds(size: nat, e: Cut) {
    if e.pos == 0 then e.n <= size else e.pos <= size
  }

  ghost function Advance(c: Cursor, e: Cut): Cursor
    requires WellPlaced(c) && InBounds(|Visible(c)|, e)
  {
    if e.pos == 0 then c.(pos := c.pos + e.n) else c.(bytes := Erased(c.bytes, c.pos + e.pos, e.n))
  }

  lemma AdvanceErasesVisible(c: Cursor, e: Cut)
    requires WellPlaced(c) && InBounds(|Visible(c)|, e)
    ensures WellPlaced(Advance(c, e))
    ensures Visible(Advance(c, e)) == Erased(Visible(c), e.pos, e.n)
    ensures Advance(c, e).bytes == [] ==> c.bytes == []
  {
    var k := c.pos + e.pos;
    var v := Visible(c);
    if e.pos == 0 {
      assert c.bytes[c.pos + e.n..] == v[e.n..] && v[..0] == [];
    } else {
      assert c.bytes[..k][c.pos..] == v[..e.pos];
      if e.n < |c.bytes| - k {
        assert c.bytes[k + e.n..] == v[e.pos + e.n..];
        assert (c.bytes[..k] + c.bytes[k + e.n..])[c.pos..] == c.bytes[..k][c.pos..] + c.bytes[k + e.n..];
      }
    }
  }

  predicate AllInBounds(bytes: seq<Byte>, cuts: seq<Cut>)
    decreases |cuts|
  {
    cuts != [] ==>
      InBounds(|bytes|, cuts[0]) && cuts[0].pos <= |bytes| &&
      AllInBounds(Erased(bytes, cuts[0].pos, cuts[0].n), cuts[1..])
  }

  /** A plain buffer that receives the same erases: its bytes, and the blocks it is left with. */
  ghost function Eager(bytes: seq<Byte>, cuts: seq<Cut>): seq<Byte>
    requires AllInBounds(bytes, cuts)
    decreases |cuts|
  {
    if cuts == [] then bytes else Eager(Erased(bytes, cuts[0].pos, cuts[0].n), cuts[1..])
  }

  ghost function EagerBlocks(bytes: seq<Byte>, block: nat, cuts: seq<Cut>): nat
    requires AllInBounds(bytes, cuts)
    decreases |cuts|
  {
    if cuts == [] then block
    else
      var left := Erased(bytes, cuts[0].pos, cuts[0].n);
      EagerBlocks(left, if left == [] then 0 else block, cuts[1..])
  }

  ghost predicate RunsOn(c: Cursor, cuts: seq<Cut>)
    requires WellPlaced(c)
    decreases |cuts|
  {
    cuts != [] ==>
      InBounds(|Visible(c)|, cuts[0]) && WellPlaced(Advance(c, cuts[0])) && RunsOn(Advance(c, cuts[0]), cuts[1..])
  }

  ghost function Lazy(c: Cursor, cuts: seq<Cut>): Cursor
    requires WellPlaced(c) && RunsOn(c, cuts)
    decreases |cuts|
  {
    if cuts == [] then c else Lazy(Advance(c, cuts[0]), cuts[1..])
  }

  /**
   Whatever is erased, the visible bytes are those of a plain buffer, erasing the
   skipped front at the end makes the underlying buffer that plain buffer, and on the
   way the underlying buffer is never empty unless it was so from the start.
   */
  lemma {:induction false} LazyRefinesEager(c: Cursor, cuts: seq<Cut>)
    requires WellPlaced(c) && AllInBounds(Visible(c), cuts)
    ensures RunsOn(c, cuts) && WellPlaced(Lazy(c, cuts))
    ensures Visible(Lazy(c, cuts)) == Eager(Visible(c), cuts)
    ensures Erased(Lazy(c, cuts).bytes, 0, Lazy(c, cuts).pos) == Eager(Visible(c), cuts)
    ensures Lazy(c, cuts).bytes == [] ==> c.bytes == []
    decreases |cuts|
  {
    if cuts == [] {
      assert Erased(c.bytes, 0, c.pos) == Visible(c);
    } else {
      AdvanceErasesVisible(c, cuts[0]);
      LazyRefinesEager(Advance(c, cuts[0]), cuts[1..]);
    }
  }

  /** What cuts at the front take off a plain buffer, in order. */
  ghost function Taken(bytes: seq<Byte>, cuts: seq<Cut>): seq<Byte>
    requires AllInBounds(bytes, cuts)
    decreases |cuts|
  {
    if cuts == [] then []
    else
      (if cuts[0].pos == 0 then bytes[..cuts[0].n] else []) + Taken(Erased(bytes, cuts[0].pos, cuts[0].n), cuts[1..])
  }

  /** Nothing that was taken off the front is gone: it is all there before the cursor, in order. */
  lemma {:induction false} FrontIsKept(c: Cursor, cuts: seq<Cut>)
    requires WellPlaced(c) && AllInBounds(Visible(c), cuts)
    ensures RunsOn(c, cuts)
    ensures Lazy(c, cuts).bytes == c.bytes[..c.pos] + Taken(Visible(c), cuts) + Eager(Visible(c), cuts)
    ensures Lazy(c, cuts).pos == c.pos + |Taken(Visible(c), cuts)|
    decreases |cuts|
  {
    if cuts == [] {
      assert c.bytes == c.bytes[..c.pos] + [] + c.bytes[c.pos..];
    } else {
      var e, d := cuts[0], Advance(c, cuts[0]);
      AdvanceErasesVisible(c, e);
      FrontIsKept(d, cuts[1..]);
      SkippedBytes(c, e);
      var off := if e.pos == 0 then Visible(c)[..e.n] else [];
      hide Erased, Advance, Visible;
      Regroup(c.bytes[..c.pos], off, Taken(Visible(d), cuts[1..]), Eager(Visible(d), cuts[1..]));
    }
  }

  lemma SkippedBytes(c: Cursor, e: Cut)
    requires WellPlaced(c) && InBounds(|Visible(c)|, e)
    ensures WellPlaced(Advance(c, e))
    ensures var d := Advance(c, e);
            d.bytes[..d.pos] == c.bytes[..c.pos] + if e.pos == 0 then Visible(c)[..e.n] else []
  {
  }

  lemma Regroup(w: seq<Byte>, x: seq<Byte>, y: seq<Byte>, z: seq<Byte>)
    ensures (w + x) + y + z == w + (x + y) + z && x + (y + z) == (x + y) + z
  {
  }

  /** If all cuts are at the front, what they took and what is left are what there was. */
  lemma {:induction false} FrontCutsSplit(bytes: seq<Byte>, cuts: seq<Cut>)
    requires AllInBounds(bytes, cuts) && forall k :: 0 <= k < |cuts| ==> cuts[k].pos == 0
    ensures Taken(bytes, cuts) + Eager(bytes, cuts) == bytes
    decreases |cuts|
  {
    if cuts != [] {
      var n := cuts[0].n;
      var off, rest := bytes[..n], bytes[n..];
      assert Erased(bytes, 0, n) == rest && bytes == off + rest;
      hide Erased;
      FrontCutsSplit(rest, cuts[1..]);
      Regroup([], off, Taken(rest, cuts[1..]), Eager(rest, cuts[1..]));
    }
  }

  /** A plain buffer keeps its blocks as long as it is not emptied. */
  lemma {:induction false} EagerBlocksEnd(bytes: seq<Byte>, block: nat, cuts: seq<Cut>)
    requires AllInBounds(bytes, cuts)
    ensures EagerBlocks(bytes, block, cuts) ==
            if cuts != [] && Eager(bytes, cuts) == [] then 0 else block
    ensures bytes == [] ==> Eager(bytes, cuts) == []
    decreases |cuts|
  {
    if cuts != [] {
      var left := Erased(bytes, cuts[0].pos, cuts[0].n);
      EagerBlocksEnd(left, if left == [] then 0 else block, cuts[1..]);
    }
  }

  /**
   Both buffers end with the same number of blocks, except when nothing was erased
   from a buffer that was empty but held storage: the destructor then gives it back.
   */
  lemma SameBlocksInTheEnd(bytes: seq<Byte>, block: nat, cuts: seq<Cut>)
    requires AllInBounds(bytes, cuts)
    ensures var lazyBlocks := if Eager(bytes, cuts) == [] then 0 else block;
            lazyBlocks == EagerBlocks(bytes, block, cuts) <==> !(cuts == [] && bytes == [] && block > 0)
  {
    EagerBlocksEnd(bytes, block, cuts);
  }

  // ----- The cursor object -----

  class ForwardBuffer {
    var sb: BlockBuffer?
    var pos: SizeT

    ghost predicate Valid()
      reads this, sb, if sb == null then {} else {sb.pool}
    {
      sb != null ==> sb.Live() && pos <= sb.size
    }

    /** The cursor as a value, while it is attached. */
    ghost function Abs(): (c: Cursor)
      requires Valid() && sb != null
      reads this, sb, if sb == null then {} else {sb.pool} + sb.Storage()
      ensures WellPlaced(c)
    {
      Cursor(sb.Contents(), pos)
    }

    constructor (b: BlockBuffer)
      requires b.Live()
      ensures Valid() && sb == b && Abs() == Cursor(b.Contents(), 0)
    {
      sb, pos := b, 0;
    }

    method Size() returns (n: SizeT)
      requires Valid() && sb != null
      ensures n == |Visible(Abs())| == |sb.Contents()| - pos
    {
      n := sb.size - pos;
    }

    method Empty() returns (e: bool)
      requires Valid() && sb != null
      ensures e <==> Visible(Abs()) == []
    {
      e := sb.size == pos;
    }

    /** While the cursor lives, the underlying buffer keeps its storage. */
    method Erase(p: SizeT, n: SizeT)
      requires Valid() && sb != null && InBounds(|Visible(Abs())|, Cut(p, n))
      modifies this`pos, sb, sb.pool, sb.Storage()
      ensures Valid() && sb == old(sb)
      ensures Abs() == Advance(old(Abs()), Cut(p, n))
      ensures p == 0 ==> pos == old(pos) + n && sb.Contents() == old(sb.Contents())
      ensures p > 0 ==> pos == old(pos) && sb.Contents() == Erased(old(sb.Contents()), pos + p, n)
      ensures sb.block == old(sb.block) && sb.data == old(sb.data) && sb.pool.steps == old(sb.pool.steps)
      ensures sb.pool.roster == old(sb.pool.roster) && sb.Stepped() && sb.OthersKept()
    {
      hide Run, Legal, NamesBelow, Bytes, Pool.Valid, BlockBuffer.Entered;
      if p == 0 {
        pos := pos + n;
      } else {
        sb.Erase(pos + p, n);
      }
    }

    /** The destructor. */
    method Destroy()
      requires Valid()
      modifies sb, if sb == null then {} else {sb.pool} + sb.Storage()
      ensures sb != null ==> sb.Live()
      ensures sb != null ==> sb.Contents() == Visible(old(Abs()))
      ensures sb != null ==> sb.block == if sb.Contents() == [] then 0 else old(sb.block)
      ensures sb != null ==> sb.data == null || sb.data == old(sb.data)
      ensures sb != null && sb.Contents() == [] ==> sb.pool.steps == old(sb.pool.steps) + [BlockLedger.Release(sb.name)]
      ensures sb != null && sb.Contents() != [] ==> sb.pool.steps == old(sb.pool.steps)
      ensures sb != null ==> sb.pool.roster == old(sb.pool.roster) && sb.Stepped() && sb.OthersKept()
    {
      if sb != null {
        sb.Erase(0, pos);
      }
    }

    /** After this the destructor leaves the underlying buffer alone. */
    method Release()
      modifies this`sb
      ensures Valid() && sb == null
    {
      sb := null;
    }
  }

  // ----- A cursor's life -----

  method EraseAll(f: ForwardBuffer, cuts: seq<Cut>)
    requires f.Valid() && f.sb != null && RunsOn(f.Abs(), cuts)
    modifies f`pos, f.sb, f.sb.pool, f.sb.Storage()
    ensures f.Valid() && f.sb == old(f.sb) && f.Abs() == Lazy(old(f.Abs()), cuts)
    ensures old(f.pos) <= f.pos && f.sb.Contents()[..old(f.pos)] == old(f.sb.Contents()[..f.pos])
    ensures (forall k :: 0 <= k < |cuts| ==> cuts[k].pos == 0) ==> f.sb.Contents() == old(f.sb.Contents())
    ensures f.sb.block == old(f.sb.block) && f.sb.data == old(f.sb.data) && f.sb.pool.steps == old(f.sb.pool.steps)
    ensures f.sb.pool.roster == old(f.sb.pool.roster) && f.sb.Stepped() && f.sb.OthersKept()
    decreases |cuts|
  {
    hide Run, Legal, NamesBelow, Bytes, Pool.Valid, BlockBuffer.Entered, Advance;
    if cuts == [] { return; }
    ghost var bytes, skipped := f.sb.Contents(), f.pos;
    f.Erase(cuts[0].pos, cuts[0].n);
    ghost var mid := f.sb.Contents();
    assert mid[..skipped] == bytes[..skipped];
    EraseAll(f, cuts[1..]);
    assert mid[..skipped] == f.sb.Contents()[..skipped];
  }

  /** Any erases through a cursor that is then destroyed do to a buffer what the same erases do to it directly. */
  method Consume(b: BlockBuffer, cuts: seq<Cut>)
    requires b.Live() && AllInBounds(b.Contents(), cuts)
    modifies b, b.pool, b.Storage()
    ensures b.Live() && b.Contents() == Eager(old(b.Contents()), cuts)
    ensures b.block == EagerBlocks(old(b.Contents()), old(b.block), cuts) <==>
            !(cuts == [] && old(b.Contents()) == [] && old(b.block) > 0)
    ensures b.block == if b.Contents() == [] then 0 else old(b.block)
    ensures b.data == null || b.data == old(b.data)
    ensures b.Contents() == [] ==> b.pool.steps == old(b.pool.steps) + [BlockLedger.Release(b.name)]
    ensures b.Contents() != [] ==> b.pool.steps == old(b.pool.steps)
    ensures b.pool.roster == old(b.pool.roster) && b.Stepped() && b.OthersKept()
  {
    hide Run, Legal, NamesBelow, Bytes, Pool.Valid, BlockBuffer.Entered, Lazy, Eager, EagerBlocks, RunsOn, AllInBounds,
         Erased, Advance, InBounds;
    SameBlocksInTheEnd(b.Contents(), b.block, cuts);
    var f := EraseLazily(b, cuts);
    f.Destroy();
  }

  /** A cursor on `b` that has made the cuts and still lives. */
  method EraseLazily(b: BlockBuffer, cuts: seq<Cut>) returns (f: ForwardBuffer)
    requires b.Live() && AllInBounds(b.Contents(), cuts)
    modifies b, b.pool, b.Storage()
    ensures fresh(f) && f.sb == b && f.Valid() && Visible(f.Abs()) == Eager(old(b.Contents()), cuts)
    ensures b.Contents() == old(Taken(b.Contents(), cuts) + Eager(b.Contents(), cuts))
    ensures (forall k :: 0 <= k < |cuts| ==> cuts[k].pos == 0) ==> b.Contents() == old(b.Contents())
    ensures b.block == old(b.block) && b.data == old(b.data) && b.pool.steps == old(b.pool.steps)
    ensures b.pool.roster == old(b.pool.roster) && b.Stepped() && b.OthersKept()
  {
    hide Run, Legal, NamesBelow, Bytes, Pool.Valid, BlockBuffer.Entered, Lazy, Eager, Taken, RunsOn, AllInBounds,
         Erased, Advance, InBounds;
    f := new ForwardBuffer(b);
    assert Visible(f.Abs()) == b.Contents();
    LazyRefinesEager(f.Abs(), cuts);
    FrontIsKept(f.Abs(), cuts);
    assert f.Abs().bytes[..0] + Taken(b.Contents(), cuts) == Taken(b.Contents(), cuts);
    EraseAll(f, cuts);
  }

  /**
   A cursor that is released before it is destroyed leaves everything that was taken off the
   front where it was; after cuts at the front only, the buffer is as if there had been no cursor.
   */
  method ConsumeAndRelease(b: BlockBuffer, cuts: seq<Cut>)
    requires b.Live() && AllInBounds(b.Contents(), cuts)
    modifies b, b.pool, b.Storage()
    ensures b.Live() && b.Contents() == old(Taken(b.Contents(), cuts) + Eager(b.Contents(), cuts))
    ensures (forall k :: 0 <= k < |cuts| ==> cuts[k].pos == 0) ==> b.Contents() == old(b.Contents())
    ensures b.block == old(b.block) && b.data == old(b.data) && b.pool.steps == old(b.pool.steps)
    ensures b.pool.roster == old(b.pool.roster) && b.Stepped() && b.OthersKept()
  {
    hide Run, Legal, NamesBelow, Bytes, Pool.Valid, BlockBuffer.Entered, Eager, Taken, AllInBounds;
    var f := EraseLazily(b, cuts);
    f.Release();
    f.Destroy();
  }

  /** The same erases, made on the buffer itself. */
  method EraseEach(b: BlockBuffer, cuts: seq<Cut>)
    requires b.Live() && AllInBounds(b.Contents(), cuts)
    modifies b, b.pool, b.Storage()
    ensures b.Live() && b.Contents() == Eager(old(b.Contents()), cuts)
    ensures b.block == EagerBlocks(old(b.Contents()), old(b.block), cuts)
    ensures b.pool.roster == old(b.pool.roster) && b.OthersKept()
    decreases |cuts|
  {
    hide Run, Legal, NamesBelow, Bytes, Pool.Valid, BlockBuffer.Entered, BlockBuffer.Stepped;
    if cuts == [] { return; }
    b.Erase(cuts[0].pos, cuts[0].n);
    EraseEach(b, cuts[1..]);
  }
}
