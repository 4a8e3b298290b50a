/**
 The block-allocated byte buffer: storage is a whole number of blocks, bytes are
 moved in place, and a buffer that `Erase` empties gives its storage back.
 */
module BlockBuffers {
  import opened BlockArithmetic
  import opened BlockLedger

  newtype Byte = b: int | 0 <= b < 256

  // ----- What each operation does to the bytes -----

  ghost function Padded(s: seq<Byte>, n: nat, c: Byte): seq<Byte> {
    if n <= |s| then s[..n] else s + seq(n - |s|, _ => c)
  }

  function Erased(s: seq<Byte>, pos: nat, n: nat): seq<Byte>
    requires pos <= |s|
  {
    if n >= |s| - pos then s[..pos] else s[..pos] + s[pos + n..]
  }

  ghost function Overwritten(s: seq<Byte>, pos: nat, rep: seq<Byte>): seq<Byte> {
    if pos >= |s| then s + rep
    else if pos + |rep| >= |s| then s[..pos] + rep
    else s[..pos] + rep + s[pos + |rep|..]
  }

  /** Byte by byte, for every `n`: what lies before `pos` stays, `n` bytes go or all there are, the rest moves down. */
  lemma ErasedAt(s: seq<Byte>, pos: nat, n: nat)
    requires pos <= |s|
    ensures var r := Erased(s, pos, n);
            && |r| == (if pos + n < |s| then |s| - n else pos)
            && (forall i :: 0 <= i < pos ==> r[i] == s[i])
            && (forall i :: pos <= i < |r| ==> r[i] == s[i + n])
  {
  }

  lemma PaddedAt(s: seq<Byte>, n: nat, c: Byte)
    ensures var r := Padded(s, n, c);
            && |r| == n
            && (forall i :: 0 <= i < n && i < |s| ==> r[i] == s[i])
            && (forall i :: |s| <= i < n ==> r[i] == c)
  {
  }

  lemma OverwrittenAt(s: seq<Byte>, pos: nat, rep: seq<Byte>, i: nat)
    requires i < |Overwritten(s, pos, rep)|
    ensures var start := if pos < |s| then pos else |s|;
            && |Overwritten(s, pos, rep)| == (if start + |rep| < |s| then |s| else start + |rep|)
            && Overwritten(s, pos, rep)[i] == if start <= i < start + |rep| then rep[i - start] else s[i]
  {
  }

  /** Appending, padding, inserting and overwriting are each undone by one further call. */
  lemma UndoneBytes(s: seq<Byte>, x: seq<Byte>, pos: nat, n: nat, c: Byte)
    ensures Erased(s + x, |s|, |x|) == s && Padded(s + x, |s|, c) == s
    ensures n >= |s| ==> Padded(Padded(s, n, c), |s|, c) == s
    ensures pos <= |s| ==> Erased(s[..pos] + x + s[pos..], pos, |x|) == s
    ensures pos + |x| <= |s| ==> Overwritten(Overwritten(s, pos, x), pos, s[pos..pos + |x|]) == s
  {
    if pos <= |s| {
      var t := s[..pos] + x + s[pos..];
      assert t[..pos] == s[..pos] && t[pos + |x|..] == s[pos..];
    }
    if pos + |x| <= |s| {
      var t := Overwritten(s, pos, x);
      assert t[..pos] == s[..pos];
      assert pos + |x| < |s| ==> t[pos + |x|..] == s[pos + |x|..];
      assert s == s[..pos] + s[pos..pos + |x|] + s[pos + |x|..];
    }
  }

  /**
   What all buffers of one instantiation share: the template parameters, the two
   class-wide counters, and the allocator. `calls` is the allocator's log, `steps`
   the history of what all buffers did, and `roster` the live buffers by number.
   Buffers and storage are numbered below `names`; `nameOf` numbers the storage.
   */
  class Pool {
    const blockSize: Unsigned
    const maxBlocks: Unsigned
    var current: nat
    var peak: nat
    ghost var roster: map<nat, BlockBuffer>
    ghost var nameOf: map<array<Byte>, nat>
    ghost var names: nat
    ghost var calls: seq<Call>
    ghost var steps: seq<Step>

    /** The counters and the allocator's log are what the history of steps leads to. */
    ghost predicate Valid()
      reads this
    {
      && 0 < blockSize
      && Legal(steps) && NamesBelow(Run(steps), names)
      && calls == Run(steps).calls
      && current == Run(steps).current && peak == Run(steps).peak
      && roster.Keys == Run(steps).blocks.Keys
    }

    /** The block counts of the live buffers. */
    ghost function Population(): map<nat, nat>
      reads this, roster.Values
    {
      map n | n in roster :: roster[n].block as nat
    }

    constructor (blockSize: Unsigned, maxBlocks: Unsigned)
      requires 0 < blockSize
      ensures Valid() && roster == map[] && steps == []
      ensures this.blockSize == blockSize && this.maxBlocks == maxBlocks
    {
      this.blockSize, this.maxBlocks := blockSize, maxBlocks;
      current, peak := 0, 0;
      roster, nameOf, names, calls, steps := map[], map[], 0, [], [];
    }

    ghost method Record(s: Step, n: nat)
      requires Legal(steps) && NamesBelow(Run(steps), n) && Enabled(Run(steps), s)
      requires n <= names && (s.Construct? ==> s.b < names) && (s.Grow? ==> s.a < names)
      modifies `steps
      ensures steps == old(steps) + [s]
      ensures Legal(steps) && Run(steps) == Apply(Run(old(steps)), s)
      ensures NamesBelow(Run(steps), names)
    {
      OneMore(steps, s);
      NamesStayBelow(Run(steps), s, n, names);
      steps := steps + [s];
    }

    /** The allocator may refuse any request. */
    method OrderedMalloc(n: SizeT) returns (p: array?<Byte>)
      requires Bytes(n, blockSize) <= SIZE_MAX
      modifies `calls, `names, `nameOf
      ensures p == null ==> calls == old(calls) + [Refused(n)] && names == old(names) && nameOf == old(nameOf)
      ensures p != null ==>
                && fresh(p) && p !in old(nameOf) && p.Length == Bytes(n, blockSize)
                && names == old(names) + 1 && nameOf == old(nameOf)[p := old(names)]
                && calls == old(calls) + [Malloc(old(names), n)]
    {
      BytesIsProduct(n, blockSize);
      if * {
        p := new Byte[n * blockSize];
        calls, nameOf, names := calls + [Malloc(names, n)], nameOf[p := names], names + 1;
      } else {
        p := null;
        calls := calls + [Refused(n)];
      }
    }

    method OrderedFree(p: array<Byte>, n: SizeT)
      requires p in nameOf && Allowed(calls, Free(nameOf[p], n))
      modifies `calls
      ensures calls == old(calls) + [Free(nameOf[p], n)]
    {
      calls := calls + [Free(nameOf[p], n)];
    }

    method AddBlocks(n: nat)
      modifies `current, `peak
      ensures current == old(current) + n
      ensures peak == if old(current) + n > old(peak) then old(current) + n else old(peak)
    {
      current := current + n;
      if current > peak {
        peak := current;
      }
    }
  }

  class BlockBuffer {
    const pool: Pool
    ghost const name: nat
    var data: array?<Byte>
    var size: SizeT
    var block: SizeT

    ghost predicate Shaped()
      reads this
    {
      && block <= pool.maxBlocks
      && (data == null <==> block == 0)
      && (data == null ==> size == 0)
      && (data != null ==> data.Length == Bytes(block, pool.blockSize) && size <= data.Length)
    }

    /** The buffer is entered in the ledger, with the storage it holds. */
    ghost predicate Entered(l: Ledger)
      reads this, pool
    {
      && name in pool.roster && pool.roster[name] == this
      && name in l.blocks && l.blocks[name] == block
      && (data != null ==> data in pool.nameOf && name in l.data && l.data[name] == pool.nameOf[data])
    }

    ghost predicate Live()
      reads this, pool
    {
      pool.Valid() && Shaped() && Entered(Run(pool.steps))
    }

    ghost function Storage(): set<object>
      reads this
    {
      if data == null then {} else {data}
    }

    ghost function Contents(): (s: seq<Byte>)
      requires Shaped()
      reads this, Storage()
      ensures |s| == size
    {
      if data == null then [] else data[..size]
    }

    ghost function Capacity(): nat
      reads this
    {
      Bytes(block, pool.blockSize)
    }

    ghost function MaxSize(): nat {
      Bytes(pool.maxBlocks, pool.blockSize)
    }

    method FreeSpace() returns (free: SizeT)
      requires pool.Valid() && Shaped()
      ensures free == Capacity() - size
      ensures data == null ==> free == 0
    {
      BytesIsProduct(block, pool.blockSize);
      ParametersFit(block, pool.blockSize);
      free := block * pool.blockSize - size;
    }

    /** At most one step was taken, by this buffer, and storage kept its numbers. */
    twostate predicate Stepped()
      reads pool
    {
      && pool.Valid() && pool.roster - {name} == old(pool.roster) - {name}
      && (pool.steps == old(pool.steps) || exists s: Step :: s.b == name && pool.steps == old(pool.steps) + [s])
      && (forall p :: p in old(pool.nameOf) ==> p in pool.nameOf && pool.nameOf[p] == old(pool.nameOf)[p])
    }

    /** Live buffers of one pool do not share storage. */
    lemma Apart(c: BlockBuffer)
      requires Live() && c.Live() && c != this && c.pool == pool && data != null
      ensures c.data != data
    {
      if c.data == data {
        HoldersDiffer(pool.steps, name, c.name);
      }
    }

    /** What one buffer does changes nothing about another live buffer of the pool. */
    twostate lemma OtherIsKept(c: BlockBuffer)
      requires old(Live()) && old(c.Live()) && c != this && c.pool == pool
      requires Stepped() && unchanged(c)
      ensures c.Live()
      ensures old(data) != null ==> c.data != old(data)
    {
      if old(data) != null && c.data == old(data) {
        HoldersDiffer(old(pool.steps), name, c.name);
      }
      assert c.name in old(pool.roster) - {name} && c.name in pool.roster - {name};
      if pool.steps != old(pool.steps) {
        var s: Step :| s.b == name && pool.steps == old(pool.steps) + [s];
        assert pool.steps[..|pool.steps| - 1] == old(pool.steps);
      }
    }

    /** Every other live buffer of the pool stays live and keeps its bytes. */
    twostate predicate OthersKept()
      reads *
    {
      forall c :: c in old(pool.roster.Values) && c != this && c.pool == pool && old(c.Live()) ==>
        c.Live() && c.Contents() == old(c.Contents())
    }

    twostate lemma KeepOthers()
      requires old(Live()) && Stepped()
      requires forall c :: c in old(pool.roster.Values) && c != this ==> unchanged(c)
      requires forall c :: c in old(pool.roster.Values) && c != this && c.data != null && c.data != old(data) ==>
                 unchanged(c.data)
      ensures OthersKept()
    {
      forall c | c in old(pool.roster.Values) && c != this && c.pool == pool && old(c.Live())
        ensures c.Live() && c.Contents() == old(c.Contents())
      {
        OtherIsKept(c);
      }
    }

    /**
     The outcome of asking for room for `need` bytes in all. Nothing happens when
     there is room already or never can be; otherwise the allocator is asked for the
     least sufficient block count, and a refusal changes nothing else.
     */
    twostate predicate Granted(need: nat, ok: bool)
      requires pool.blockSize > 0
      reads this, pool
    {
      if need <= old(Capacity()) || need > MaxSize() then
        && (ok <==> need <= old(Capacity()))
        && data == old(data) && block == old(block) && pool.steps == old(pool.steps)
      else
        Answered(BlocksFor(need, pool.blockSize), ok)
    }

    /** The allocator was asked for `n` blocks. */
    twostate predicate Answered(n: nat, ok: bool)
      reads this, pool
    {
      if ok then
        && block == n && data != null && data in pool.nameOf
        && pool.steps == old(pool.steps) + [Grow(name, pool.nameOf[data], n)]
      else
        && data == old(data) && block == old(block)
        && pool.steps == old(pool.steps) + [Refuse(name, n)]
    }

    constructor (pool: Pool)
      requires pool.Valid()
      modifies pool
      ensures this.pool == pool && pool.Valid() && Live() && Contents() == [] && block == 0 && data == null
      ensures name !in old(pool.roster) && pool.roster == old(pool.roster)[name := this]
      ensures pool.steps == old(pool.steps) + [Construct(name)]
      ensures forall c :: c in old(pool.roster.Values) && c.pool == pool && old(c.Live()) ==> c.Live()
    {
      hide Run, Legal, Issued;
      this.pool := pool;
      name := pool.names;
      block, size, data := 0, 0, null;
      new;
      pool.names, pool.roster := pool.names + 1, pool.roster[name := this];
      pool.Record(Construct(name), name);
    }

    /** `free` of the source: storage goes back, the size stays what it was. */
    method GiveBackStorage()
      requires Live()
      modifies this`data, this`block, pool`calls, pool`current
      ensures data == null && block == 0
      ensures pool.calls == old(pool.calls) + GiveBack(Run(pool.steps), name)
      ensures pool.current == old(pool.current) - Run(pool.steps).blocks[name]
    {
      if block > 0 {
        HeldIsReturnable(pool.steps, name);
        CountCoversOne(pool.steps, name);
        pool.OrderedFree(data, block);
        pool.current := pool.current - block;
        data, block := null, 0;
      }
    }

    method Destroy()
      requires Live()
      modifies this, pool
      ensures pool.Valid() && pool.roster == old(pool.roster) - {name}
      ensures pool.steps == old(pool.steps) + [BlockLedger.Destroy(name)]
      ensures Stepped() && OthersKept()
    {
      hide Run, Legal, NamesBelow, Bytes;
      CountCoversOne(pool.steps, name);
      GiveBackStorage();
      pool.Record(BlockLedger.Destroy(name), pool.names);
      pool.roster := pool.roster - {name};
      KeepOthers();
    }

    method CopyOver(target: array<Byte>)
      requires data != null && target != data && size <= data.Length && size <= target.Length
      modifies target
      ensures target[..size] == data[..size]
    {
      forall i | 0 <= i < size { target[i] := data[i]; }
    }

    /** Fill the new storage, give the old one back, count, and switch over. */
    method MoveInto(newdata: array<Byte>, newblock: SizeT)
      requires Legal(pool.steps) && Shaped() && Entered(Run(pool.steps))
      requires newdata in pool.nameOf && newdata != data && size <= newdata.Length
      requires NamesBelow(Run(pool.steps), pool.nameOf[newdata]) && pool.nameOf[newdata] < pool.names
      requires pool.current == Run(pool.steps).current && pool.peak == Run(pool.steps).peak
      requires pool.calls == Run(pool.steps).calls + [Malloc(pool.nameOf[newdata], newblock)]
      requires block < newblock
      modifies this`data, this`block, pool`calls, pool`current, pool`peak, pool`steps, newdata
      ensures data == newdata && block == newblock
      ensures newdata[..size] == old(Contents())
      ensures pool.steps == old(pool.steps) + [Grow(name, pool.nameOf[newdata], newblock)]
      ensures Legal(pool.steps) && NamesBelow(Run(pool.steps), pool.names)
      ensures Run(pool.steps) == Apply(Run(old(pool.steps)), Grow(name, pool.nameOf[newdata], newblock))
      ensures pool.calls == Run(pool.steps).calls
      ensures pool.current == Run(pool.steps).current && pool.peak == Run(pool.steps).peak
    {
      ghost var n := pool.nameOf[newdata];
      if block > 0 {
        CountCoversOne(pool.steps, name);
        OldStaysReturnable(pool.steps, name, n, newblock);
        CopyOver(newdata);
        pool.OrderedFree(data, block);
      }
      pool.AddBlocks(newblock - block);
      data, block := newdata, newblock;
      pool.Record(Grow(name, n, newblock), n);
    }

    /** The allocating part of `IncreaseCapacity`. */
    method Obtain(newblock: SizeT) returns (ok: bool)
      requires Live() && block < newblock <= pool.maxBlocks
      modifies this`data, this`block, pool`calls, pool`current, pool`peak, pool`steps, pool`names, pool`nameOf
      ensures Live() && Contents() == old(Contents())
      ensures Answered(newblock, ok)
      ensures ok ==> fresh(data)
      ensures forall p :: p in old(pool.nameOf) ==> p in pool.nameOf && pool.nameOf[p] == old(pool.nameOf)[p]
    {
      hide Run, Legal, Bytes, BlocksFor;
      BytesMonotone(block, newblock, pool.blockSize);
      ParametersFit(newblock, pool.blockSize);
      var newdata := pool.OrderedMalloc(newblock);
      if newdata == null {
        pool.Record(Refuse(name, newblock), pool.names);
        return false;
      }
      MoveInto(newdata, newblock);
      return true;
    }

    method IncreaseCapacity(increase: SizeT) returns (ok: bool)
      requires Live() && size + increase <= SIZE_MAX
      modifies this`data, this`block, pool
      ensures Live() && Contents() == old(Contents())
      ensures Granted(size + increase, ok)
      ensures size + increase <= old(block) * pool.blockSize ==>
                ok && block == old(block) && pool.steps == old(pool.steps)
      ensures old(block) * pool.blockSize < size + increase <= pool.maxBlocks * pool.blockSize ==>
                && |pool.steps| == |old(pool.steps)| + 1
                && var s := pool.steps[|old(pool.steps)|];
                && s.b == name && (if ok then s.Grow? && block == s.n else s.Refuse?)
                && (s.n - 1) * pool.blockSize < size + increase <= s.n * pool.blockSize
      ensures size + increase > old(block) * pool.blockSize && size + increase > pool.maxBlocks * pool.blockSize ==>
                !ok && pool.steps == old(pool.steps)
      ensures pool.roster == old(pool.roster) && Stepped()
      ensures data == old(data) || fresh(data)
      ensures ok ==> size + increase <= Capacity() && (increase > 0 ==> data != null)
    {
      hide Run, Legal, NamesBelow, Bytes, BlocksFor;
      if size + increase > 0 {
        InProducts(size + increase, block, pool.maxBlocks, pool.blockSize);
      }
      if increase == 0 { return true; }
      var free := FreeSpace();
      if free >= increase { return true; }
      var newblock := BlocksNeeded(block, size, free, increase, pool.blockSize);
      GrowthBounds(size + increase, block, pool.maxBlocks, pool.blockSize);
      if newblock > pool.maxBlocks { return false; }
      ok := Obtain(newblock);
    }

    method Append(app: seq<Byte>) returns (ok: bool)
      requires Live() && size + |app| <= SIZE_MAX
      modifies this, pool, Storage()
      ensures Live() && pool.roster == old(pool.roster) && Stepped() && OthersKept()
      ensures data == old(data) || fresh(data)
      ensures Contents() == if ok then old(Contents()) + app else old(Contents())
      ensures |app| > 0 ==> Granted(old(size) + |app|, ok)
      ensures |app| > 0 && old(size) + |app| <= old(block) * pool.blockSize ==>
                ok && block == old(block) && pool.steps == old(pool.steps)
      ensures |app| > 0 && old(block) * pool.blockSize < old(size) + |app| <= pool.maxBlocks * pool.blockSize ==>
                && |pool.steps| == |old(pool.steps)| + 1
                && var s := pool.steps[|old(pool.steps)|];
                && s.b == name && (if ok then s.Grow? && block == s.n else s.Refuse?)
                && (s.n - 1) * pool.blockSize < old(size) + |app| <= s.n * pool.blockSize
      ensures |app| > 0 && old(size) + |app| > old(block) * pool.blockSize &&
              old(size) + |app| > pool.maxBlocks * pool.blockSize ==>
                !ok && pool.steps == old(pool.steps)
      ensures |app| == 0 ==> ok && block == old(block) && pool.steps == old(pool.steps)
    {
      hide Run, Legal, NamesBelow, Bytes, BlocksFor, Apply, Enabled, Issued;
      if |app| > 0 {
        InProducts(size + |app|, block, pool.maxBlocks, pool.blockSize);
      }
      ok := AppendBytes(app);
      KeepOthers();
    }

    method AppendBytes(app: seq<Byte>) returns (ok: bool)
      requires Live() && size + |app| <= SIZE_MAX
      modifies this, pool, Storage()
      ensures Live() && pool.roster == old(pool.roster) && Stepped()
      ensures data == old(data) || fresh(data)
      ensures Contents() == if ok then old(Contents()) + app else old(Contents())
      ensures |app| > 0 ==> Granted(old(size) + |app|, ok)
      ensures |app| == 0 ==> ok && block == old(block) && pool.steps == old(pool.steps)
    {
      hide Run, Legal, NamesBelow, Bytes, BlocksFor, Apply, Enabled, Issued;
      ok := true;
      if |app| > 0 {
        ok := IncreaseCapacity(|app|);
        if ok {
          Write(size, app);
          size := size + |app|;
        }
      }
    }

    /** `memmove` of `src` to position `pos`. */
    method Write(pos: SizeT, src: seq<Byte>)
      requires data != null && pos + |src| <= data.Length
      modifies data
      ensures data[..] == old(data[..pos]) + src + old(data[pos + |src|..])
    {
      forall i | 0 <= i < |src| { data[pos + i] := src[i]; }
    }

    method Reserve(n: SizeT) returns (ok: bool)
      requires Live()
      modifies this`data, this`block, pool
      ensures Live() && pool.roster == old(pool.roster) && Stepped() && OthersKept()
      ensures data == old(data) || fresh(data)
      ensures Contents() == old(Contents())
      ensures n <= old(Capacity()) ==> ok && block == old(block) && pool.steps == old(pool.steps)
      ensures n > old(Capacity()) ==> Granted(size + n - old(Capacity()), ok)
      ensures ok && n > old(Capacity()) ==> (n <= Capacity() <==> old(Capacity() - size) <= (n - 1) % pool.blockSize)
    {
      hide Run, Legal, NamesBelow, Bytes, BlocksFor, Apply, Enabled, Issued;
      var free := FreeSpace();
      ok := true;
      if n > size + free {
        ReserveReaches(block, free, n, pool.blockSize);
        ok := IncreaseCapacity(n - (size + free));
      }
      KeepOthers();
    }

    method Resize(n: SizeT, c: Byte := 0) returns (ok: bool)
      requires Live()
      modifies this, pool, Storage()
      ensures Live() && pool.roster == old(pool.roster) && Stepped() && OthersKept()
      ensures data == old(data) || fresh(data)
      ensures Contents() == if ok then Padded(old(Contents()), n, c) else old(Contents())
      ensures ok ==> size == n
      ensures ok ==> forall i :: 0 <= i < n ==> Contents()[i] == if i < old(size) then old(Contents())[i] else c
      ensures n > old(size) ==> Granted(n, ok)
      ensures n <= old(size) ==> ok && block == old(block) && pool.steps == old(pool.steps)
    {
      hide Run, Legal, NamesBelow, Bytes, BlocksFor, Apply, Enabled, Issued;
      ok := true;
      if n > size {
        var len: SizeT := n - size;
        ok := IncreaseCapacity(len);
        if ok {
          Write(size, seq(len, _ => c));
        }
      }
      if ok {
        size := n;
      }
      KeepOthers();
    }

    method Patch(pos: SizeT, rep: seq<Byte>)
      requires Shaped() && pos + |rep| < size
      modifies Storage()
      ensures Contents() == Overwritten(old(Contents()), pos, rep)
    {
      Write(pos, rep);
    }

    /** Everything from `pos` on is replaced; a failure leaves what was before `pos`. */
    method ReplaceTail(pos: SizeT, rep: seq<Byte>) returns (ok: bool)
      requires Live() && pos < size <= pos + |rep| <= SIZE_MAX
      modifies this, pool, Storage()
      ensures Live() && pool.roster == old(pool.roster) && Stepped()
      ensures data == old(data) || fresh(data)
      ensures Contents() == old(Contents())[..pos] + if ok then rep else []
      ensures Granted(pos + |rep|, ok)
    {
      hide Run, Legal, NamesBelow, Bytes, BlocksFor, Apply, Enabled, Issued;
      size := pos;
      ok := AppendBytes(rep);
    }

    method Replace(pos: SizeT, rep: seq<Byte>) returns (ok: bool)
      requires Live() && size + |rep| <= SIZE_MAX
      modifies this, pool, Storage()
      ensures Live() && pool.roster == old(pool.roster) && Stepped() && OthersKept()
      ensures data == old(data) || fresh(data)
      ensures ok ==> Contents() == Overwritten(old(Contents()), pos, rep)
      ensures !ok ==> Contents() == if pos < old(size) then old(Contents())[..pos] else old(Contents())
      ensures pos < old(size) && pos + |rep| < old(size) ==> ok && block == old(block) && pool.steps == old(pool.steps)
      ensures pos < old(size) <= pos + |rep| ==> Granted(pos + |rep|, ok)
      ensures pos >= old(size) && |rep| > 0 ==> Granted(old(size) + |rep|, ok)
      ensures |rep| == 0 ==> ok && block == old(block) && pool.steps == old(pool.steps)
    {
      hide Run, Legal, NamesBelow, Bytes, BlocksFor, Apply, Enabled, Issued;
      if pos >= size {
        ok := AppendBytes(rep);
      } else if pos + |rep| >= size {
        ok := ReplaceTail(pos, rep);
      } else {
        if |rep| > 0 {
          Patch(pos, rep);
        }
        ok := true;
      }
      KeepOthers();
    }

    /** `memmove` of the bytes behind the `n` at `pos` down to `pos`. */
    method CloseGap(pos: SizeT, n: SizeT)
      requires data != null && pos + n < size <= data.Length
      modifies data
      ensures data[..size - n] == Erased(old(data[..size]), pos, n)
    {
      ErasedAt(data[..size], pos, n);
      hide Erased;
      forall i | pos <= i < size - n { data[i] := data[i + n]; }
    }

    /** `Erase` but for giving storage back. */
    method Cut(pos: SizeT, n: SizeT)
      requires Shaped() && pos <= size
      modifies this`size, Storage()
      ensures Shaped() && Contents() == Erased(old(Contents()), pos, n)
    {
      hide Bytes;
      var m: SizeT := size - pos;
      if n >= m {
        size := pos;
      } else {
        CloseGap(pos, n);
        hide Erased;
        size := size - n;
      }
    }

    method Erase(pos: SizeT := 0, n: SizeT := SIZE_MAX, hold: bool := false)
      requires Live() && pos <= size
      modifies this, pool, Storage()
      ensures Live() && pool.roster == old(pool.roster) && Stepped() && OthersKept()
      ensures Contents() == Erased(old(Contents()), pos, n)
      ensures size == if pos + n < old(size) then old(size) - n else pos
      ensures forall i :: 0 <= i < pos ==> Contents()[i] == old(Contents())[i]
      ensures forall i :: pos <= i < size ==> Contents()[i] == old(Contents())[i + n]
      ensures Contents() == [] && !hold ==>
                block == 0 && data == null && pool.steps == old(pool.steps) + [Release(name)]
      ensures Contents() != [] || hold ==>
                block == old(block) && data == old(data) && pool.steps == old(pool.steps)
    {
      hide Run, Legal, NamesBelow, Bytes, BlocksFor, Issued, Erased;
      ErasedAt(Contents(), pos, n);
      Cut(pos, n);
      if size == 0 && !hold {
        ReturnAll();
      }
      KeepOthers();
    }

    /** An empty buffer gives its storage back, and the books know. */
    method ReturnAll()
      requires Live() && size == 0
      modifies this`data, this`block, pool`calls, pool`current, pool`steps
      ensures Live() && Stepped() && block == 0 && data == null
      ensures pool.steps == old(pool.steps) + [Release(name)]
    {
      hide Run, Legal, NamesBelow, Bytes, BlocksFor, Issued;
      GiveBackStorage();
      pool.Record(Release(name), pool.names);
    }
  }

  /** An empty buffer of one block that is asked for one byte more than it has grants that and stays as it is. */
  method ReserveFallsShort(b: BlockBuffer) returns (ok: bool)
    requires b.Live() && b.block == 1 && b.size == 0
    modifies b`data, b`block, b.pool
    ensures b.Live() && ok && b.Capacity() == b.pool.blockSize && b.pool.steps == old(b.pool.steps)
  {
    hide Run, Legal, NamesBelow, BlocksFor, BlockBuffer.Stepped, BlockBuffer.OthersKept;
    BytesIsProduct(1, b.pool.blockSize);
    ok := b.Reserve(b.pool.blockSize + 1);
  }

  /** Storage number `a` is what the live buffer number `n` of the pool holds. */
  ghost predicate Holds(pool: Pool, n: nat, a: nat)
    reads pool, pool.roster.Values
  {
    && n in pool.roster && pool.roster[n].data != null
    && pool.roster[n].data in pool.nameOf && pool.nameOf[pool.roster[n].data] == a
  }

  /**
   What the books say of the objects themselves: the counter is the sum of the block
   counts of the live buffers, the peak is the largest value it ever had, outstanding
   storage is exactly what the live buffers hold, and no two hold the same.
   */
  lemma CountersMatchBuffers(pool: Pool)
    requires pool.Valid()
    requires forall n :: n in pool.roster ==>
               pool.roster[n].Live() && pool.roster[n].name == n && pool.roster[n].pool == pool
    ensures pool.current == Sum(pool.Population())
    ensures IsMax(pool.peak, Run(pool.steps).seen)
    ensures forall n, a :: Holds(pool, n, a) ==>
              a in Outstanding(pool.calls) && Outstanding(pool.calls)[a] == pool.roster[n].block
    ensures forall a :: a in Outstanding(pool.calls) ==> exists n :: Holds(pool, n, a)
    ensures forall m, n, a :: Holds(pool, m, a) && Holds(pool, n, a) ==> m == n
  {
    var l := Run(pool.steps);
    RunIsSound(pool.steps);
    assert l.blocks == pool.Population();
    forall a | a in Outstanding(pool.calls) ensures exists n :: Holds(pool, n, a) {
      var n :| n in l.data && l.data[n] == a;
      assert pool.roster[n].Live();
      assert Holds(pool, n, a);
    }
  }
}
