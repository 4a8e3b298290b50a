/** The arithmetic of whole blocks. */
module BlockArithmetic {

  const SIZE_MAX: int := 0xFFFF_FFFF_FFFF_FFFF

  /** `size_t` of a 64-bit platform. */
  type SizeT = n: int | 0 <= n <= SIZE_MAX

  /** `unsigned` of such a platform, the type of the template parameters. */
  type Unsigned = n: int | 0 <= n <= 0xFFFF_FFFF

  /** The number of blocks of `bs` bytes that just hold `bytes` bytes. */
  ghost function BlocksFor(bytes: nat, bs: nat): nat
    requires bs > 0
  {
    if bytes == 0 then 0 else 1 + BlocksFor(if bytes <= bs then 0 else bytes - bs, bs)
  }

  /** The number of bytes in `n` blocks; recursive so that proofs about buffers need not meet the product. */
  ghost function Bytes(n: nat, bs: nat): nat {
    if n == 0 then 0 else bs + Bytes(n - 1, bs)
  }

  lemma BytesIsProduct(n: nat, bs: nat)
    ensures Bytes(n, bs) == n * bs
  {
  }

  lemma BytesMonotone(m: nat, n: nat, bs: nat)
    requires m <= n
    ensures Bytes(m, bs) <= Bytes(n, bs)
  {
  }

  lemma ParametersFit(n: Unsigned, bs: Unsigned)
    ensures Bytes(n, bs) <= SIZE_MAX
  {
    BytesIsProduct(n, bs);
    ProductBound(n, bs, 0xFFFF_FFFF);
  }

  lemma ProductBound(x: nat, y: nat, m: nat)
    requires x <= m && y <= m
    ensures x * y <= m * m
  {
    assert 0 <= (m - x) * y && 0 <= m * (m - y);
    assert m * m - x * y == (m - x) * y + m * (m - y);
  }

  lemma QuotientBounds(x: nat, bs: nat)
    requires bs > 0
    ensures x == bs * (x / bs) + x % bs
    ensures 0 <= x % bs < bs
  {
  }

  /** `BlocksFor` is the least count that is large enough. */
  lemma {:induction false} LeastBlocks(bytes: nat, bs: nat, n: nat)
    requires bs > 0
    ensures bytes <= Bytes(n, bs) <==> BlocksFor(bytes, bs) <= n
    decreases bytes
  {
    if bytes == 0 {
    } else if n == 0 {
    } else {
      LeastBlocks(if bytes <= bs then 0 else bytes - bs, bs, n - 1);
    }
  }

  /** The source's growth formula, which first credits free space, arrives at the least count. */
  lemma GrowthIsLeast(block: nat, size: nat, k: nat, bs: nat)
    requires bs > 0 && size <= block * bs < size + k
    ensures var short := size + k - block * bs;
            block + short / bs + (if short % bs > 0 then 1 else 0) == BlocksFor(size + k, bs)
  {
    var short := size + k - block * bs;
    var n := block + short / bs + (if short % bs > 0 then 1 else 0);
    QuotientBounds(short, bs);
    var q, r := short / bs, short % bs;
    assert (block + q) * bs == block * bs + q * bs;
    assert size + k == (block + q) * bs + r;
    LeastBlocks(size + k, bs, n);
    LeastBlocks(size + k, bs, n - 1);
    BytesIsProduct(n, bs);
    BytesIsProduct(n - 1, bs);
    assert (block + q + 1) * bs == (block + q) * bs + bs;
    assert (block + q - 1) * bs == (block + q) * bs - bs;
  }

  lemma GrowthBounds(need: nat, block: nat, max: nat, bs: nat)
    requires bs > 0 && Bytes(block, bs) < need
    ensures block < BlocksFor(need, bs) && need <= Bytes(BlocksFor(need, bs), bs)
    ensures need <= Bytes(max, bs) <==> BlocksFor(need, bs) <= max
  {
    LeastBlocks(need, bs, block);
    LeastBlocks(need, bs, max);
    LeastBlocks(need, bs, BlocksFor(need, bs));
  }

  /** In plain products: what there is, what there may be, and the least count for what is needed. */
  lemma InProducts(need: nat, block: nat, max: nat, bs: nat)
    requires bs > 0 && need > 0
    ensures Bytes(block, bs) == block * bs && Bytes(max, bs) == max * bs
    ensures (BlocksFor(need, bs) - 1) * bs < need <= BlocksFor(need, bs) * bs
  {
    var n := BlocksFor(need, bs);
    BytesIsProduct(block, bs);
    BytesIsProduct(max, bs);
    BytesIsProduct(n, bs);
    BytesIsProduct(n - 1, bs);
    LeastBlocks(need, bs, n);
    LeastBlocks(need, bs, n - 1);
  }

  lemma BlocksForAtMost(bytes: nat, bs: nat)
    requires bs > 0
    ensures BlocksFor(bytes, bs) <= bytes
  {
  }

  /** The block count that growth by `increase` needs, as the source computes it; `free` is the space left. */
  method BlocksNeeded(block: SizeT, ghost size: SizeT, free: SizeT, increase: SizeT, bs: SizeT) returns (n: SizeT)
    requires bs > 0 && Bytes(block, bs) == size + free
    requires free < increase && size + increase <= SIZE_MAX
    ensures n == BlocksFor(size + increase, bs)
  {
    var short: SizeT := increase - free;
    BytesIsProduct(block, bs);
    GrowthIsLeast(block, size, increase, bs);
    QuotientBounds(short, bs);
    BlocksForAtMost(size + increase, bs);
    n := block + short / bs;
    if short % bs > 0 {
      n := n + 1;
    }
  }

  /**
   What a granted `reserve(n)` with `n` beyond the capacity really reaches: the
   capacity after it is at least `n` exactly when the space that was free is less
   than the bytes `n` needs in its last block.
   */
  lemma ReserveReaches(block: nat, free: nat, n: nat, bs: nat)
    requires bs > 0 && free <= Bytes(block, bs) < n
    ensures var need := n - free;
            var after := if need <= Bytes(block, bs) then block else BlocksFor(need, bs);
            n <= Bytes(after, bs) <==> free <= (n - 1) % bs
  {
    var need := n - free;
    var after := if need <= Bytes(block, bs) then block else BlocksFor(need, bs);
    QuotientBounds(n - 1, bs);
    var q, r := (n - 1) / bs, (n - 1) % bs;
    assert q * bs + r == n - 1;
    BytesIsProduct(q, bs);
    LeastBlocks(n, bs, q + 1);
    LeastBlocks(n, bs, q);
    assert BlocksFor(n, bs) == q + 1;
    hide BlocksFor, Bytes;
    LeastBlocks(n, bs, after);
    LeastBlocks(need, bs, q);
    LeastBlocks(n, bs, block);
    BytesMonotone(block, q, bs);
  }
}
