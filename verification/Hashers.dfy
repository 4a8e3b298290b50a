/**
 The three integer hashes. Each is a permutation of the 32-bit words: every kind of
 step they are made of has an inverse, whatever the width of the word.
 */
module Hashers {
  import opened WordArithmetic

  // ----- The kinds of steps -----

  /** `(a + c) + (a << k)` */
  function AddShifted(w: nat, a: nat, c: nat, k: nat): nat {
    Add(w, Add(w, a, c), Shl(w, a, k))
  }

  /** `a + ~(a << k)` */
  function AddNotShifted(w: nat, a: nat, k: nat): nat {
    Add(w, a, Not(w, Shl(w, a, k)))
  }

  /** `(a ^ c) ^ (a >> k)` */
  function XorShifted(a: nat, c: nat, k: nat): nat {
    Xor(Xor(a, c), Shr(a, k))
  }

  /** `(a + c) ^ (a << k)` */
  function AddThenXor(w: nat, a: nat, c: nat, k: nat): nat {
    Xor(Add(w, a, c), Shl(w, a, k))
  }

  /** `(a ^ c) + (a << k)` */
  function XorThenAdd(w: nat, a: nat, c: nat, k: nat): nat {
    Add(w, Xor(a, c), Shl(w, a, k))
  }

  // ----- Their inverses -----

  function UndoAdd(w: nat, y: nat, c: int, inv: nat): nat {
    Low((y - c) * inv, w)
  }

  lemma AddShiftedIsAffine(w: nat, a: nat, c: nat, k: nat)
    ensures AddShifted(w, a, c, k) == Low(a * (Pow2(k) + 1) + c, w)
  {
    hide Pow2;
    SumOfMods(a + c, a * Pow2(k), Pow2(w));
    assert a * (Pow2(k) + 1) + c == (a + c) + a * Pow2(k) by { Distribute(Pow2(k), 1, a); }
  }

  lemma AddShiftedIsUndone(w: nat, a: nat, c: nat, k: nat, inv: nat)
    requires a < Pow2(w) && ((Pow2(k) + 1) * inv) % Pow2(w) == 1
    ensures UndoAdd(w, AddShifted(w, a, c, k), c, inv) == a
    ensures AddShifted(w, a, c, k) < Pow2(w)
  {
    AddShiftedIsAffine(w, a, c, k);
    hide AddShifted, Pow2;
    UndoAffine(a, Pow2(k) + 1, c, inv, AddShifted(w, a, c, k), Pow2(w));
  }

  lemma OneMinus(a: int, p: int)
    ensures a * (1 - p) == a - a * p
  {
  }

  lemma AddNotShiftedIsAffine(w: nat, a: nat, k: nat)
    ensures AddNotShifted(w, a, k) == Low(a * (1 - Pow2(k)) + -1, w)
  {
    hide Pow2;
    var p: int, m := Pow2(k), Pow2(w);
    OneMinus(a, p);
    ComplementOfMod(a, a * p, a * (1 - p), m);
  }

  lemma AddNotShiftedIsUndone(w: nat, a: nat, k: nat, inv: nat)
    requires a < Pow2(w) && ((1 - Pow2(k)) * inv) % Pow2(w) == 1
    ensures UndoAdd(w, AddNotShifted(w, a, k), -1, inv) == a
    ensures AddNotShifted(w, a, k) < Pow2(w)
  {
    AddNotShiftedIsAffine(w, a, k);
    hide AddNotShifted, Pow2;
    UndoAffine(a, 1 - Pow2(k), -1, inv, AddNotShifted(w, a, k), Pow2(w));
  }

  /** The high bits are as they were; they give back the ones below. */
  function UndoXorShift(y: nat, k: nat): nat
    requires k > 0
    decreases y
  {
    if y == 0 then 0 else
    ShrIsLess(y, k);
    Xor(y, UndoXorShift(Shr(y, k), k))
  }

  lemma {:induction false} XorShiftIsUndone(a: nat, k: nat)
    requires k > 0
    ensures UndoXorShift(Xor(a, Shr(a, k)), k) == a
    decreases a
  {
    var y := Xor(a, Shr(a, k));
    ShrIsLess(a, k);
    if a > 0 {
      hide Xor, Shr;
      XorShiftIsUndone(Shr(a, k), k);
      XorHigh(a, Shr(a, k), k);
      XorCancels(a, Shr(a, k));
      if y == 0 {
        XorZero(a, Shr(a, k));
      }
    }
  }

  lemma {:induction false} XorZero(a: nat, b: nat)
    requires Xor(a, b) == 0
    ensures a == b
    decreases a + b
  {
    if a != 0 || b != 0 {
      XorBit(a, b);
      XorZero(a / 2, b / 2);
    }
  }

  lemma XorShiftedIsUndone(w: nat, a: nat, c: nat, k: nat)
    requires k > 0 && a < Pow2(w) && c < Pow2(w)
    ensures UndoXorShift(Xor(XorShifted(a, c, k), c), k) == a
    ensures XorShifted(a, c, k) < Pow2(w)
  {
    hide Xor, Pow2, UndoXorShift;
    XorSwap(a, c, Shr(a, k));
    XorCancels(Xor(a, Shr(a, k)), c);
    XorShiftIsUndone(a, k);
    ShrIsLess(a, k);
    XorFits(a, c, w);
    XorFits(Xor(a, c), Shr(a, k), w);
  }

  /** The low `n` bits of the shifted word, from the `n - k` low bits of the word. */
  function Known(low: nat, k: nat, n: nat): nat {
    if n <= k then 0 else low * Pow2(k)
  }

  /** The low bits come out first; each further `k` bits need only those already known. */
  function UndoAddThenXor(y: nat, c: nat, k: nat, n: nat): nat
    requires k > 0
    decreases n
  {
    Low(Xor(Low(y, n), Known(if n <= k then 0 else UndoAddThenXor(y, c, k, n - k), k, n)) - c, n)
  }

  lemma {:induction false} AddThenXorIsUndone(w: nat, a: nat, c: nat, k: nat, n: nat)
    requires k > 0 && n <= w
    ensures UndoAddThenXor(AddThenXor(w, a, c, k), c, k, n) == Low(a, n)
    decreases n
  {
    hide Xor, Low, Pow2;
    if n > k {
      AddThenXorIsUndone(w, a, c, k, n - k);
    }
    var t := Low(a * Pow2(k), n);
    ShiftedLow(a, k, n);
    LowOfLow(a * Pow2(k), n, w);
    LowOfLow(a + c, n, w);
    XorLow(Add(w, a, c), Shl(w, a, k), n);
    XorCancels(Low(a + c, n), t);
    LowInSum(a + c, 0 - c, n);
  }

  function UndoXorThenAdd(y: nat, c: nat, k: nat, n: nat): nat
    requires k > 0
    decreases n
  {
    Xor(Low(y - Known(if n <= k then 0 else UndoXorThenAdd(y, c, k, n - k), k, n), n), Low(c, n))
  }

  lemma {:induction false} XorThenAddIsUndone(w: nat, a: nat, c: nat, k: nat, n: nat)
    requires k > 0 && n <= w
    ensures UndoXorThenAdd(XorThenAdd(w, a, c, k), c, k, n) == Low(a, n)
    decreases n
  {
    hide Xor, Low, Pow2;
    if n > k {
      XorThenAddIsUndone(w, a, c, k, n - k);
    }
    var x, s := Xor(a, c), Shl(w, a, k);
    ShiftedLow(a, k, n);
    LowOfLow(a * Pow2(k), n, w);
    LowOfLow(x + s, n, w);
    LowAfterSubtracting(x, s, XorThenAdd(w, a, c, k), n);
    XorLow(a, c, n);
    XorCancels(Low(a, n), Low(c, n));
  }

  lemma AddThenXorFits(w: nat, a: nat, c: nat, k: nat)
    ensures AddThenXor(w, a, c, k) < Pow2(w)
  {
    XorFits(Add(w, a, c), Shl(w, a, k), w);
  }

  lemma PlainAdd(w: nat, a: nat, k: nat)
    requires a < Pow2(w)
    ensures Add(w, a, Shl(w, a, k)) == AddShifted(w, a, 0, k)
  {
    LowOfSmall(a, w);
  }

  lemma PlainXorFits(w: nat, a: nat, k: nat)
    requires k > 0 && a < Pow2(w)
    ensures Xor(a, Shr(a, k)) < Pow2(w)
  {
    ShrIsLess(a, k);
    XorFits(a, Shr(a, k), w);
  }

  // ----- The hashes -----

  const WORDS: nat := 0x1_0000_0000

  function Hash1(a0: nat): nat {
    var a1 := AddShifted(32, a0, 0x7ed55d16, 12);
    var a2 := XorShifted(a1, 0xc761c23c, 19);
    var a3 := AddShifted(32, a2, 0x165667b1, 5);
    var a4 := AddThenXor(32, a3, 0xd3a2646c, 9);
    var a5 := AddShifted(32, a4, 0xfd7046c5, 3);
    XorShifted(a5, 0xb55a4f09, 16)
  }

  function Unhash1(y: nat): nat {
    var a5 := UndoXorShift(Xor(y, 0xb55a4f09), 16);
    var a4 := UndoAdd(32, a5, 0xfd7046c5, 0x38e38e39);
    var a3 := UndoAddThenXor(a4, 0xd3a2646c, 9, 32);
    var a2 := UndoAdd(32, a3, 0x165667b1, 0x3e0f83e1);
    var a1 := UndoXorShift(Xor(a2, 0xc761c23c), 19);
    UndoAdd(32, a1, 0x7ed55d16, 0x00fff001)
  }

  function Hash2(a0: nat): nat {
    var a1 := Xor(a0, Shr(a0, 4));
    var a2 := XorThenAdd(32, a1, 0xdeadbeef, 5);
    Xor(a2, Shr(a2, 11))
  }

  function Unhash2(y: nat): nat {
    var a2 := UndoXorShift(y, 11);
    var a1 := UndoXorThenAdd(a2, 0xdeadbeef, 5, 32);
    UndoXorShift(a1, 4)
  }

  function Hash3(a0: nat): nat {
    var a1 := AddNotShifted(32, a0, 15);
    var a2 := Xor(a1, Shr(a1, 10));
    var a3 := Add(32, a2, Shl(32, a2, 3));
    var a4 := Xor(a3, Shr(a3, 6));
    var a5 := AddNotShifted(32, a4, 11);
    Xor(a5, Shr(a5, 16))
  }

  function Unhash3(y: nat): nat {
    var a5 := UndoXorShift(y, 16);
    var a4 := UndoAdd(32, a5, -1, 0x00400801);
    var a3 := UndoXorShift(a4, 6);
    var a2 := UndoAdd(32, a3, 0, 0x38e38e39);
    var a1 := UndoXorShift(a2, 10);
    UndoAdd(32, a1, -1, 0x40008001)
  }

  lemma WordSize()
    ensures Pow2(32) == WORDS
    ensures Pow2(3) == 8 && Pow2(5) == 32 && Pow2(11) == 0x800 && Pow2(12) == 0x1000 && Pow2(15) == 0x8000
  {
    assert Pow2(8) == 0x100;
    Pow2Sum(8, 8);
    Pow2Sum(16, 16);
  }

  lemma Unhash1Undoes(a0: nat)
    requires a0 < WORDS
    ensures Hash1(a0) < WORDS && Unhash1(Hash1(a0)) == a0
  {
    WordSize();
    hide Pow2, AddShifted, XorShifted, AddThenXor, UndoAdd, UndoXorShift, UndoAddThenXor, Xor, Low;
    var a1 := AddShifted(32, a0, 0x7ed55d16, 12);
    AddShiftedIsUndone(32, a0, 0x7ed55d16, 12, 0x00fff001);
    var a2 := XorShifted(a1, 0xc761c23c, 19);
    XorShiftedIsUndone(32, a1, 0xc761c23c, 19);
    var a3 := AddShifted(32, a2, 0x165667b1, 5);
    AddShiftedIsUndone(32, a2, 0x165667b1, 5, 0x3e0f83e1);
    var a4 := AddThenXor(32, a3, 0xd3a2646c, 9);
    AddThenXorFits(32, a3, 0xd3a2646c, 9);
    AddThenXorIsUndone(32, a3, 0xd3a2646c, 9, 32);
    LowOfSmall(a3, 32);
    var a5 := AddShifted(32, a4, 0xfd7046c5, 3);
    AddShiftedIsUndone(32, a4, 0xfd7046c5, 3, 0x38e38e39);
    XorShiftedIsUndone(32, a5, 0xb55a4f09, 16);
  }

  lemma Unhash2Undoes(a0: nat)
    requires a0 < WORDS
    ensures Hash2(a0) < WORDS && Unhash2(Hash2(a0)) == a0
  {
    WordSize();
    hide Pow2, Shr, XorThenAdd, UndoXorShift, UndoXorThenAdd, Xor, Low;
    var a1 := Xor(a0, Shr(a0, 4));
    PlainXorFits(32, a0, 4);
    XorShiftIsUndone(a0, 4);
    var a2 := XorThenAdd(32, a1, 0xdeadbeef, 5);
    assert a2 < WORDS by { XorThenAddFits(32, a1, 0xdeadbeef, 5); }
    XorThenAddIsUndone(32, a1, 0xdeadbeef, 5, 32);
    LowOfSmall(a1, 32);
    PlainXorFits(32, a2, 11);
    XorShiftIsUndone(a2, 11);
  }

  lemma XorThenAddFits(w: nat, a: nat, c: nat, k: nat)
    ensures XorThenAdd(w, a, c, k) < Pow2(w)
  {
  }

  lemma Unhash3Undoes(a0: nat)
    requires a0 < WORDS
    ensures Hash3(a0) < WORDS && Unhash3(Hash3(a0)) == a0
  {
    WordSize();
    hide Pow2, Shr, Shl, Add, AddNotShifted, AddShifted, UndoAdd, UndoXorShift, Xor, Low;
    var a1 := AddNotShifted(32, a0, 15);
    AddNotShiftedIsUndone(32, a0, 15, 0x40008001);
    var a2 := Xor(a1, Shr(a1, 10));
    PlainXorFits(32, a1, 10);
    XorShiftIsUndone(a1, 10);
    var a3 := Add(32, a2, Shl(32, a2, 3));
    PlainAdd(32, a2, 3);
    AddShiftedIsUndone(32, a2, 0, 3, 0x38e38e39);
    var a4 := Xor(a3, Shr(a3, 6));
    PlainXorFits(32, a3, 6);
    XorShiftIsUndone(a3, 6);
    var a5 := AddNotShifted(32, a4, 11);
    AddNotShiftedIsUndone(32, a4, 11, 0x00400801);
    PlainXorFits(32, a5, 16);
    XorShiftIsUndone(a5, 16);
  }

  // ----- The hashes in plain arithmetic -----

  lemma MoreSizes()
    ensures Pow2(32) == 0x1_0000_0000 && Pow2(3) == 8 && Pow2(4) == 16 && Pow2(5) == 32 && Pow2(6) == 64
    ensures Pow2(9) == 512 && Pow2(10) == 1024 && Pow2(11) == 2048 && Pow2(12) == 4096
    ensures Pow2(15) == 32768 && Pow2(16) == 65536 && Pow2(19) == 524288
  {
    WordSize();
    Pow2Sum(15, 1);
    Pow2Sum(16, 3);
  }

  /** Every kind of step, where a shift by `k` is a product or a quotient with `p`. */
  lemma StepsInFigures(a: nat, c: nat, k: nat, p: nat)
    requires p == Pow2(k) && p > 0
    ensures AddShifted(32, a, c, k) == (a * (p + 1) + c) % 0x1_0000_0000
    ensures AddNotShifted(32, a, k) == (a - a * p - 1) % 0x1_0000_0000
    ensures Shr(a, k) == a / p
    ensures AddThenXor(32, a, c, k) == Xor((a + c) % 0x1_0000_0000, (a * p) % 0x1_0000_0000)
    ensures XorThenAdd(32, a, c, k) == (Xor(a, c) + a * p) % 0x1_0000_0000
  {
    MoreSizes();
    AffineInFigures(a, c, k, p);
    MixedInFigures(a, c, k, p);
    hide Pow2, Xor, Shr, AddShifted, AddNotShifted, AddThenXor, XorThenAdd;
    ShrIsQuotient(a, k);
  }

  lemma AffineInFigures(a: nat, c: nat, k: nat, p: nat)
    requires p == Pow2(k) && Pow2(32) == 0x1_0000_0000
    ensures AddShifted(32, a, c, k) == (a * (p + 1) + c) % 0x1_0000_0000
    ensures AddNotShifted(32, a, k) == (a - a * p - 1) % 0x1_0000_0000
  {
    hide Pow2, AddShifted, AddNotShifted;
    AddShiftedIsAffine(32, a, c, k);
    AddNotShiftedIsAffine(32, a, k);
    OneMinus(a, p);
  }

  lemma MixedInFigures(a: nat, c: nat, k: nat, p: nat)
    requires p == Pow2(k) && Pow2(32) == 0x1_0000_0000
    ensures AddThenXor(32, a, c, k) == Xor((a + c) % 0x1_0000_0000, (a * p) % 0x1_0000_0000)
    ensures XorThenAdd(32, a, c, k) == (Xor(a, c) + a * p) % 0x1_0000_0000
  {
    hide Pow2, Xor;
    ModInSum(a * p, Xor(a, c), 0x1_0000_0000);
  }

  /** The first hash with products, quotients and remainders for shifts and wrap-around. */
  lemma Hash1InFigures(a: nat)
    ensures var b1 := (a * 4097 + 0x7ed55d16) % 0x1_0000_0000;
            var b2 := Xor(Xor(b1, 0xc761c23c), b1 / 524288);
            var b3 := (b2 * 33 + 0x165667b1) % 0x1_0000_0000;
            var b4 := Xor((b3 + 0xd3a2646c) % 0x1_0000_0000, (b3 * 512) % 0x1_0000_0000);
            var b5 := (b4 * 9 + 0xfd7046c5) % 0x1_0000_0000;
            Hash1(a) == Xor(Xor(b5, 0xb55a4f09), b5 / 65536)
  {
    MoreSizes();
    hide Pow2, Xor, Shr, AddShifted, AddThenXor, XorThenAdd, AddNotShifted;
    StepsInFigures(a, 0x7ed55d16, 12, 4096);
    var b1 := (a * 4097 + 0x7ed55d16) % 0x1_0000_0000;
    StepsInFigures(b1, 0xc761c23c, 19, 524288);
    var b2 := XorShifted(b1, 0xc761c23c, 19);
    StepsInFigures(b2, 0x165667b1, 5, 32);
    var b3 := AddShifted(32, b2, 0x165667b1, 5);
    StepsInFigures(b3, 0xd3a2646c, 9, 512);
    var b4 := AddThenXor(32, b3, 0xd3a2646c, 9);
    StepsInFigures(b4, 0xfd7046c5, 3, 8);
    StepsInFigures(AddShifted(32, b4, 0xfd7046c5, 3), 0xb55a4f09, 16, 65536);
  }

  lemma Hash2InFigures(a: nat)
    ensures var b1 := Xor(a, a / 16);
            var b2 := (Xor(b1, 0xdeadbeef) + b1 * 32) % 0x1_0000_0000;
            Hash2(a) == Xor(b2, b2 / 2048)
  {
    MoreSizes();
    hide Pow2, Xor, Shr, AddShifted, AddThenXor, XorThenAdd, AddNotShifted;
    StepsInFigures(a, 0, 4, 16);
    var b1 := Xor(a, a / 16);
    StepsInFigures(b1, 0xdeadbeef, 5, 32);
    StepsInFigures(XorThenAdd(32, b1, 0xdeadbeef, 5), 0, 11, 2048);
  }

  lemma Hash3InFigures(a: nat)
    requires a < WORDS
    ensures var b1 := (a - a * 32768 - 1) % 0x1_0000_0000;
            var b2 := Xor(b1, b1 / 1024);
            var b3 := (b2 * 9) % 0x1_0000_0000;
            var b4 := Xor(b3, b3 / 64);
            var b5 := (b4 - b4 * 2048 - 1) % 0x1_0000_0000;
            Hash3(a) == Xor(b5, b5 / 65536)
  {
    MoreSizes();
    hide Pow2, Xor, Shr, Shl, Add, AddShifted, AddThenXor, XorThenAdd, AddNotShifted;
    StepsInFigures(a, 0, 15, 32768);
    var b1 := AddNotShifted(32, a, 15);
    StepsInFigures(b1, 0, 10, 1024);
    var b2 := Xor(b1, b1 / 1024);
    PlainXorFits(32, b1, 10);
    PlainAdd(32, b2, 3);
    StepsInFigures(b2, 0, 3, 8);
    var b3 := AddShifted(32, b2, 0, 3);
    StepsInFigures(b3, 0, 6, 64);
    var b4 := Xor(b3, b3 / 64);
    StepsInFigures(b4, 0, 11, 2048);
    StepsInFigures(AddNotShifted(32, b4, 11), 0, 16, 65536);
  }

  // ----- A map with a left inverse permutes a finite range -----

  ghost predicate Undoes(g: nat -> nat, f: nat -> nat, n: nat) {
    forall a: nat :: a < n ==> f(a) < n && g(f(a)) == a
  }

  ghost function Range(n: nat): (s: set<nat>)
    ensures forall y: nat :: y in s <==> y < n
    ensures |s| == n
  {
    if n == 0 then {} else Range(n - 1) + {n - 1}
  }

  ghost function Image(f: nat -> nat, k: nat): set<nat> {
    set a: nat | a < k :: f(a)
  }

  lemma ImageGrows(f: nat -> nat, k: nat)
    requires k > 0
    ensures Image(f, k) == Image(f, k - 1) + {f(k - 1)}
  {
  }

  lemma {:induction false} ImageSize(f: nat -> nat, g: nat -> nat, n: nat, k: nat)
    requires Undoes(g, f, n) && k <= n
    ensures |Image(f, k)| == k && Image(f, k) <= Range(n)
    decreases k
  {
    if k > 0 {
      ImageSize(f, g, n, k - 1);
      ImageGrows(f, k);
      assert g(f(k - 1)) == k - 1;
    }
  }

  lemma FullSubset(s: set<nat>, t: set<nat>)
    requires s <= t && |s| == |t|
    ensures s == t
  {
    assert |t - s| == |t| - |s|;
    assert t == s + (t - s);
  }

  lemma LeftInverseIsInverse(f: nat -> nat, g: nat -> nat, n: nat, y: nat)
    requires Undoes(g, f, n) && y < n
    ensures g(y) < n && f(g(y)) == y
  {
    ImageSize(f, g, n, n);
    FullSubset(Image(f, n), Range(n));
    assert y in Image(f, n);
  }

  /** Each hash is a permutation of the 32-bit words, and its inverse is at hand. */
  lemma HashesArePermutations(y: nat)
    requires y < WORDS
    ensures Hash1(y) < WORDS && Unhash1(y) < WORDS && Unhash1(Hash1(y)) == y == Hash1(Unhash1(y))
    ensures Hash2(y) < WORDS && Unhash2(y) < WORDS && Unhash2(Hash2(y)) == y == Hash2(Unhash2(y))
    ensures Hash3(y) < WORDS && Unhash3(y) < WORDS && Unhash3(Hash3(y)) == y == Hash3(Unhash3(y))
  {
    hide Hash1, Unhash1, Hash2, Unhash2, Hash3, Unhash3;
    forall a: nat | a < WORDS ensures Hash1(a) < WORDS && Unhash1(Hash1(a)) == a { Unhash1Undoes(a); }
    LeftInverseIsInverse(Hash1, Unhash1, WORDS, y);
    forall a: nat | a < WORDS ensures Hash2(a) < WORDS && Unhash2(Hash2(a)) == a { Unhash2Undoes(a); }
    LeftInverseIsInverse(Hash2, Unhash2, WORDS, y);
    forall a: nat | a < WORDS ensures Hash3(a) < WORDS && Unhash3(Hash3(a)) == a { Unhash3Undoes(a); }
    LeftInverseIsInverse(Hash3, Unhash3, WORDS, y);
  }
}
