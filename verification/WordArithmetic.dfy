/** Words of any width as natural numbers: addition, shifts, complement and exclusive or, modulo a power of two. */
module WordArithmetic {

  function Pow2(n: nat): (p: nat)
    ensures p > 0
  {
    if n == 0 then 1 else 2 * Pow2(n - 1)
  }

  function Xor(a: nat, b: nat): nat {
    if a == 0 && b == 0 then 0 else 2 * Xor(a / 2, b / 2) + (a + b) % 2
  }

  function Add(w: nat, a: nat, b: nat): nat {
    Low(a + b, w)
  }

  function Shl(w: nat, a: nat, k: nat): nat {
    Low(a * Pow2(k), w)
  }

  /** `k` times the lowest bit is dropped. */
  function Shr(a: nat, k: nat): nat
    decreases k
  {
    if k == 0 then a else Shr(a / 2, k - 1)
  }

  /** The low `n` bits. */
  function Low(a: int, n: nat): (r: nat)
    ensures r < Pow2(n)
  {
    a % Pow2(n)
  }

  function Not(w: nat, a: nat): nat
    requires a < Pow2(w)
  {
    Pow2(w) - 1 - a
  }

  // ----- Modular arithmetic -----

  lemma ModIs(x: int, q: int, r: int, m: nat)
    requires 0 <= r < m && x == q * m + r
    ensures x % m == r && x / m == q
  {
    var d := x / m - q;
    assert d * m == (x / m) * m - q * m;
    AwayFromZero(d, m);
  }

  lemma AwayFromZero(d: int, m: nat)
    ensures d >= 1 ==> d * m >= m
    ensures d <= -1 ==> d * m + m <= 0
  {
  }

  lemma Shifted(x: int, q: int, m: nat)
    requires m > 0
    ensures (x + q * m) % m == x % m
  {
    assert x == (x / m) * m + x % m;
    assert x + q * m == (x / m + q) * m + x % m by { assert (x / m + q) * m == (x / m) * m + q * m; }
    ModIs(x + q * m, x / m + q, x % m, m);
  }

  lemma ModInSum(x: int, y: int, m: nat)
    requires m > 0
    ensures (x % m + y) % m == (x + y) % m
  {
    assert x + y == (x % m + y) + (x / m) * m;
    Shifted(x % m + y, x / m, m);
  }

  lemma SubtractKnown(x: int, s: int, y: int, t: int, m: nat)
    requires m > 0 && y % m == (x + s) % m && s % m == t
    ensures (y - t) % m == x % m
  {
    assert y == (y / m) * m + y % m;
    assert s == (s / m) * m + t;
    assert x + s == ((x + s) / m) * m + y % m;
    var q := y / m - (x + s) / m + s / m;
    assert q * m == (y / m) * m - ((x + s) / m) * m + (s / m) * m by {
      Distribute(y / m - (x + s) / m, s / m, m);
      Distribute(y / m, -((x + s) / m), m);
    }
    assert y - t == x + q * m;
    Shifted(x, q, m);
  }

  lemma SumOfMods(x: int, y: int, m: nat)
    requires m > 0
    ensures (x % m + y % m) % m == (x + y) % m
  {
    ModInSum(x, y % m, m);
    ModInSum(y, x, m);
  }

  lemma ComplementOfMod(a: int, s: int, u: int, m: nat)
    requires m > 0 && u == a - s
    ensures (a + (m - 1 - s % m)) % m == (u + -1) % m
  {
    assert s == (s / m) * m + s % m;
    assert (s / m + 1) * m == (s / m) * m + m;
    Shifted(u + -1, s / m + 1, m);
  }

  /** An affine step with a factor that has an inverse modulo `m` is undone by that inverse. */
  lemma UndoAffine(a: nat, f: int, c: int, inv: int, y: int, m: nat)
    requires a < m && y == (a * f + c) % m && (f * inv) % m == 1
    ensures ((y - c) * inv) % m == a
  {
    var q := -((a * f + c) / m);
    var t := (f * inv) / m;
    assert a * f + c == ((a * f + c) / m) * m + y;
    assert y - c == a * f + q * m;
    assert f * inv == t * m + 1;
    assert (y - c) * inv == (a * t + q * inv) * m + a by {
      assert (y - c) * inv == (a * f) * inv + (q * m) * inv by { Distribute(a * f, q * m, inv); }
      assert (a * f) * inv == a * (f * inv);
      assert a * (t * m + 1) == (a * t) * m + a;
      assert (q * m) * inv == (q * inv) * m;
      Distribute(a * t, q * inv, m);
    }
    ModIs((y - c) * inv, a * t + q * inv, a, m);
  }

  lemma Distribute(x: int, y: int, z: int)
    ensures (x + y) * z == x * z + y * z
  {
  }

  // ----- Powers of two -----

  lemma {:induction false} Pow2Sum(m: nat, n: nat)
    ensures Pow2(m + n) == Pow2(m) * Pow2(n)
    decreases m
  {
    if m > 0 {
      Pow2Sum(m - 1, n);
    }
  }

  lemma Associate(x: int, y: int, z: int)
    ensures x * (y * z) == (x * y) * z
  {
  }

  lemma ModOfFactor(x: int, v: nat, n: nat)
    requires v > 0 && n > 0 && v * n > 0
    ensures (x % (v * n)) % n == x % n
  {
    var m := v * n;
    var q := x / m;
    assert x == q * m + x % m;
    Associate(q, v, n);
    Shifted(x % m, q * v, n);
  }

  lemma LowOfLow(x: int, n: nat, w: nat)
    requires n <= w
    ensures Low(Low(x, w), n) == Low(x, n)
  {
    Pow2Sum(w - n, n);
    ModOfFactor(x, Pow2(w - n), Pow2(n));
  }

  lemma ModOfScaled(a: nat, h: nat, p: nat)
    requires h > 0 && p > 0 && h * p > 0
    ensures (a * p) % (h * p) == (a % h) * p
  {
    var q, r := a / h, a % h;
    assert a == q * h + r;
    Distribute(q * h, r, p);
    Associate(q, h, p);
    assert (h - r) * p == h * p - r * p;
    AwayFromZero(h - r, p);
    ModIs(a * p, q, r * p, h * p);
  }

  /** A left shift sees only the low bits that stay in the word. */
  lemma ShiftedLow(a: nat, k: nat, n: nat)
    ensures Low(a * Pow2(k), n) == if n <= k then 0 else Low(a, n - k) * Pow2(k)
  {
    if n <= k {
      Pow2Sum(k - n, n);
      Associate(a, Pow2(k - n), Pow2(n));
      ModIs(a * Pow2(k), a * Pow2(k - n), 0, Pow2(n));
    } else {
      Pow2Sum(n - k, k);
      ModOfScaled(a, Pow2(n - k), Pow2(k));
    }
  }

  lemma LowOfSmall(a: nat, n: nat)
    requires a < Pow2(n)
    ensures Low(a, n) == a
  {
    ModIs(a, 0, a, Pow2(n));
  }

  lemma LowInSum(x: int, y: int, n: nat)
    ensures Low(Low(x, n) + y, n) == Low(x + y, n)
  {
    ModInSum(x, y, Pow2(n));
  }

  lemma LowAfterSubtracting(x: int, s: int, y: int, n: nat)
    requires Low(y, n) == Low(x + s, n)
    ensures Low(y - Low(s, n), n) == Low(x, n)
  {
    SubtractKnown(x, s, y, Low(s, n), Pow2(n));
  }

  lemma Halves(a: nat, n: nat)
    requires n > 0
    ensures Low(a, n) == 2 * Low(a / 2, n - 1) + a % 2
  {
    var h, p := a / 2, Pow2(n - 1);
    assert h == (h / p) * p + h % p;
    assert a == (h / p) * (2 * p) + (2 * (h % p) + a % 2) by {
      assert (h / p) * (2 * p) == 2 * ((h / p) * p);
    }
    ModIs(a, h / p, 2 * (h % p) + a % 2, 2 * p);
  }

  // ----- Exclusive or -----

  lemma XorBit(a: nat, b: nat)
    ensures Xor(a, b) / 2 == Xor(a / 2, b / 2)
    ensures Xor(a, b) % 2 == (a + b) % 2
  {
  }

  lemma {:induction false} XorCancels(a: nat, b: nat)
    ensures Xor(Xor(a, b), b) == a
    decreases a + b
  {
    if a == 0 && b == 0 {
    } else {
      hide Xor;
      var x := Xor(a, b);
      XorBit(a, b);
      XorCancels(a / 2, b / 2);
      XorBit(x, b);
      XorParity(x, a, b);
      assert Xor(x, b) / 2 == a / 2 && Xor(x, b) % 2 == a % 2;
    }
  }

  lemma XorParity(x: nat, a: nat, b: nat)
    requires x % 2 == (a + b) % 2
    ensures (x + b) % 2 == a % 2
  {
  }

  lemma {:induction false} XorLow(a: nat, b: nat, n: nat)
    ensures Low(Xor(a, b), n) == Xor(Low(a, n), Low(b, n))
    decreases n
  {
    if n == 0 {
      assert Pow2(0) == 1;
    } else {
      hide Xor, Pow2, Low;
      XorLow(a / 2, b / 2, n - 1);
      var x, al, bl := Xor(a, b), Low(a / 2, n - 1), Low(b / 2, n - 1);
      Halves(a, n);
      Halves(b, n);
      Halves(x, n);
      XorBit(a, b);
      ParitySum(a, b);
      XorOfHalves(al, a % 2, bl, b % 2);
    }
  }

  lemma ParitySum(a: nat, b: nat)
    ensures (a + b) % 2 == (a % 2 + b % 2) % 2
  {
  }

  lemma XorOfHalves(high: nat, bit: nat, high': nat, bit': nat)
    requires bit < 2 && bit' < 2
    ensures Xor(2 * high + bit, 2 * high' + bit') == 2 * Xor(high, high') + (bit + bit') % 2
  {
    hide Xor;
    XorBit(2 * high + bit, 2 * high' + bit');
  }

  lemma {:induction false} XorSwap(a: nat, b: nat, c: nat)
    ensures Xor(Xor(a, b), c) == Xor(Xor(a, c), b)
    decreases a + b + c
  {
    if a != 0 || b != 0 || c != 0 {
      hide Xor;
      var x, y := Xor(a, b), Xor(a, c);
      XorBit(a, b);
      XorBit(a, c);
      XorBit(x, c);
      XorBit(y, b);
      XorSwap(a / 2, b / 2, c / 2);
      SameParity(x, y, a, b, c);
      EqualHalves(Xor(x, c), Xor(y, b));
    }
  }

  lemma SameParity(x: nat, y: nat, a: nat, b: nat, c: nat)
    requires x % 2 == (a + b) % 2 && y % 2 == (a + c) % 2
    ensures (x + c) % 2 == (y + b) % 2
  {
  }

  lemma EqualHalves(x: nat, y: nat)
    requires x / 2 == y / 2 && x % 2 == y % 2
    ensures x == y
  {
  }

  lemma XorFits(a: nat, b: nat, w: nat)
    requires a < Pow2(w) && b < Pow2(w)
    ensures Xor(a, b) < Pow2(w)
  {
    XorLow(a, b, w);
    LowOfSmall(a, w);
    LowOfSmall(b, w);
  }

  lemma HalfQuotient(a: nat, p: nat)
    requires p > 0
    ensures a / 2 / p == a / (2 * p)
  {
    var h := a / 2;
    var q, r := h / p, h % p;
    assert h == q * p + r;
    assert a == q * (2 * p) + (2 * r + a % 2) by {
      assert q * (2 * p) == 2 * (q * p);
    }
    ModIs(a, q, 2 * r + a % 2, 2 * p);
  }

  lemma {:induction false} ShrIsQuotient(a: nat, k: nat)
    ensures Shr(a, k) == a / Pow2(k)
    decreases k
  {
    if k > 0 {
      ShrIsQuotient(a / 2, k - 1);
      HalfQuotient(a, Pow2(k - 1));
    }
  }

  lemma {:induction false} ShrIsLess(a: nat, k: nat)
    ensures Shr(a, k) <= a
    ensures k > 0 && a > 0 ==> Shr(a, k) < a
    decreases k
  {
    if k > 0 {
      ShrIsLess(a / 2, k - 1);
    }
  }

  lemma {:induction false} XorHigh(a: nat, b: nat, k: nat)
    ensures Shr(Xor(a, b), k) == Xor(Shr(a, k), Shr(b, k))
    decreases k
  {
    if k > 0 {
      XorBit(a, b);
      XorHigh(a / 2, b / 2, k - 1);
    }
  }

  /** `Xor` is exclusive or, bit by bit. */
  lemma XorIsBitwise(a: nat, b: nat, k: nat)
    ensures Shr(Xor(a, b), k) % 2 == 1 <==> Shr(a, k) % 2 != Shr(b, k) % 2
  {
    hide Xor, Shr;
    XorHigh(a, b, k);
    XorBit(Shr(a, k), Shr(b, k));
  }
}
