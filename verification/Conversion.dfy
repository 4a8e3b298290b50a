/**
 Column text to signed integers: `strtol` in base 10, then an optional point with
 zeros, then the end of the text.
 */
module Conversion {
  import opened ListText

  datatype Result<T> = Ok(value: T) | BadConversion(retrieved: nat, actualSize: nat)

  // ----- Characters -----

  predicate IsSpace(c: char) {
    c == ' ' || c == '\t' || c == '\n' || c == '\U{0B}' || c == '\U{0C}' || c == '\r'
  }

  predicate IsDigit(c: char) {
    '0' <= c <= '9'
  }

  predicate IsZero(c: char) {
    c == '0'
  }

  predicate IsSign(c: char) {
    c == '+' || c == '-'
  }

  /** How many characters at the front satisfy `p`. */
  function Lead(s: string, p: char -> bool): (k: nat)
    ensures k <= |s| && (forall i :: 0 <= i < k ==> p(s[i])) && (k < |s| ==> !p(s[k]))
  {
    if s == "" || !p(s[0]) then 0 else 1 + Lead(s[1..], p)
  }

  lemma LeadIs(s: string, p: char -> bool, k: nat)
    requires k <= |s| && (forall i :: 0 <= i < k ==> p(s[i])) && (k < |s| ==> !p(s[k]))
    ensures Lead(s, p) == k
  {
    var j := Lead(s, p);
    assert j < |s| ==> !p(s[j]);
  }

  // ----- The types of the conversion -----

  datatype IntType = Char | Short | Int | Long

  const LONG_MIN: int := -0x8000_0000_0000_0000
  const LONG_MAX: int := 0x7FFF_FFFF_FFFF_FFFF

  /** One more than the largest value. */
  function Limit(t: IntType): int {
    match t
    case Char => 0x80
    case Short => 0x8000
    case Int => 0x8000_0000
    case Long => 0x8000_0000_0000_0000
  }

  predicate Fits(t: IntType, v: int) {
    -Limit(t) <= v < Limit(t)
  }

  /** `long` assigned to the narrower type. */
  function Narrow(t: IntType, v: int): int {
    (v + Limit(t)) % (2 * Limit(t)) - Limit(t)
  }

  function Clamp(v: int): int {
    if v < LONG_MIN then LONG_MIN else if v > LONG_MAX then LONG_MAX else v
  }

  function DigitValue(c: char): int {
    c as int - '0' as int
  }

  function Value(digits: string): int {
    if digits == "" then 0 else 10 * Value(digits[..|digits| - 1]) + DigitValue(digits[|digits| - 1])
  }

  /** What does not fit wraps around: the result fits, and differs by a multiple of the number of values. */
  lemma NarrowWraps(t: IntType, v: int)
    ensures Fits(t, Narrow(t, v)) && (v - Narrow(t, v)) % (2 * Limit(t)) == 0
  {
    var m := 2 * Limit(t);
    assert v - Narrow(t, v) == m * ((v + Limit(t)) / m);
  }

  /** The ranges in figures; what `strtol` cannot hold stops at the nearest end. */
  lemma RangesInFigures(t: IntType, v: int)
    ensures Fits(t, v) <==>
            match t
            case Char => -128 <= v <= 127
            case Short => -32768 <= v <= 32767
            case Int => -2147483648 <= v <= 2147483647
            case Long => -9223372036854775808 <= v <= 9223372036854775807
    ensures Fits(Long, Clamp(v)) && (Fits(Long, v) ==> Clamp(v) == v)
    ensures v > 9223372036854775807 ==> Clamp(v) == 9223372036854775807
    ensures v < -9223372036854775808 ==> Clamp(v) == -9223372036854775808
  {
  }

  // ----- The code -----

  /** `strip_all_blanks`. */
  function StripBlanks(s: string): (r: string)
    ensures ' ' !in s ==> r == s
  {
    if s == "" then "" else (if s[0] == ' ' then "" else [s[0]]) + StripBlanks(s[1..])
  }

  /** Blanks go, every other character stays, wherever it is. */
  lemma {:induction false} BlanksGo(a: string, b: string, c: char)
    ensures StripBlanks("") == "" && StripBlanks([c]) == if c == ' ' then "" else [c]
    ensures StripBlanks(a + b) == StripBlanks(a) + StripBlanks(b)
  {
    if a == "" {
      assert a + b == b;
    } else {
      assert (a + b)[1..] == a[1..] + b;
      BlanksGo(a[1..], b, c);
    }
  }

  /** `strtol(s, &end, 10)`: the value and the offset of `end`, as in section 7.20.1.4 of ISO/IEC 9899:1999. */
  function Strtol(s: string): (r: (int, nat))
    ensures r.1 <= |s|
  {
    var i := Lead(s, IsSpace);
    var j := if i < |s| && IsSign(s[i]) then i + 1 else i;
    var n := Lead(s[j..], IsDigit);
    if n == 0 then (0, 0)
    else
      var v := Value(s[j..j + n]);
      (Clamp(if s[i] == '-' then -v else v), j + n)
  }

  /** Where the scan of the point and its zeros ends. */
  ghost function AfterFraction(s: string, e: nat): (e': nat)
    requires e <= |s|
    ensures e <= e' <= |s|
  {
    if e < |s| && s[e] == '.' then e + 1 + Lead(s[e + 1..], IsZero) else e
  }

  ghost function Converted(t: IntType, text: string): Result<int> {
    var stripped := StripBlanks(text);
    var s := CText(stripped);
    var (v, e) := Strtol(s);
    var e' := AfterFraction(s, e);
    if e' == |s| then Ok(Narrow(t, v)) else BadConversion(e', |stripped|)
  }

  lemma {:induction false} UpToNul(b: string)
    ensures CText(b + [NUL]) == CText(b)
  {
    if b != "" {
      UpToNul(b[1..]);
      assert (b + [NUL])[1..] == b[1..] + [NUL];
    }
  }

  /** The scan in `Conv` of a point and the zeros after it; `str` holds `s` and then a NUL. */
  method SkipFraction(str: string, ghost s: string, start: nat) returns (end: nat)
    requires |s| < |str| && s == str[..|s|] && str[|s|] == NUL && start <= |s|
    ensures end == AfterFraction(s, start)
  {
    end := start;
    if str[end] == '.' {
      end := end + 1;
      while str[end] == '0'
        invariant start < end <= |s|
        invariant forall k :: start < k < end ==> s[k] == '0'
        decreases |s| - end
      {
        end := end + 1;
      }
      LeadIs(s[start + 1..], IsZero, end - start - 1);
    }
  }

  method Conv(t: IntType, text: string) returns (r: Result<int>)
    ensures r == Converted(t, text)
  {
    var strbuf := StripBlanks(text);
    var len := |strbuf|;
    var str := strbuf + [NUL];
    UpToNul(strbuf);
    ghost var s := CText(strbuf);
    var (num, end) := Strtol(CText(str));
    end := SkipFraction(str, s, end);
    if str[end] != NUL {
      return BadConversion(end, len);
    }
    return Ok(Narrow(t, num));
  }

  // ----- The language it accepts -----

  ghost predicate All(s: string, p: char -> bool) {
    forall k :: 0 <= k < |s| ==> p(s[k])
  }

  ghost predicate Fraction(f: string) {
    f == "" || (f[0] == '.' && All(f[1..], IsZero))
  }

  /** White space, a sign, digits, and a fraction of zeros. */
  datatype Numeral = Numeral(space: string, sign: string, digits: string, fraction: string)

  ghost predicate WellFormed(n: Numeral) {
    && All(n.space, IsSpace)
    && n.sign in ["", "+", "-"]
    && n.digits != "" && All(n.digits, IsDigit)
    && Fraction(n.fraction)
  }

  ghost function Text(n: Numeral): string {
    n.space + n.sign + n.digits + n.fraction
  }

  ghost function Number(n: Numeral): int {
    if n.sign == "-" then -Value(n.digits) else Value(n.digits)
  }

  /** In characters: white space, at most one sign, at least one digit, and a point with zeros or nothing. */
  lemma NumeralInCharacters(n: Numeral)
    ensures WellFormed(n) <==>
            && (forall k :: 0 <= k < |n.space| ==> n.space[k] as int == 32 || 9 <= n.space[k] as int <= 13)
            && (n.sign == "" || n.sign == "+" || n.sign == "-")
            && |n.digits| > 0 && (forall k :: 0 <= k < |n.digits| ==> n.digits[k] in "0123456789")
            && (n.fraction == "" ||
                (n.fraction[0] == '.' && forall k :: 1 <= k < |n.fraction| ==> n.fraction[k] == '0'))
  {
    assert forall c :: IsDigit(c) <==> c in "0123456789";
    if n.fraction != "" {
      assert forall k :: 1 <= k < |n.fraction| ==> n.fraction[k] == n.fraction[1..][k - 1];
    }
  }

  /** The text `s` denotes `v`: a numeral, or no more than a fraction of zeros. */
  ghost predicate Denotes(s: string, v: int) {
    (v == 0 && Fraction(s)) || exists n :: WellFormed(n) && s == Text(n) && v == Clamp(Number(n))
  }

  lemma FractionAtEnd(s: string, e: nat)
    requires e <= |s|
    ensures AfterFraction(s, e) == |s| <==> Fraction(s[e..])
  {
    if e < |s| && s[e] == '.' {
      var rest := s[e + 1..];
      assert s[e..][1..] == rest;
      if All(rest, IsZero) {
        LeadIs(rest, IsZero, |rest|);
      }
    }
  }

  lemma Pieces(n: Numeral)
    ensures var s, i, j, e := Text(n), |n.space|, |n.space| + |n.sign|, |n.space| + |n.sign| + |n.digits|;
            && e <= |s| && s[..i] == n.space && s[i..j] == n.sign && s[j..e] == n.digits && s[e..] == n.fraction
            && s[j..] == n.digits + n.fraction
  {
  }

  lemma LeadOfAppended(s: string, k: nat, p: char -> bool)
    requires k <= |s| && All(s[..k], p) && (k < |s| ==> !p(s[k]))
    ensures Lead(s, p) == k
  {
    assert forall i :: 0 <= i < k ==> s[i] == s[..k][i];
    LeadIs(s, p, k);
  }

  lemma LeadsOfNumeral(n: Numeral)
    requires WellFormed(n)
    ensures var s, i := Text(n), |n.space|;
            && Lead(s, IsSpace) == i && i < |s|
            && (IsSign(s[i]) <==> n.sign != "") && (s[i] == '-' <==> n.sign == "-")
    ensures Lead(n.digits + n.fraction, IsDigit) == |n.digits|
  {
    hide Text, Value, Lead, Clamp;
    var s, i, j := Text(n), |n.space|, |n.space| + |n.sign|;
    Pieces(n);
    assert s[i] == if n.sign == "" then s[j..j + |n.digits|][0] else s[i..j][0];
    LeadOfAppended(s, i, IsSpace);
    var rest := n.digits + n.fraction;
    assert rest[..|n.digits|] == n.digits;
    LeadOfAppended(rest, |n.digits|, IsDigit);
  }

  lemma StrtolOfNumeral(n: Numeral)
    requires WellFormed(n)
    ensures Strtol(Text(n)) == (Clamp(Number(n)), |n.space| + |n.sign| + |n.digits|)
    ensures Text(n)[|n.space| + |n.sign| + |n.digits|..] == n.fraction
  {
    hide Text, Value, Lead, Clamp;
    Pieces(n);
    LeadsOfNumeral(n);
  }

  lemma StrtolOfFraction(f: string)
    requires Fraction(f)
    ensures Strtol(f) == (0, 0)
  {
    LeadIs(f, IsSpace, 0);
    LeadIs(f, IsDigit, 0);
    assert f[0..] == f;
  }

  lemma FourPieces(s: string, i: nat, j: nat, e: nat, end: nat)
    requires i <= j <= e <= end <= |s|
    ensures s[..end] == s[..i] + s[i..j] + s[j..e] + s[e..end]
  {
  }

  /** What `strtol` consumed, with a fraction behind it, is a numeral. */
  lemma ConsumedNumeral(s: string, end: nat) returns (n: Numeral)
    requires 0 < Strtol(s).1 <= end <= |s| && Fraction(s[Strtol(s).1..end])
    ensures WellFormed(n) && s[..end] == Text(n) && Strtol(s).0 == Clamp(Number(n))
  {
    hide Value, Clamp, Lead, Fraction, IsSpace, IsDigit;
    var i := Lead(s, IsSpace);
    var j := if i < |s| && IsSign(s[i]) then i + 1 else i;
    var k := Lead(s[j..], IsDigit);
    n := Numeral(s[..i], s[i..j], s[j..j + k], s[j + k..end]);
    FourPieces(s, i, j, j + k, end);
    assert All(n.space, IsSpace);
    assert All(n.digits, IsDigit) by {
      assert n.digits == s[j..][..k];
    }
    assert j == i + 1 ==> s[i..j] == [s[i]];
  }

  /**
   On every text whatever: the conversion succeeds with `v` exactly when the text,
   without blanks and up to its first NUL, denotes a number that narrows to `v`.
   */
  lemma AcceptsExactly(t: IntType, text: string, v: int)
    ensures Converted(t, text) == Ok(v) <==>
            exists w :: Denotes(CText(StripBlanks(text)), w) && v == Narrow(t, w)
  {
    var s := CText(StripBlanks(text));
    var (w, e) := Strtol(s);
    FractionAtEnd(s, e);
    if AfterFraction(s, e) == |s| {
      if e > 0 {
        assert s[e..] == s[e..|s|] && s == s[..|s|];
        var n := ConsumedNumeral(s, |s|);
      }
      assert Denotes(s, w);
    }
    forall u | Denotes(s, u) ensures u == w && AfterFraction(s, e) == |s| {
      if u == 0 && Fraction(s) {
        StrtolOfFraction(s);
        assert s[0..] == s;
      } else {
        var n :| WellFormed(n) && s == Text(n) && u == Clamp(Number(n));
        StrtolOfNumeral(n);
      }
    }
  }

  // ----- Where a refusal points -----

  ghost predicate DenotesSome(s: string) {
    exists v :: Denotes(s, v)
  }

  /** Where the scan of `s` ends. */
  ghost function ScanEnd(s: string): (e: nat)
    ensures e <= |s|
  {
    AfterFraction(s, Strtol(s).1)
  }

  /** What was scanned denotes a number. */
  lemma ScannedDenotes(s: string)
    ensures DenotesSome(s[..ScanEnd(s)])
  {
    hide Strtol, Lead;
    var e := Strtol(s).1;
    var end := ScanEnd(s);
    assert Fraction(s[e..end]);
    if e > 0 {
      var n := ConsumedNumeral(s, end);
      assert Denotes(s[..end], Strtol(s).0);
    } else {
      assert s[0..end] == s[..end];
      assert Denotes(s[..end], 0);
    }
  }

  lemma FractionGrows(s: string, e: nat, k: nat)
    requires e <= k <= |s| && Fraction(s[e..k])
    ensures k <= AfterFraction(s, e)
  {
    if e < k {
      var rest := s[e + 1..];
      assert s[e..k][0] == s[e];
      assert forall i :: 0 <= i < k - e - 1 ==> rest[i] == s[e..k][1..][i];
    }
  }

  /** More text behind a numeral leaves its space and its sign. */
  lemma SpaceInFront(s: string, k: nat, n: Numeral)
    requires k <= |s| && WellFormed(n) && s[..k] == Text(n)
    ensures var i := |n.space|;
            i < |s| && Lead(s, IsSpace) == i && (IsSign(s[i]) <==> n.sign != "")
  {
    hide Value, Clamp, Fraction, Text, Lead;
    LeadsOfNumeral(n);
    LeadOfPrefix(s, k, IsSpace);
  }

  /** It only adds digits. */
  lemma DigitsInFront(s: string, k: nat, n: Numeral)
    requires k <= |s| && WellFormed(n) && s[..k] == Text(n)
    ensures var j := |n.space| + |n.sign|;
            && j + |n.digits| <= k && |n.digits| <= Lead(s[j..], IsDigit)
            && s[j + |n.digits|..k] == n.fraction
  {
    hide Value, Clamp, Fraction, Text, Lead;
    var j := |n.space| + |n.sign|;
    Pieces(n);
    assert s[j..][..|n.digits|] == s[..k][j..j + |n.digits|];
    LeadAtLeast(s[j..], |n.digits|, IsDigit);
    assert s[j + |n.digits|..k] == s[..k][j + |n.digits|..];
  }

  lemma LeadOfPrefix(s: string, k: nat, p: char -> bool)
    requires k <= |s| && Lead(s[..k], p) < k
    ensures Lead(s, p) == Lead(s[..k], p)
  {
    hide Lead;
    var u, j := s[..k], Lead(s[..k], p);
    assert s[j] == u[j] && forall i :: 0 <= i < j ==> s[i] == u[i];
    LeadIs(s, p, j);
  }

  lemma LeadAtLeast(s: string, k: nat, p: char -> bool)
    requires k <= |s| && All(s[..k], p)
    ensures k <= Lead(s, p)
  {
    assert forall i :: 0 <= i < k ==> s[i] == s[..k][i];
  }

  lemma StrtolEnd(s: string, i: nat, j: nat)
    requires Lead(s, IsSpace) == i < |s| && j == (if IsSign(s[i]) then i + 1 else i)
    ensures Lead(s[j..], IsDigit) > 0 ==> Strtol(s).1 == j + Lead(s[j..], IsDigit)
  {
  }

  lemma NumeralGrows(s: string, k: nat, n: Numeral)
    requires k <= |s| && WellFormed(n) && s[..k] == Text(n)
    ensures k <= ScanEnd(s)
  {
    hide Value, Clamp, Text, Lead, Strtol, AfterFraction;
    var i, j := |n.space|, |n.space| + |n.sign|;
    SpaceInFront(s, k, n);
    DigitsInFront(s, k, n);
    StrtolEnd(s, i, j);
    var e, d := Strtol(s).1, |n.digits|;
    if e == j + d {
      FractionGrows(s, e, k);
    }
  }

  /** No longer prefix does. */
  lemma LongerDoNot(s: string, k: nat)
    requires ScanEnd(s) < k <= |s|
    ensures !DenotesSome(s[..k])
  {
    hide Lead;
    var u := s[..k];
    forall v | Denotes(u, v) ensures false {
      if Fraction(u) {
        assert s[0..k] == u;
        FractionGrows(s, 0, k);
        StrtolBeforePoint(s);
        assert false;
      } else {
        var n :| WellFormed(n) && u == Text(n);
        NumeralGrows(s, k, n);
        assert false;
      }
    }
  }

  lemma StrtolBeforePoint(s: string)
    requires s != "" && s[0] == '.'
    ensures Strtol(s) == (0, 0)
  {
    LeadIs(s, IsSpace, 0);
    assert s[0..] == s;
    LeadIs(s, IsDigit, 0);
  }

  /** `r` is the length of the longest prefix that denotes a number. */
  ghost predicate LongestNumber(s: string, r: nat) {
    && r <= |s| && DenotesSome(s[..r])
    && forall k :: r < k <= |s| ==> !DenotesSome(s[..k])
  }

  lemma ScanIsLongest(s: string, r: nat)
    ensures LongestNumber(s, r) <==> r == ScanEnd(s)
  {
    hide ScanEnd, DenotesSome;
    ScannedDenotes(s);
    forall k | ScanEnd(s) < k <= |s| ensures !DenotesSome(s[..k]) {
      LongerDoNot(s, k);
    }
  }

  /**
   On every text whatever: it is refused exactly when some of it is left behind the longest
   prefix that denotes a number, and the exception says how long that prefix is.
   */
  lemma RefusesExactly(t: IntType, text: string, r: nat, n: nat)
    ensures var stripped := StripBlanks(text);
            Converted(t, text) == BadConversion(r, n) <==>
            LongestNumber(CText(stripped), r) && r < |CText(stripped)| && n == |stripped|
  {
    hide LongestNumber, Strtol, AfterFraction;
    ScanIsLongest(CText(StripBlanks(text)), r);
  }

  // ----- Printing and reading back -----

  function Digit(d: nat): char
    requires d < 10
  {
    ('0' as int + d) as char
  }

  function Decimal(n: nat): string {
    if n < 10 then [Digit(n)] else Decimal(n / 10) + [Digit(n % 10)]
  }

  function Printed(v: int): string {
    if v < 0 then "-" + Decimal(-v) else Decimal(v)
  }

  lemma {:induction false} DecimalValue(n: nat)
    ensures Decimal(n) != "" && All(Decimal(n), IsDigit) && Value(Decimal(n)) == n
  {
    if n < 10 {
      assert Decimal(n)[..0] == "";
    } else {
      DecimalValue(n / 10);
      assert Decimal(n)[..|Decimal(n)| - 1] == Decimal(n / 10);
    }
  }

  /** Ten digits, by their usual names, in base ten. */
  lemma DigitsByName(d: nat)
    requires d < 10
    ensures Digit(d) == "0123456789"[d] && DigitValue("0123456789"[d]) == d
    ensures Value("120") == 120 && Decimal(120) == "120"
  {
    var a, b, c := "1", "12", "120";
    assert a[..0] == "" && b[..1] == a && c[..2] == b;
    assert Value(a) == 1 && Value(b) == 12;
    assert Decimal(120) == Decimal(12) + [Digit(0)] && Decimal(12) == Decimal(1) + [Digit(2)];
  }

  lemma {:induction false} ZerosInFront(zeros: string, digits: string)
    requires All(zeros, IsZero)
    ensures Value(zeros + digits) == Value(digits)
    decreases |digits|, |zeros|
  {
    var s := zeros + digits;
    if digits != "" {
      assert s[..|s| - 1] == zeros + digits[..|digits| - 1];
      ZerosInFront(zeros, digits[..|digits| - 1]);
    } else if zeros != "" {
      assert s == zeros && zeros[..|zeros| - 1] + "" == zeros[..|zeros| - 1];
      ZerosInFront(zeros[..|zeros| - 1], "");
    }
  }

  lemma CTextWithoutNul(s: string)
    requires NUL !in s
    ensures CText(s) == s
  {
    CTextOfClean(s, "");
  }

  lemma {:induction false} NoBlanksNoNul(s: string)
    requires ' ' !in s && NUL !in s
    ensures CText(StripBlanks(s)) == s
  {
    CTextWithoutNul(s);
  }

  lemma FittingIsKept(t: IntType, v: int)
    requires Fits(t, v)
    ensures Narrow(t, Clamp(v)) == v
  {
  }

  /** A numeral without blanks that denotes a value of the type is converted to it. */
  lemma NumeralIsRead(t: IntType, n: Numeral)
    requires WellFormed(n) && Fits(t, Number(n)) && ' ' !in Text(n)
    ensures Converted(t, Text(n)) == Ok(Number(n))
  {
    hide Text, Value, Narrow, Clamp, Strtol, AfterFraction, CText, StripBlanks, Number;
    NumeralHasNoNul(n);
    NoBlanksNoNul(Text(n));
    StrtolOfNumeral(n);
    FractionAtEnd(Text(n), |n.space| + |n.sign| + |n.digits|);
    FittingIsKept(t, Number(n));
  }

  lemma NumeralHasNoNul(n: Numeral)
    requires WellFormed(n)
    ensures NUL !in Text(n)
  {
    assert n.fraction != "" ==> n.fraction == "." + n.fraction[1..];
  }

  /** Every value of the type, printed in decimal and followed by any fraction of zeros, is read back. */
  lemma PrintedIsReadBack(t: IntType, v: int, fraction: string)
    requires Fits(t, v) && Fraction(fraction)
    ensures Converted(t, Printed(v) + fraction) == Ok(v)
  {
    hide Value, Converted, Decimal;
    var digits := Decimal(if v < 0 then -v else v);
    var n := Numeral("", if v < 0 then "-" else "", digits, fraction);
    DecimalValue(if v < 0 then -v else v);
    assert Printed(v) + fraction == Text(n);
    assert fraction != "" ==> fraction == "." + fraction[1..];
    assert ' ' !in n.sign && ' ' !in digits && ' ' !in fraction;
    NumeralIsRead(t, n);
  }

  /** White space other than blanks, a sign of either kind and zeros in front make no difference but for the minus. */
  lemma DecoratedIsReadBack(t: IntType, space: string, sign: string, zeros: string, v: nat, fraction: string)
    requires All(space, IsSpace) && ' ' !in space && sign in ["", "+", "-"] && All(zeros, IsZero) && Fraction(fraction)
    requires Fits(t, if sign == "-" then 0 - v else v)
    ensures Converted(t, space + sign + (zeros + Decimal(v)) + fraction) == Ok(if sign == "-" then 0 - v else v)
  {
    hide Value, Converted, Decimal;
    var digits := zeros + Decimal(v);
    var n := Numeral(space, sign, digits, fraction);
    DecimalValue(v);
    ZerosInFront(zeros, Decimal(v));
    assert Text(n) == space + sign + digits + fraction;
    assert fraction != "" ==> fraction == "." + fraction[1..];
    assert ' ' !in n.sign && ' ' !in digits && ' ' !in fraction;
    NumeralIsRead(t, n);
  }

  /** Contrary to the class comment, a number with a fraction other than zeros is refused. */
  lemma CommentExampleIsRefused(t: IntType)
    ensures Converted(t, "12.86") == BadConversion(3, 5)
  {
    hide Lead, CText, StripBlanks, Value, Clamp, Narrow;
    var s := "12.86";
    NoBlanksNoNul(s);
    assert Strtol(s).1 == 2 by {
      LeadIs(s, IsSpace, 0);
      assert s[0..] == s;
      LeadIs(s, IsDigit, 2);
    }
    LeadIs(s[3..], IsZero, 0);
    assert AfterFraction(s, 2) == 3;
  }

  // ----- SQL null -----

  datatype Null<T> = Null | NotNull(data: T)

  /** The conversion to `Null<T, B>`: only the text NULL itself, blanks and all, is null. */
  ghost function ConvertedToNull(t: IntType, text: string): Result<Null<int>> {
    if text == "NULL" then Ok(Null)
    else match Converted(t, text)
      case Ok(v) => Ok(NotNull(v))
      case BadConversion(r, a) => BadConversion(r, a)
  }

  /** Null takes no text away from the numbers, and every number is found behind it. */
  lemma NullIsNoNumber(t: IntType, text: string, v: int)
    ensures ConvertedToNull(t, text) == Ok(NotNull(v)) <==> Converted(t, text) == Ok(v)
    ensures ConvertedToNull(t, text) == Ok(Null) <==> text == "NULL"
  {
    if text == "NULL" {
      CTextWithoutNul(text);
      LeadIs(text, IsSpace, 0);
      LeadIs(text[0..], IsDigit, 0);
    }
  }
}
