/**
 Lists as text: the loops that print a value list or a list of pairs, whole or with
 some items suppressed, and the loop that takes comma-separated text apart.
 */
module ListText {

  const NUL: char := '\0'

  // ----- What the printers print -----

  ghost function Join(items: seq<string>, d: string): string {
    if items == [] then ""
    else if |items| == 1 then items[0]
    else Join(items[..|items| - 1], d) + d + items[|items| - 1]
  }

  lemma {:induction false} JoinOfTwo(a: seq<string>, b: seq<string>, d: string)
    requires a != [] && b != []
    ensures Join(a + b, d) == Join(a, d) + d + Join(b, d)
    decreases |b|
  {
    var n := |b| - 1;
    var ab := a + b;
    assert ab[|ab| - 1] == b[n];
    if n == 0 {
      assert ab[..|ab| - 1] == a;
    } else {
      assert ab[..|ab| - 1] == a + b[..n];
      JoinOfTwo(a, b[..n], d);
      assert Join(a, d) + d + Join(b[..n], d) + d + b[n] == Join(a, d) + d + (Join(b[..n], d) + d + b[n]);
    }
  }

  /** Nothing, one text, and two lists with the delimiter between them: no other function does this. */
  lemma JoinByParts(a: seq<string>, b: seq<string>, x: string, d: string)
    ensures Join([], d) == "" && Join([x], d) == x
    ensures a != [] && b != [] ==> Join(a + b, d) == Join(a, d) + d + Join(b, d)
  {
    if a != [] && b != [] {
      JoinOfTwo(a, b, d);
    }
  }

  /** The items whose flag in `mask` is set, in order. */
  ghost function Pick(items: seq<string>, mask: seq<bool>): (r: seq<string>)
    requires |items| <= |mask|
    ensures |r| <= |items|
  {
    if items == [] then []
    else
      var k := |items| - 1;
      Pick(items[..k], mask) + if mask[k] then [items[k]] else []
  }

  /** What the sparse printers print: a delimiter in front when the first item is suppressed and a later one is not. */
  ghost function SparseText(items: seq<string>, mask: seq<bool>, d: string): string
    requires |items| <= |mask|
  {
    if items == [] then "" else WithLead(Pick(items, mask), mask[0], d)
  }

  ghost function WithLead(picked: seq<string>, first: bool, d: string): string {
    (if picked != [] && !first then d else "") + Join(picked, d)
  }

  /** The items as a manipulator such as `quote` writes them. */
  ghost function Rendered(items: seq<string>, manip: string -> string): (r: seq<string>)
    ensures |r| == |items|
  {
    seq(|items|, k requires 0 <= k < |items| => manip(items[k]))
  }

  ghost function Pairs(left: seq<string>, right: seq<string>, equl: string, manip: string -> string): (r: seq<string>)
    ensures |r| == if |left| <= |right| then |left| else |right|
  {
    seq(if |left| <= |right| then |left| else |right|,
        k requires 0 <= k < |left| && k < |right| => left[k] + equl + manip(right[k]))
  }

  /** `Rendered` is the list of what the manipulator makes of each item, and no other. */
  lemma OnlyRendered(list: seq<string>, manip: string -> string)
    ensures forall parts :: |parts| == |list| && (forall k :: 0 <= k < |list| ==> parts[k] == manip(list[k])) ==>
              parts == Rendered(list, manip)
  {
    forall parts: seq<string> | |parts| == |list| && (forall k :: 0 <= k < |list| ==> parts[k] == manip(list[k]))
      ensures parts == Rendered(list, manip)
    {
    }
  }

  /** `Pairs` is the list of left side, `equl` and manipulated right side, up to the end of the shorter list. */
  lemma OnlyPairs(list1: seq<string>, list2: seq<string>, equl: string, manip: string -> string)
    ensures forall parts ::
              |parts| == (if |list1| <= |list2| then |list1| else |list2|) &&
              (forall k :: 0 <= k < |parts| ==> parts[k] == list1[k] + equl + manip(list2[k])) ==>
              parts == Pairs(list1, list2, equl, manip)
  {
    forall parts: seq<string> |
      |parts| == (if |list1| <= |list2| then |list1| else |list2|) &&
              (forall k :: 0 <= k < |parts| ==> parts[k] == list1[k] + equl + manip(list2[k]))
      ensures parts == Pairs(list1, list2, equl, manip)
    {
    }
  }

  lemma JoinSnoc(items: seq<string>, k: nat, d: string)
    requires k < |items|
    ensures Join(items[..k + 1], d) == if k == 0 then items[0] else Join(items[..k], d) + d + items[k]
  {
    assert items[..k + 1][..k] == items[..k];
  }

  lemma PickSnoc(items: seq<string>, mask: seq<bool>, k: nat)
    requires k < |items| <= |mask|
    ensures Pick(items[..k + 1], mask) == Pick(items[..k], mask) + if mask[k] then [items[k]] else []
  {
    assert items[..k + 1][..k] == items[..k];
  }

  lemma {:induction false} NonePicked(items: seq<string>, mask: seq<bool>)
    requires |items| <= |mask|
    ensures Pick(items, mask) == [] <==> forall k :: 0 <= k < |items| ==> !mask[k]
  {
    if items != [] {
      NonePicked(items[..|items| - 1], mask);
    }
  }

  ghost function Flags(mask: seq<bool>): nat {
    if mask == [] then 0 else Flags(mask[..|mask| - 1]) + if mask[|mask| - 1] then 1 else 0
  }

  lemma {:induction false} MoreFlags(mask: seq<bool>, k: nat, n: nat)
    requires k < n <= |mask| && mask[k]
    ensures Flags(mask[..k]) < Flags(mask[..n])
    decreases n
  {
    assert mask[..n][..n - 1] == mask[..n - 1];
    if k < n - 1 {
      MoreFlags(mask, k, n - 1);
    }
  }

  /** Each selected item stands behind as many others as there are flags before its own, and nothing else is there. */
  lemma {:induction false} PickedAt(items: seq<string>, mask: seq<bool>)
    requires |items| <= |mask|
    ensures |Pick(items, mask)| == Flags(mask[..|items|])
    ensures forall k :: 0 <= k < |items| && mask[k] ==>
              Flags(mask[..k]) < |Pick(items, mask)| && Pick(items, mask)[Flags(mask[..k])] == items[k]
  {
    if items != [] {
      var n := |items| - 1;
      PickedAt(items[..n], mask);
      assert mask[..n + 1][..n] == mask[..n];
      forall k | 0 <= k < |items| && mask[k]
        ensures Flags(mask[..k]) < |Pick(items, mask)| && Pick(items, mask)[Flags(mask[..k])] == items[k]
      {
        MoreFlags(mask, k, n + 1);
        if k < n {
          assert items[..n][k] == items[k];
        }
      }
    }
  }

  lemma LeadSnoc(picked: seq<string>, x: string, first: bool, d: string)
    ensures WithLead(picked + [x], first, d) ==
            WithLead(picked, first, d) + (if picked == [] && first then "" else d) + x
  {
    JoinSnoc(picked + [x], |picked|, d);
    assert (picked + [x])[..|picked| + 1] == picked + [x] && (picked + [x])[..|picked|] == picked;
    if picked != [] {
      var lead := if !first then d else "";
      assert lead + (Join(picked, d) + d + x) == (lead + Join(picked, d)) + d + x;
    }
  }

  lemma SparseSnoc(items: seq<string>, mask: seq<bool>, d: string, k: nat)
    requires k < |items| <= |mask|
    ensures SparseText(items[..k + 1], mask, d) ==
            SparseText(items[..k], mask, d) + if !mask[k] then "" else (if k == 0 then "" else d) + items[k]
  {
    hide WithLead, Join;
    assert items[..0] == [];
    PickSnoc(items, mask, k);
    NonePicked(items[..k], mask);
    var before := Pick(items[..k], mask);
    LeadIsEmpty(mask[0], d);
    if mask[k] {
      LeadSnoc(before, items[k], mask[0], d);
      assert "" + "" + items[k] == "" + ("" + items[k]);
      assert SparseText(items[..k], mask, d) + d + items[k] == SparseText(items[..k], mask, d) + (d + items[k]);
    } else {
      assert before + [] == before;
      assert SparseText(items[..k], mask, d) + "" == SparseText(items[..k], mask, d);
    }
  }

  lemma LeadIsEmpty(first: bool, d: string)
    ensures WithLead([], first, d) == ""
  {
  }

  lemma NothingPrinted(mask: seq<bool>, d: string)
    ensures SparseText([], mask, d) == ""
  {
  }

  lemma Grouped(o: string, before: string, x: string, d: string)
    ensures o + before + x == o + (before + x) && o + (before + x) + d == o + (before + x + d)
    ensures "" + x == x
  {
  }

  // ----- The printers -----

  method PrintValues(o: string, list: seq<string>, delem: string, manip: string -> string) returns (o': string)
    requires list != []
    ensures o' == o + Join(Rendered(list, manip), delem)
  {
    hide Join;
    ghost var items := Rendered(list, manip);
    assert forall k :: 0 <= k < |list| ==> items[k] == manip(list[k]);
    hide Rendered;
    o' := o;
    var i := 0;
    while true
      invariant 0 <= i < |list|
      invariant o' == o + if i == 0 then "" else Join(items[..i], delem) + delem
      decreases |list| - i
    {
      Grouped(o, if i == 0 then "" else Join(items[..i], delem) + delem, items[i], delem);
      o' := o' + manip(list[i]);
      JoinSnoc(items, i, delem);
      i := i + 1;
      if i == |list| { break; }
      o' := o' + delem;
    }
    assert items[..i] == items;
  }

  method PrintSomeValues(o: string, list: seq<string>, fields: seq<bool>, delem: string, manip: string -> string)
    returns (o': string)
    requires list != [] && |list| <= |fields|
    ensures o' == o + SparseText(Rendered(list, manip), fields, delem)
  {
    hide SparseText, Pick, Join;
    ghost var items := Rendered(list, manip);
    assert items[..0] == [] && SparseText([], fields, delem) == "" by { NothingPrinted(fields, delem); }
    o' := o;
    var i, k := 0, 0;
    while true
      invariant 0 <= i == k < |list|
      invariant o' == o + SparseText(items[..k], fields, delem) + if k > 0 && fields[k] then delem else ""
      decreases |list| - i
    {
      SparseSnoc(items, fields, delem, k);
      if fields[k] {
        o' := o' + manip(list[i]);
      }
      k := k + 1;
      i := i + 1;
      if i == |list| { break; }
      if fields[k] {
        o' := o' + delem;
      }
    }
    assert items[..k] == items;
  }

  method PrintPairs(o: string, list1: seq<string>, list2: seq<string>, delem: string, equl: string,
                    manip: string -> string) returns (o': string)
    requires list1 != [] && list2 != []
    ensures o' == o + Join(Pairs(list1, list2, equl, manip), delem)
  {
    hide Join;
    ghost var items := Pairs(list1, list2, equl, manip);
    o' := o;
    var i, j := 0, 0;
    while true
      invariant 0 <= i == j < |list1| && j < |list2|
      invariant o' == o + if i == 0 then "" else Join(items[..i], delem) + delem
      decreases |list1| - i
    {
      Grouped(o, if i == 0 then "" else Join(items[..i], delem) + delem, items[i], delem);
      o' := o' + (list1[i] + equl + manip(list2[j]));
      JoinSnoc(items, i, delem);
      i := i + 1;
      if i == |list1| { break; }
      j := j + 1;
      if j == |list2| { break; }
      o' := o' + delem;
    }
    assert items[..i] == items;
  }

  method PrintSomePairs(o: string, list1: seq<string>, list2: seq<string>, fields: seq<bool>, delem: string,
                        equl: string, manip: string -> string) returns (o': string)
    requires list1 != [] && list2 != []
    requires |list1| <= |fields| || |list2| <= |fields|
    ensures o' == o + SparseText(Pairs(list1, list2, equl, manip), fields, delem)
  {
    hide SparseText, Pick, Join;
    ghost var items := Pairs(list1, list2, equl, manip);
    assert items[..0] == [] && SparseText([], fields, delem) == "" by { NothingPrinted(fields, delem); }
    o' := o;
    var i, j, k := 0, 0, 0;
    while true
      invariant 0 <= i == j == k < |list1| && j < |list2|
      invariant o' == o + SparseText(items[..k], fields, delem) + if k > 0 && fields[k] then delem else ""
      decreases |list1| - i
    {
      SparseSnoc(items, fields, delem, k);
      if fields[k] {
        o' := o' + (list1[i] + equl + manip(list2[j]));
      }
      k := k + 1;
      i := i + 1;
      if i == |list1| { break; }
      j := j + 1;
      if j == |list2| { break; }
      if fields[k] {
        o' := o' + delem;
      }
    }
    assert items[..k] == items;
  }

  // ----- Sparse against dense -----

  lemma {:induction false} AllPicked(items: seq<string>, mask: seq<bool>)
    requires |items| <= |mask| && forall k :: 0 <= k < |items| ==> mask[k]
    ensures Pick(items, mask) == items
  {
    if items != [] {
      AllPicked(items[..|items| - 1], mask);
    }
  }

  /** With nothing suppressed the sparse printers print what the dense ones do. */
  lemma FullMaskIsDense(items: seq<string>, mask: seq<bool>, d: string)
    requires |items| <= |mask| && forall k :: 0 <= k < |items| ==> mask[k]
    ensures SparseText(items, mask, d) == Join(items, d)
  {
    AllPicked(items, mask);
  }

  /** Printing just the selected items, as documented, is what happens exactly under these conditions. */
  lemma SparseIsSelectedWhen(items: seq<string>, mask: seq<bool>, d: string)
    requires items != [] && |items| <= |mask|
    ensures SparseText(items, mask, d) == Join(Pick(items, mask), d) <==>
            mask[0] || d == "" || forall k :: 0 <= k < |items| ==> !mask[k]
    ensures SparseText(items, mask, d) in [Join(Pick(items, mask), d), d + Join(Pick(items, mask), d)]
  {
    NonePicked(items, mask);
    var text := Join(Pick(items, mask), d);
    assert |d + text| == |d| + |text|;
  }

  lemma LeadingDelimiterExample()
    ensures SparseText(["a", "b", "c"], [false, true, true], ":") == ":b:c"
  {
    hide SparseText, Pick, Join;
    var items, mask := ["a", "b", "c"], [false, true, true];
    NothingPrinted(mask, ":");
    SparseSnoc(items, mask, ":", 0);
    SparseSnoc(items, mask, ":", 1);
    SparseSnoc(items, mask, ":", 2);
    assert items[..3] == items && items[..0] == [];
  }

  // ----- Taking text apart -----

  function CText(s: string): (r: string)
    ensures r <= s && NUL !in r
    ensures r != s ==> s[|r|] == NUL
  {
    if s == "" || s[0] == NUL then "" else [s[0]] + CText(s[1..])
  }

  /** The comma-separated pieces. */
  ghost function Split(s: string): (pieces: seq<string>)
    ensures pieces != []
  {
    if s == "" then [""]
    else
      var before, c := Split(s[..|s| - 1]), s[|s| - 1];
      if c == ',' then before + [""]
      else before[..|before| - 1] + [before[|before| - 1] + [c]]
  }

  ghost function Commas(s: string): nat {
    if s == "" then 0 else Commas(s[..|s| - 1]) + if s[|s| - 1] == ',' then 1 else 0
  }

  ghost predicate Clean(s: string) {
    ',' !in s && NUL !in s
  }

  ghost predicate AllClean(items: seq<string>) {
    forall k :: 0 <= k < |items| ==> Clean(items[k])
  }

  lemma SplitSnoc(s: string, k: nat)
    requires k < |s|
    ensures var before := Split(s[..k]);
            Split(s[..k + 1]) ==
            if s[k] == ',' then before + [""] else before[..|before| - 1] + [before[|before| - 1] + [s[k]]]
  {
    assert s[..k + 1][..k] == s[..k];
  }

  /** A piece without commas lengthens the last of the pieces. */
  lemma {:induction false} SplitOfLonger(s: string, x: string)
    requires ',' !in x
    ensures var before := Split(s);
            Split(s + x) == before[..|before| - 1] + [before[|before| - 1] + x]
  {
    var before := Split(s);
    if x == "" {
      assert s + x == s && before[|before| - 1] + x == before[|before| - 1];
    } else {
      var k := |x| - 1;
      SplitOfLonger(s, x[..k]);
      assert (s + x)[..|s + x| - 1] == s + x[..k];
      assert before[|before| - 1] + x[..k] + [x[k]] == before[|before| - 1] + x;
    }
  }

  /** The scan of one piece in `Set2Container`; `buf` holds `text` and then a NUL. */
  method NextPiece(buf: string, ghost text: string, start: nat) returns (s: string, end: nat)
    requires |text| < |buf| && text == buf[..|text|] && buf[|text|] == NUL && NUL !in text && start <= |text|
    ensures start <= end <= |text| && s == text[start..end] && ',' !in s
    ensures buf[end] == if end == |text| then NUL else ','
  {
    s, end := "", start;
    while buf[end] != ',' && buf[end] != NUL
      invariant start <= end <= |text| && s == text[start..end] && ',' !in s
      decreases |text| - end
    {
      s := s + [buf[end]];
      end := end + 1;
    }
  }

  lemma PieceRead(text: string, start: nat, end: nat, inserts: seq<string>)
    requires start <= end <= |text| && ',' !in text[start..end]
    requires Split(text[..start]) == inserts + [""]
    ensures end == |text| ==> Split(text) == inserts + [text[start..end]]
    ensures end < |text| && text[end] == ',' ==> Split(text[..end + 1]) == inserts + [text[start..end]] + [""]
  {
    SplitOfLonger(text[..start], text[start..end]);
    assert text[..start] + text[start..end] == text[..end];
    assert "" + text[start..end] == text[start..end];
    assert (inserts + [""])[..|inserts|] == inserts;
    if end < |text| {
      SplitSnoc(text, end);
    } else {
      assert text[..end] == text;
    }
  }

  /** The text handed to `insert`, one piece after the other. */
  method Set2Container(str: string) returns (inserts: seq<string>)
    ensures inserts == Split(CText(str))
  {
    var buf := str + [NUL];
    ghost var text := CText(str);
    var p := 0;
    inserts := [];
    assert Split(text[..0]) == inserts + [""];
    assert text == str[..|text|] == buf[..|text|] && buf[|text|] == NUL;
    hide Split, CText;
    while true
      invariant 0 <= p <= |text|
      invariant Split(text[..p]) == inserts + [""]
      decreases |text| - p
    {
      ghost var start := p;
      var s;
      s, p := NextPiece(buf, text, p);
      PieceRead(text, start, p, inserts);
      inserts := inserts + [s];
      if buf[p] == NUL { break; }
      p := p + 1;
    }
  }

  lemma {:induction false} OnePieceMoreThanCommas(s: string)
    ensures |Split(s)| == Commas(s) + 1
  {
    if s != "" {
      OnePieceMoreThanCommas(s[..|s| - 1]);
    }
  }

  lemma {:induction false} PiecesAreClean(s: string)
    requires NUL !in s
    ensures AllClean(Split(s))
  {
    if s != "" {
      PiecesAreClean(s[..|s| - 1]);
    }
  }

  lemma JoinLonger(before: seq<string>, last: string, x: string, d: string)
    ensures Join(before + [last + x], d) == Join(before + [last], d) + x
  {
    assert (before + [last + x])[..|before|] == before == (before + [last])[..|before|];
    if before != [] {
      Grouped(Join(before, d) + d, last, x, "");
    }
  }

  lemma JoinOneMore(items: seq<string>, d: string)
    requires items != []
    ensures Join(items + [""], d) == Join(items, d) + d
  {
    assert (items + [""])[..|items|] == items;
  }

  /** Splitting loses nothing. */
  lemma {:induction false} JoinOfSplit(s: string)
    ensures Join(Split(s), ",") == s
  {
    if s != "" {
      var t, c := s[..|s| - 1], s[|s| - 1];
      JoinOfSplit(t);
      assert s == t + [c];
      var before := Split(t);
      var k := |before| - 1;
      assert before == before[..k] + [before[k]];
      JoinOneMore(before, ",");
      JoinLonger(before[..k], before[k], [c], ",");
      hide Join;
    }
  }

  lemma {:induction false} SplitOfAppended(s: string, x: string)
    requires ',' !in x
    ensures Split(s + "," + x) == Split(s) + [x]
  {
    var whole := s + "," + x;
    if x == "" {
      assert whole[..|whole| - 1] == s;
    } else {
      var x' := x[..|x| - 1];
      SplitOfAppended(s, x');
      assert whole[..|whole| - 1] == s + "," + x' && x == x' + [x[|x| - 1]];
    }
  }

  lemma {:induction false} SplitOfOne(x: string)
    requires ',' !in x
    ensures Split(x) == [x]
  {
    if x != "" {
      SplitOfOne(x[..|x| - 1]);
      assert x == x[..|x| - 1] + [x[|x| - 1]];
    }
  }

  lemma {:induction false} SplitOfJoin(items: seq<string>)
    requires items != [] && AllClean(items)
    ensures Split(Join(items, ",")) == items
    ensures NUL !in Join(items, ",")
  {
    var k := |items| - 1;
    assert Clean(items[k]);
    if k == 0 {
      assert items == [items[0]];
      SplitOfOne(items[0]);
    } else {
      assert items == items[..k] + [items[k]];
      SplitOfJoin(items[..k]);
      hide Split;
      SplitOfAppended(Join(items[..k], ","), items[k]);
    }
  }

  lemma {:induction false} CTextOfClean(s: string, rest: string)
    requires NUL !in s
    ensures CText(s) == s
    ensures CText(s + [NUL] + rest) == s
  {
    if s == "" {
    } else {
      CTextOfClean(s[1..], rest);
      assert (s + [NUL] + rest)[1..] == s[1..] + [NUL] + rest;
    }
  }

  /** Taking a printed list apart gives the list back exactly when no item has a comma or a NUL. */
  lemma SplitInvertsJoin(items: seq<string>)
    requires items != []
    ensures Split(CText(Join(items, ","))) == items <==> AllClean(items)
  {
    if AllClean(items) {
      SplitOfJoin(items);
      CTextOfClean(Join(items, ","), "");
    }
    PiecesAreClean(CText(Join(items, ",")));
  }
}
