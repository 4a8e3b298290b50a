/**
 A set of strings that reads itself from comma-separated text and prints itself
 back. Like `std::set`, it keeps its elements in increasing order.
 */
module MySets {
  import opened ListText

  // ----- The order of strings -----

  predicate Less(a: string, b: string) {
    if b == "" then false
    else if a == "" then true
    else a[0] < b[0] || (a[0] == b[0] && Less(a[1..], b[1..]))
  }

  lemma {:induction false} LessTransitive(a: string, b: string, c: string)
    requires Less(a, b) && Less(b, c)
    ensures Less(a, c)
  {
    if a != "" && a[0] == b[0] == c[0] {
      LessTransitive(a[1..], b[1..], c[1..]);
    }
  }

  lemma {:induction false} LessTotal(a: string, b: string)
    ensures Less(a, b) || Less(b, a) || a == b
    ensures !(Less(a, b) && Less(b, a)) && !Less(a, a)
  {
    if a != "" {
      LessTotal(a[1..], a[1..]);
    }
    if a != "" && b != "" {
      LessTotal(a[1..], b[1..]);
      if a[0] == b[0] && a[1..] == b[1..] {
        assert a == [a[0]] + a[1..] == b;
      }
    }
  }

  /** The order is that of the first difference: the smaller character, or the end of the shorter string. */
  lemma {:induction false} LessIsLexicographic(a: string, b: string)
    ensures Less(a, b) <==>
            exists k: nat :: k <= |a| && k <= |b| && a[..k] == b[..k] &&
              ((k == |a| && k < |b|) || (k < |a| && k < |b| && a[k] as int < b[k] as int))
  {
    if a == "" || b == "" || a[0] != b[0] {
      assert a[..0] == b[..0];
    } else {
      LessIsLexicographic(a[1..], b[1..]);
      if Less(a, b) {
        var k: nat :| k <= |a[1..]| && k <= |b[1..]| && a[1..][..k] == b[1..][..k] &&
          ((k == |a[1..]| && k < |b[1..]|) || (k < |a[1..]| && k < |b[1..]| && a[1..][k] as int < b[1..][k] as int));
        assert a[..k + 1] == [a[0]] + a[1..][..k] == b[..k + 1];
      }
      forall k: nat | k <= |a| && k <= |b| && a[..k] == b[..k] &&
        ((k == |a| && k < |b|) || (k < |a| && k < |b| && a[k] as int < b[k] as int))
        ensures Less(a, b)
      {
        assert k > 0;
        assert a[1..][..k - 1] == a[..k][1..] == b[..k][1..] == b[1..][..k - 1];
      }
    }
  }

  ghost predicate Sorted(items: seq<string>) {
    forall i, j :: 0 <= i < j < |items| ==> Less(items[i], items[j])
  }

  ghost function Elements(items: seq<string>): set<string> {
    set x | x in items
  }

  /** Elements determine the order they are kept in. */
  lemma {:induction false} SortedIsUnique(a: seq<string>, b: seq<string>)
    requires Sorted(a) && Sorted(b) && Elements(a) == Elements(b)
    ensures a == b
  {
    NoElements(a);
    NoElements(b);
    if a != [] {
      hide Less;
      FirstIsLeast(a, b);
      FirstIsLeast(b, a);
      LessTotal(a[0], b[0]);
      TailElements(a);
      TailElements(b);
      SortedIsUnique(a[1..], b[1..]);
      assert a == [a[0]] + a[1..] && b == [b[0]] + b[1..];
    }
  }

  lemma NoElements(a: seq<string>)
    ensures Elements(a) == {} <==> a == []
  {
    if a != [] {
      assert a[0] in Elements(a);
    }
  }

  lemma FirstIsLeast(a: seq<string>, b: seq<string>)
    requires Sorted(a) && Elements(a) == Elements(b) && a != [] && b != []
    ensures !Less(b[0], a[0])
  {
    assert b[0] in Elements(b);
    var k :| 0 <= k < |a| && a[k] == b[0];
    LessTotal(a[0], a[k]);
  }

  lemma TailElements(a: seq<string>)
    requires Sorted(a) && a != []
    ensures Elements(a[1..]) == Elements(a) - {a[0]} && Sorted(a[1..])
  {
    assert a == [a[0]] + a[1..];
    LessTotal(a[0], a[0]);
    forall k | 0 <= k < |a[1..]| ensures a[1..][k] != a[0] {
      assert Less(a[0], a[k + 1]);
    }
  }

  /** How far two strings agree. */
  ghost function Common(a: string, b: string): (k: nat)
    ensures k <= |a| && k <= |b| && a[..k] == b[..k]
    ensures k < |a| && k < |b| ==> a[k] != b[k]
  {
    if a == "" || b == "" || a[0] != b[0] then 0
    else
      var k := Common(a[1..], b[1..]);
      assert a[..k + 1] == [a[0]] + a[1..][..k] && b[..k + 1] == [b[0]] + b[1..][..k];
      k + 1
  }

  /** In a set any two elements are so ordered. */
  lemma AllInOrder(items: seq<string>, i: nat, j: nat)
    requires Sorted(items) && i < j < |items|
    ensures var k := Common(items[i], items[j]);
            && items[i][..k] == items[j][..k] && k < |items[j]|
            && (k == |items[i]| || items[i][k] as int < items[j][k] as int)
  {
    var a, b, k := items[i], items[j], Common(items[i], items[j]);
    LessIsLexicographic(a, b);
    var m: nat :| m <= |a| && m <= |b| && a[..m] == b[..m] &&
      ((m == |a| && m < |b|) || (m < |a| && m < |b| && a[m] as int < b[m] as int));
    if m < k {
      assert a[..k][m] == b[..k][m];
    }
  }

  // ----- Insertion -----

  function Inserted(items: seq<string>, x: string): seq<string> {
    if items == [] then [x]
    else if x == items[0] then items
    else if Less(x, items[0]) then [x] + items
    else [items[0]] + Inserted(items[1..], x)
  }

  ghost function InsertedAll(items: seq<string>, xs: seq<string>): seq<string> {
    if xs == [] then items else Inserted(InsertedAll(items, xs[..|xs| - 1]), xs[|xs| - 1])
  }

  lemma InsertedSnoc(items: seq<string>, xs: seq<string>, k: nat)
    requires k < |xs|
    ensures InsertedAll(items, xs[..k + 1]) == Inserted(InsertedAll(items, xs[..k]), xs[k])
  {
    assert xs[..k + 1][..k] == xs[..k];
  }

  lemma NoneInserted(items: seq<string>, xs: seq<string>)
    ensures InsertedAll(items, xs[..0]) == items
  {
  }

  lemma {:induction false} InsertedElements(items: seq<string>, x: string)
    ensures Elements(Inserted(items, x)) == Elements(items) + {x}
  {
    ConsElements(x, items);
    if items != [] {
      assert items == [items[0]] + items[1..];
      ConsElements(items[0], items[1..]);
      if x != items[0] && !Less(x, items[0]) {
        InsertedElements(items[1..], x);
        ConsElements(items[0], Inserted(items[1..], x));
      }
    }
  }

  lemma ConsElements(x: string, s: seq<string>)
    ensures Elements([x] + s) == {x} + Elements(s)
  {
  }

  lemma {:induction false} InsertedSorted(items: seq<string>, x: string)
    requires Sorted(items)
    ensures Sorted(Inserted(items, x))
  {
    if items == [] || x == items[0] {
    } else if Less(x, items[0]) {
      forall j | 0 < j < |items| ensures Less(x, items[j]) {
        LessTransitive(x, items[0], items[j]);
      }
    } else {
      LessTotal(x, items[0]);
      var rest := Inserted(items[1..], x);
      InsertedSorted(items[1..], x);
      InsertedElements(items[1..], x);
      forall j | 0 <= j < |rest| ensures Less(items[0], rest[j]) {
        assert rest[j] in Elements(items[1..]) + {x};
        if rest[j] != x {
          var k :| 0 <= k < |items[1..]| && items[1..][k] == rest[j];
          assert items[k + 1] == rest[j];
        }
      }
    }
  }

  lemma {:induction false} InsertedAllIsSet(items: seq<string>, xs: seq<string>)
    requires Sorted(items)
    ensures Sorted(InsertedAll(items, xs))
    ensures Elements(InsertedAll(items, xs)) == Elements(items) + Elements(xs)
  {
    if xs != [] {
      var k := |xs| - 1;
      InsertedAllIsSet(items, xs[..k]);
      InsertedSorted(InsertedAll(items, xs[..k]), xs[k]);
      InsertedElements(InsertedAll(items, xs[..k]), xs[k]);
      assert xs == xs[..k] + [xs[k]];
    }
  }

  // ----- Reading and printing -----

  ghost function FromText(str: string): seq<string> {
    InsertedAll([], Split(CText(str)))
  }

  /** `stream2string` ends the text with a NUL. */
  ghost function ToText(items: seq<string>): string {
    Join(items, ",") + [NUL]
  }

  lemma FromTextIsSet(str: string)
    ensures Sorted(FromText(str)) && FromText(str) != []
    ensures Elements(FromText(str)) == Elements(Split(CText(str)))
    ensures AllClean(FromText(str))
  {
    InsertedAllIsSet([], Split(CText(str)));
    PiecesAreClean(CText(str));
    assert Split(CText(str))[0] in Elements(FromText(str));
    forall k | 0 <= k < |FromText(str)| ensures Clean(FromText(str)[k]) {
      assert FromText(str)[k] in Elements(Split(CText(str)));
    }
  }

  /** A set read back from its own text is the same set exactly when no element has a comma or a NUL. */
  lemma PrintThenParse(items: seq<string>)
    requires Sorted(items) && items != []
    ensures FromText(ToText(items)) == items <==> AllClean(items)
  {
    FromTextIsSet(ToText(items));
    if AllClean(items) {
      SplitOfJoin(items);
      CTextOfClean(Join(items, ","), "");
      assert ToText(items) == Join(items, ",") + [NUL] + "";
      SortedIsUnique(FromText(ToText(items)), items);
    }
  }

  /** Whatever text a set was read from, printing it and reading that gives the set again. */
  lemma ParseThenPrintThenParse(str: string)
    ensures FromText(ToText(FromText(str))) == FromText(str)
  {
    FromTextIsSet(str);
    PrintThenParse(FromText(str));
  }

  class MySet {
    var items: seq<string>

    ghost predicate Valid()
      reads this
    {
      Sorted(items)
    }

    constructor FromString(str: string)
      ensures Valid() && items == FromText(str) && Elements(items) == Elements(Split(CText(str)))
    {
      items := [];
      new;
      var inserts := Set2Container(str);
      FromTextIsSet(str);
      NoneInserted([], inserts);
      assert Valid();
      hide InsertedAll, Inserted, Split, CText, Sorted, Elements;
      for i := 0 to |inserts|
        invariant Valid() && items == InsertedAll([], inserts[..i])
      {
        InsertedSnoc([], inserts, i);
        Insert(inserts[i]);
      }
      assert inserts[..|inserts|] == inserts;
    }

    method Insert(data: string)
      requires Valid()
      modifies this
      ensures Valid() && items == Inserted(old(items), data)
      ensures Elements(items) == Elements(old(items)) + {data}
      ensures forall i, j :: 0 <= i < j < |items| ==>
                var k := Common(items[i], items[j]);
                && items[i][..k] == items[j][..k] && k < |items[j]|
                && (k == |items[i]| || items[i][k] as int < items[j][k] as int)
    {
      InsertedSorted(items, data);
      InsertedElements(items, data);
      items := Inserted(items, data);
      forall i, j | 0 <= i < j < |items| {
        AllInOrder(items, i, j);
      }
    }

    /** Dereferences the first element, so the set must not be empty. */
    method OutStream(s: string) returns (s': string)
      requires items != []
      ensures s' == s + Join(items, ",")
    {
      hide Join;
      s' := s;
      var i := 0;
      while true
        invariant 0 <= i < |items|
        invariant s' == s + if i == 0 then "" else Join(items[..i], ",") + ","
        decreases |items| - i
      {
        s' := s' + items[i];
        JoinSnoc(items, i, ",");
        i := i + 1;
        if i == |items| { break; }
        s' := s' + ",";
      }
      assert items[..i] == items;
    }

    method ToString() returns (str: string)
      requires items != []
      ensures str == ToText(items)
      ensures |str| == |Join(items, ",")| + 1 && Join(items, ",") < str && str[|str| - 1] == '\0'
    {
      str := OutStream("");
      str := str + [NUL];
    }
  }
}
