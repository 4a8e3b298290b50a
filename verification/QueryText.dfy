/** The text of INSERT statements for one record and for a range of them. */
module QueryText {
  import opened ListText

  /** A record as the query printers see it: the texts it prints of itself. */
  datatype Record = Record(table: string, fields: string, values: string)

  ghost function Header(v: Record): string {
    "INSERT INTO " + v.table + " (" + v.fields + ") VALUES "
  }

  ghost function Tuples(vs: seq<Record>): (r: seq<string>)
    ensures |r| == |vs|
  {
    seq(|vs|, k requires 0 <= k < |vs| => "(" + vs[k].values + ")")
  }

  /** The header of the first record, and the value lists of all of them, parenthesised and joined by commas. */
  ghost function Statement(vs: seq<Record>): string {
    if vs == [] then "" else Header(vs[0]) + Join(Tuples(vs), ",")
  }

  class Query {
    var sbuffer: string

    constructor ()
      ensures sbuffer == ""
    {
      sbuffer := "";
    }

    method Reset()
      modifies this
      ensures sbuffer == ""
    {
      sbuffer := "";
    }

    method Insert(v: Record)
      modifies this
      ensures sbuffer == Statement([v])
      ensures sbuffer == "INSERT INTO " + v.table + " (" + v.fields + ") VALUES (" + v.values + ")"
    {
      Reset();
      sbuffer := sbuffer + "INSERT INTO " + v.table + " (" + v.fields + ") VALUES (" + v.values + ")";
      OneTuple(v);
    }

    /** An empty range leaves an empty statement. */
    method InsertRange(vs: seq<Record>)
      modifies this
      ensures sbuffer == Statement(vs) && (sbuffer == "" <==> vs == [])
      ensures |vs| == 1 ==>
                sbuffer == "INSERT INTO " + vs[0].table + " (" + vs[0].fields + ") VALUES (" + vs[0].values + ")"
    {
      Reset();
      if vs == [] { return; }
      sbuffer := sbuffer + "INSERT INTO " + vs[0].table + " (" + vs[0].fields + ") VALUES (" + vs[0].values + ")";
      OneTuple(vs[0]);
      var it := 1;
      assert vs[..1] == [vs[0]];
      hide Statement;
      while it != |vs|
        invariant 1 <= it <= |vs|
        invariant sbuffer == Statement(vs[..it])
      {
        OneMore(vs[..it], vs[it]);
        assert vs[..it] + [vs[it]] == vs[..it + 1];
        sbuffer := sbuffer + ",(" + vs[it].values + ")";
        it := it + 1;
      }
      assert vs[..it] == vs;
      NotEmpty(vs);
    }
  }

  lemma NotEmpty(vs: seq<Record>)
    requires vs != []
    ensures Statement(vs) != ""
    ensures |vs| == 1 ==>
              var v := vs[0];
              Statement(vs) == "INSERT INTO " + v.table + " (" + v.fields + ") VALUES (" + v.values + ")"
  {
    assert |Header(vs[0])| > 0;
    if |vs| == 1 {
      assert vs == [vs[0]];
      OneTuple(vs[0]);
    }
  }

  lemma OneTuple(v: Record)
    ensures Statement([v]) == "INSERT INTO " + v.table + " (" + v.fields + ") VALUES (" + v.values + ")"
  {
    assert Tuples([v]) == ["(" + v.values + ")"];
    assert "VALUES " + ("(" + v.values + ")") == "VALUES (" + v.values + ")";
  }

  /** A record at the end of a range adds its value list and nothing else. */
  lemma OneMore(vs: seq<Record>, v: Record)
    requires vs != []
    ensures Statement(vs + [v]) == Statement(vs) + ",(" + v.values + ")"
  {
    var all := Tuples(vs + [v]);
    assert all == Tuples(vs) + ["(" + v.values + ")"];
    assert all[..|all| - 1] == Tuples(vs);
    var h, j, t := Header(vs[0]), Join(Tuples(vs), ","), "(" + v.values + ")";
    assert h + (j + "," + t) == (h + j) + "," + t;
    assert (h + j) + "," + t == (h + j) + ",(" + v.values + ")";
  }
}
