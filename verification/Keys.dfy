/** When extraction keys tell places apart, and when they do not. */
module Keys {
  import opened Text
  import opened Paths
  import opened Sources

  predicate CleanName(name: string)
  {
    name != "" && !IsDigit(name[0]) && '_' !in name && '.' !in name && '[' !in name && ']' !in name
  }

  /** A place below a field, all of whose names are clean. */
  ghost predicate Clean(p: Path)
  {
    p != [] && p[0].Key? && forall k :: 0 <= k < |p| && p[k].Key? ==> CleanName(p[k].name)
  }

  function Item(s: Step): string
  {
    match s
    case Key(name) => name
    case At(i) => Decimal(i)
  }

  function Items(p: Path): seq<string>
  {
    if p == [] then [] else [Item(p[0])] + Items(p[1..])
  }

  function Underscored(p: Path): string
  {
    if p == [] then "" else "_" + Item(p[0]) + Underscored(p[1..])
  }

  // ----- character-wise replacement

  lemma {:induction false} ReplaceCharAppend(a: string, b: string, c: char, n: string)
    ensures ReplaceAll(a + b, [c], n) == ReplaceAll(a, [c], n) + ReplaceAll(b, [c], n)
  {
    if a == "" {
      assert a + b == b;
    } else {
      assert (a + b)[0] == a[0] && (a + b)[1..] == a[1..] + b;
      assert ([c] <= a + b) == ([c] <= a) == (a[0] == c);
      ReplaceCharAppend(a[1..], b, c, n);
    }
  }

  lemma {:induction false} ReplaceCharAbsent(a: string, c: char, n: string)
    requires c !in a
    ensures ReplaceAll(a, [c], n) == a
  {
    if a != "" {
      ReplaceCharAbsent(a[1..], c, n);
      assert a == [a[0]] + a[1..];
    }
  }

  lemma {:induction false} ReplaceCharSelf(c: char, n: string)
    ensures ReplaceAll([c], [c], n) == n
  {
    assert [c][1..] == "";
  }

  lemma {:induction false} FlattenAppend(a: string, b: string)
    ensures Flatten(a + b) == Flatten(a) + Flatten(b)
  {
    ReplaceCharAppend(a, b, '[', "_");
    var a1, b1 := ReplaceAll(a, "[", "_"), ReplaceAll(b, "[", "_");
    ReplaceCharAppend(a1, b1, ']', "");
    ReplaceCharAppend(ReplaceAll(a1, "]", ""), ReplaceAll(b1, "]", ""), '.', "_");
  }

  lemma {:induction false} FlattenPlain(a: string)
    requires '.' !in a && '[' !in a && ']' !in a
    ensures Flatten(a) == a
  {
    ReplaceCharAbsent(a, '[', "_");
    ReplaceCharAbsent(a, ']', "");
    ReplaceCharAbsent(a, '.', "_");
  }

  lemma {:induction false} FlattenMarks()
    ensures Flatten(".") == "_" && Flatten("[") == "_" && Flatten("]") == ""
  {
    ReplaceCharAbsent(".", '[', "_");
    ReplaceCharAbsent(".", ']', "");
    ReplaceCharSelf('.', "_");
    ReplaceCharSelf('[', "_");
    ReplaceCharAbsent("_", ']', "");
    ReplaceCharAbsent("_", '.', "_");
    ReplaceCharAbsent("]", '[', "_");
    ReplaceCharSelf(']', "");
  }

  lemma {:induction false} FlattenStep(s: Step)
    requires s.Key? ==> CleanName(s.name)
    ensures Flatten(SpellStep(s)) == "_" + Item(s)
  {
    FlattenMarks();
    match s {
      case Key(name) =>
        FlattenPlain(name);
        FlattenAppend(".", name);
      case At(i) =>
        var d := Decimal(i);
        FlattenPlain(d);
        FlattenAppend("[" + d, "]");
        FlattenAppend("[", d);
    }
  }

  lemma {:induction false} FlattenSpell(p: Path)
    requires forall k :: 0 <= k < |p| && p[k].Key? ==> CleanName(p[k].name)
    ensures Flatten(Spell(p)) == Underscored(p)
  {
    if p == [] {
      FlattenPlain("");
    } else {
      assert forall k :: 0 <= k < |p[1..]| ==> p[1..][k] == p[k + 1];
      FlattenStep(p[0]);
      FlattenSpell(p[1..]);
      FlattenAppend(SpellStep(p[0]), Spell(p[1..]));
    }
  }

  // ----- the key of a clean place spells its items

  lemma {:induction false} ItemShape(s: Step)
    requires s.Key? ==> CleanName(s.name)
    ensures Item(s) != "" && '_' !in Item(s)
    ensures IsDigit(Item(s)[0]) <==> s.At?
  {
    var d := Item(s);
    if s.At? { assert d[0] in d; }
  }

  lemma {:induction false} UnderscoredEnds(p: Path)
    requires p != [] && forall k :: 0 <= k < |p| && p[k].Key? ==> CleanName(p[k].name)
    ensures |Underscored(p)| > 1 && Underscored(p)[1] != '_' && Underscored(p)[|Underscored(p)| - 1] != '_'
  {
    ItemShape(p[0]);
    var d := Item(p[0]);
    assert d[0] in d && d[|d| - 1] in d;
    if p[1..] != [] {
      assert forall k :: 0 <= k < |p[1..]| ==> p[1..][k] == p[k + 1];
      UnderscoredEnds(p[1..]);
    }
  }

  lemma {:induction false} NormalOfClean(p: Path)
    requires Clean(p)
    ensures Normal(PathText(p)) == Underscored(p)[1..] && Normal(PathText(p)) != ""
  {
    SpellHead(p);
    var rest := Spell(p)[1..];
    assert Spell(p) == "." + rest;
    FlattenAppend(".", rest);
    FlattenMarks();
    FlattenSpell(p);
    UnderscoredEnds(p);
    assert "$." <= PathText(p);
    assert Flatten(rest) == Underscored(p)[1..];
  }

  lemma {:induction false} SplitUnderscored(p: Path)
    requires p != [] && forall k :: 0 <= k < |p| && p[k].Key? ==> CleanName(p[k].name)
    ensures Underscored(p) != "" && Split(Underscored(p)[1..], '_') == Items(p)
  {
    hide Split, Item;
    ItemShape(p[0]);
    var d, rest := Item(p[0]), p[1..];
    assert Underscored(p)[1..] == d + Underscored(rest);
    if rest == [] {
      assert d + Underscored(rest) == d;
      SplitSingle(d, '_');
    } else {
      assert forall k :: 0 <= k < |rest| ==> rest[k] == p[k + 1];
      SplitUnderscored(rest);
      assert Underscored(rest) == ['_'] + Underscored(rest)[1..];
      assert d + Underscored(rest) == d + ['_'] + Underscored(rest)[1..];
      SplitJoin(d, Underscored(rest)[1..], '_');
    }
  }

  lemma {:induction false} ItemsInjective(p: Path, q: Path)
    requires forall k :: 0 <= k < |p| && p[k].Key? ==> CleanName(p[k].name)
    requires forall k :: 0 <= k < |q| && q[k].Key? ==> CleanName(q[k].name)
    requires Items(p) == Items(q)
    ensures p == q
  {
    if p != [] && q != [] {
      ItemShape(p[0]);
      ItemShape(q[0]);
      assert Item(p[0]) == Items(p)[0] == Items(q)[0] == Item(q[0]);
      if p[0].At? {
        ValueOfDecimal(p[0].i);
        ValueOfDecimal(q[0].i);
      }
      assert Items(p)[1..] == Items(p[1..]) && Items(q)[1..] == Items(q[1..]);
      assert forall k :: 0 <= k < |p[1..]| ==> p[1..][k] == p[k + 1];
      assert forall k :: 0 <= k < |q[1..]| ==> q[1..][k] == q[k + 1];
      ItemsInjective(p[1..], q[1..]);
    }
  }

  lemma {:induction false} UnderscoredJoins(p: Path)
    requires p != []
    ensures Underscored(p) == "_" + Joined(Items(p), '_')
  {
    hide Item;
    if |p| > 1 {
      UnderscoredJoins(p[1..]);
      assert Items(p)[1..] == Items(p[1..]);
    } else {
      assert p[1..] == [] && Items(p[1..]) == [];
      assert Items(p) == [Item(p[0])];
      assert Underscored(p[1..]) == "";
    }
  }

  /** The key of a clean place is its names and indices joined by underscores; if a sensitive word is in that, the key
      is `value_` and its length. */
  lemma {:induction false} CleanKeyExactly(p: Path)
    requires Clean(p)
    ensures
      var joined := Joined(Items(p), '_');
      ExtractionKey(PathText(p)) == if Sensitive(joined) then "value_" + Decimal(|joined|) else joined
  {
    hide Sensitive, Normal;
    NormalOfClean(p);
    UnderscoredJoins(p);
  }

  /** Clean places with different positions get different keys, unless a name in them is sensitive. */
  lemma {:induction false} KeysInjective(p: Path, q: Path)
    requires Clean(p) && Clean(q)
    requires !Sensitive(Normal(PathText(p))) && !Sensitive(Normal(PathText(q)))
    ensures ExtractionKey(PathText(p)) == ExtractionKey(PathText(q)) <==> p == q
  {
    NormalOfClean(p);
    NormalOfClean(q);
    if ExtractionKey(PathText(p)) == ExtractionKey(PathText(q)) {
      SplitUnderscored(p);
      SplitUnderscored(q);
      ItemsInjective(p, q);
    }
  }

  /** Sensitive places are keyed by the length of their flattened path alone. */
  lemma {:induction false} SensitiveKeysCollide(p: Path, q: Path)
    requires Clean(p) && Clean(q)
    requires Sensitive(Normal(PathText(p))) && Sensitive(Normal(PathText(q)))
    ensures ExtractionKey(PathText(p)) == ExtractionKey(PathText(q)) <==> |Underscored(p)| == |Underscored(q)|
  {
    hide Decimal, Value, Flatten, Spell;
    NormalOfClean(p);
    NormalOfClean(q);
    var a, b := |Underscored(p)| - 1, |Underscored(q)| - 1;
    ValueOfDecimal(a);
    ValueOfDecimal(b);
    assert ("value_" + Decimal(a))[6..] == Decimal(a) && ("value_" + Decimal(b))[6..] == Decimal(b);
  }

  /** A nested field and a field with an underscore in its name share one key. */
  lemma {:induction false} NestedAndUnderscoreCollide(a: string, b: string)
    ensures ExtractionKey("$." + (a + "." + b)) == ExtractionKey("$." + (a + "_" + b))
  {
    FlattenAppend(a + ".", b);
    FlattenAppend(a, ".");
    FlattenAppend(a + "_", b);
    FlattenAppend(a, "_");
    FlattenMarks();
    FlattenPlain("_");
    var x, y := "$." + (a + "." + b), "$." + (a + "_" + b);
    assert x[2..] == a + "." + b && y[2..] == a + "_" + b;
  }
}
