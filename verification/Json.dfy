/** Decoded JSON documents as Go's `any`: an object lists its members in the order one traversal visits them. */
module Json {
  import opened Options
  import opened Numbers

  datatype Json =
    | Null
    | Bool(b: bool)
    | Num(n: Number)
    | Str(s: string)
    | Arr(items: seq<Json>)
    | Obj(fields: seq<Field>)

  datatype Field = Field(name: string, value: Json)

  function BoolText(b: bool): string { if b then "true" else "false" }

  /** Byte-wise string order, as Go sorts map keys. */
  predicate Less(a: string, b: string)
  {
    b != "" && (a == "" || a[0] < b[0] || (a[0] == b[0] && Less(a[1..], b[1..])))
  }

  function Insert(f: Field, sorted: seq<Field>): (r: seq<Field>)
    ensures multiset(r) == multiset{f} + multiset(sorted)
  {
    if sorted == [] then [f]
    else if Less(sorted[0].name, f.name) then
      assert sorted == [sorted[0]] + sorted[1..];
      [sorted[0]] + Insert(f, sorted[1..])
    else [f] + sorted
  }

  /** Members in key order: what `json.Marshal` and `fmt.Sprint` make of a Go map. */
  function Sorted(fields: seq<Field>): (r: seq<Field>)
    ensures multiset(r) == multiset(fields)
    ensures forall f :: f in r <==> f in fields
  {
    if fields == [] then []
    else
      assert fields == [fields[0]] + fields[1..];
      var r := Insert(fields[0], Sorted(fields[1..]));
      assert forall f :: f in r <==> f in multiset(r);
      assert forall f :: f in fields <==> f in multiset(fields);
      r
  }

  /** `fmt.Sprint` of a decoded value. */
  function Sprint(v: Json): string
    decreases v
  {
    match v
    case Null => "<nil>"
    case Bool(b) => BoolText(b)
    case Num(n) => GoText(n)
    case Str(s) => s
    case Arr(items) => "[" + SprintItems(items) + "]"
    case Obj(fields) => "map[" + SprintFields(v, Sorted(fields)) + "]"
  }

  function SprintItems(items: seq<Json>): string
    decreases items
  {
    if items == [] then ""
    else Sprint(items[0]) + (if |items| > 1 then " " else "") + SprintItems(items[1..])
  }

  function SprintFields(owner: Json, fields: seq<Field>): string
    requires owner.Obj? && forall f :: f in fields ==> f in owner.fields
    decreases owner, 0, |fields|
  {
    if fields == [] then ""
    else
      var f := fields[0];
      assert f in owner.fields && f.value < f < owner;
      f.name + ":" + Sprint(f.value) + (if |fields| > 1 then " " else "")
      + SprintFields(owner, fields[1..])
  }

  function Find(fields: seq<Field>, name: string): Option<Json>
  {
    if fields == [] then None
    else if fields[0].name == name then Some(fields[0].value)
    else Find(fields[1..], name)
  }

  /** Go maps have one entry per key, at every level. */
  ghost predicate DistinctNames(v: Json)
    decreases v
  {
    match v
    case Arr(items) => forall i :: 0 <= i < |items| ==> DistinctNames(items[i])
    case Obj(fields) =>
      (forall i, j :: 0 <= i < j < |fields| ==> fields[i].name != fields[j].name) &&
      (forall i :: 0 <= i < |fields| ==> DistinctNames(fields[i].value))
    case _ => true
  }

  lemma {:induction false} FindAt(fields: seq<Field>, i: nat)
    requires i < |fields|
    requires forall j :: 0 <= j < i ==> fields[j].name != fields[i].name
    ensures Find(fields, fields[i].name) == Some(fields[i].value)
  {
    if i > 0 { FindAt(fields[1..], i - 1); }
  }

  lemma {:induction false} FindWhere(fields: seq<Field>, name: string) returns (i: nat)
    requires Find(fields, name).Some?
    ensures i < |fields| && fields[i] == Field(name, Find(fields, name).value)
  {
    if fields[0].name == name {
      i := 0;
    } else {
      i := FindWhere(fields[1..], name);
      i := i + 1;
    }
  }

  /** The same document, up to the order in which objects list their members. */
  ghost predicate SameDocument(a: Json, b: Json)
    decreases a
  {
    match a
    case Arr(items) =>
      b.Arr? && |b.items| == |items| && forall i :: 0 <= i < |items| ==> SameDocument(items[i], b.items[i])
    case Obj(fields) =>
      b.Obj? && (forall i :: 0 <= i < |b.fields| ==> Find(fields, b.fields[i].name).Some?) &&
      forall i :: 0 <= i < |fields| ==>
        Find(b.fields, fields[i].name).Some? && SameDocument(fields[i].value, Find(b.fields, fields[i].name).value)
    case _ => a == b
  }

  /** Values that are no containers. */
  predicate Scalar(v: Json) { !v.Arr? && !v.Obj? }

  // ----- order and printing

  /** The texts agree up to `k`, where the first ends or has the smaller byte. */
  predicate FirstSmaller(a: string, b: string, k: int)
  {
    0 <= k <= |a| && k < |b| && a[..k] == b[..k] && (k == |a| || a[k] < b[k])
  }

  lemma {:induction false} SamePrefix(a: string, b: string, k: nat)
    requires k <= |a| && k <= |b| && a[..k] == b[..k]
    ensures k > 0 ==> a[0] == b[0]
  {
    if k > 0 { assert a[..k][0] == b[..k][0]; }
  }

  /** The order is lexicographic. */
  lemma {:induction false} LessExactly(a: string, b: string)
    ensures Less(a, b) <==> exists k :: FirstSmaller(a, b, k)
  {
    if a == "" || b == "" || a[0] != b[0] {
      if Less(a, b) { assert FirstSmaller(a, b, 0); }
      if k :| FirstSmaller(a, b, k) {
        SamePrefix(a, b, k);
      }
    } else {
      LessExactly(a[1..], b[1..]);
      if k :| FirstSmaller(a[1..], b[1..], k) {
        assert a[..k + 1] == [a[0]] + a[1..][..k] && b[..k + 1] == [b[0]] + b[1..][..k];
        assert FirstSmaller(a, b, k + 1);
      }
      if k :| FirstSmaller(a, b, k) {
        assert k > 0 && a[1..][..k - 1] == a[..k][1..] && b[1..][..k - 1] == b[..k][1..];
        assert FirstSmaller(a[1..], b[1..], k - 1);
      }
    }
  }

  lemma {:induction false} LessTotal(a: string, b: string)
    ensures Less(a, b) || Less(b, a) || a == b
    ensures !(Less(a, b) && Less(b, a))
  {
    if a != "" && b != "" {
      LessTotal(a[1..], b[1..]);
      assert a == [a[0]] + a[1..] && b == [b[0]] + b[1..];
    }
  }

  lemma {:induction false} LessTransitive(a: string, b: string, c: string)
    requires !Less(b, a) && !Less(c, b)
    ensures !Less(c, a)
  {
    if a != "" && b != "" && c != "" && a[0] == b[0] == c[0] { LessTransitive(a[1..], b[1..], c[1..]); }
  }

  ghost predicate InOrder(fields: seq<Field>)
  {
    forall i, j :: 0 <= i < j < |fields| ==> !Less(fields[j].name, fields[i].name)
  }

  lemma {:induction false} InsertKeepsOrder(f: Field, sorted: seq<Field>)
    requires InOrder(sorted)
    ensures InOrder(Insert(f, sorted))
  {
    hide Less;
    if sorted != [] {
      var rest := sorted[1..];
      assert forall i :: 0 <= i < |rest| ==> rest[i] == sorted[i + 1];
      if Less(sorted[0].name, f.name) {
        var r := Insert(f, rest);
        InsertKeepsOrder(f, rest);
        LessTotal(sorted[0].name, f.name);
        forall j | 0 <= j < |r|
          ensures !Less(r[j].name, sorted[0].name)
        {
          assert r[j] in multiset(r);
          assert r[j] in multiset{f} + multiset(rest);
        }
      } else {
        forall j | 0 <= j < |sorted|
          ensures !Less(sorted[j].name, f.name)
        {
          if j > 0 { LessTransitive(f.name, sorted[0].name, sorted[j].name); }
        }
      }
    }
  }

  /** Members come in the order of their names. */
  lemma {:induction false} SortedInOrder(fields: seq<Field>)
    ensures InOrder(Sorted(fields))
  {
    if fields != [] {
      SortedInOrder(fields[1..]);
      InsertKeepsOrder(fields[0], Sorted(fields[1..]));
    }
  }

  function Spaced(parts: seq<string>): string
  {
    if parts == [] then "" else if |parts| == 1 then parts[0] else parts[0] + " " + Spaced(parts[1..])
  }

  function Prints(items: seq<Json>): seq<string>
  {
    seq(|items|, i requires 0 <= i < |items| => Sprint(items[i]))
  }

  function FieldPrints(fields: seq<Field>): seq<string>
  {
    seq(|fields|, i requires 0 <= i < |fields| => fields[i].name + ":" + Sprint(fields[i].value))
  }

  lemma {:induction false} ItemsSpaced(items: seq<Json>)
    ensures SprintItems(items) == Spaced(Prints(items))
  {
    hide Sprint;
    if items != [] {
      ItemsSpaced(items[1..]);
      assert Prints(items)[1..] == Prints(items[1..]);
      if |items| == 1 { assert items[1..] == [] && Sprint(items[0]) + "" + "" == Sprint(items[0]); }
    }
  }

  lemma {:induction false} FieldsSpaced(owner: Json, fields: seq<Field>)
    requires owner.Obj? && forall f :: f in fields ==> f in owner.fields
    ensures SprintFields(owner, fields) == Spaced(FieldPrints(fields))
    decreases |fields|
  {
    hide Sprint;
    if fields != [] {
      FieldsSpaced(owner, fields[1..]);
      assert FieldPrints(fields)[1..] == FieldPrints(fields[1..]);
      var first := fields[0].name + ":" + Sprint(fields[0].value);
      if |fields| == 1 { assert fields[1..] == [] && first + "" + "" == first; }
    }
  }

  /** The default format: null, booleans, strings as they are; numbers by `GoText`; lists in brackets and objects
      behind `map`, their parts separated by spaces and members in the order of their names. */
  lemma {:induction false} PrintedExactly(v: Json)
    ensures v.Null? ==> Sprint(v) == "<nil>"
    ensures v.Bool? ==> Sprint(v) == if v.b then "true" else "false"
    ensures v.Num? ==> Sprint(v) == GoText(v.n)
    ensures v.Str? ==> Sprint(v) == v.s
    ensures v.Arr? ==> Sprint(v) == "[" + Spaced(Prints(v.items)) + "]"
    ensures v.Obj? ==> Sprint(v) == "map[" + Spaced(FieldPrints(Sorted(v.fields))) + "]"
  {
    if v.Arr? { ItemsSpaced(v.items); }
    if v.Obj? { FieldsSpaced(v, Sorted(v.fields)); }
  }
}
