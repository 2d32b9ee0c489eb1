/** Values a response offers to later requests: the walk over a document, and the names given to what it finds. */
module Sources {
  import opened Text
  import opened Options
  import opened Json
  import opened Numbers
  import opened Paths

  datatype Source = Source(step: string, key: string, path: string, value: string)

  const MAX_PER_RESPONSE := 80

  // ----- names

  const SENSITIVE_WORDS := ["token", "secret", "password", "auth", "csrf", "session", "key"]

  /** `sensitiveField`: the name contains one of the words, in any case. */
  predicate Sensitive(name: string)
  {
    exists i :: 0 <= i < |SENSITIVE_WORDS| && Contains(Lower(name), SENSITIVE_WORDS[i])
  }

  /** The three replacements of `extractionKey`. */
  function Flatten(path: string): string
  {
    ReplaceAll(ReplaceAll(ReplaceAll(path, "[", "_"), "]", ""), ".", "_")
  }

  function Normal(path: string): string
  {
    var rest := if "$." <= path then path[2..] else path;
    TrimRight(TrimLeft(Flatten(rest), '_'), '_')
  }

  /** `extractionKey`. */
  function ExtractionKey(path: string): string
  {
    var n := Normal(path);
    if n == "" then "value" else if Sensitive(n) then "value_" + Decimal(|n|) else n
  }

  predicate Underscores(s: string) { forall c :: c in s ==> c == '_' }

  lemma {:induction false} TrimmedLeft(s: string) returns (front: string)
    ensures s == front + TrimLeft(s, '_') && Underscores(front)
    ensures TrimLeft(s, '_') != "" ==> TrimLeft(s, '_')[0] != '_'
  {
    if s != "" && s[0] == '_' {
      var more := TrimmedLeft(s[1..]);
      front := "_" + more;
      assert s == [s[0]] + s[1..];
    } else {
      front := "";
    }
  }

  lemma {:induction false} TrimmedRight(s: string) returns (back: string)
    ensures s == TrimRight(s, '_') + back && Underscores(back)
    ensures TrimRight(s, '_') != "" ==> TrimRight(s, '_')[|TrimRight(s, '_')| - 1] != '_'
  {
    if s != "" && s[|s| - 1] == '_' {
      var more := TrimmedRight(s[..|s| - 1]);
      back := more + "_";
      assert s == s[..|s| - 1] + [s[|s| - 1]];
    } else {
      back := "";
    }
  }

  /** The key of a path: its flattened text without the underscores around it; `value` if nothing is left, and a
      length if a sensitive word is in it. */
  lemma {:induction false} KeyExactly(path: string) returns (front: string, n: string, back: string)
    ensures Flatten(if "$." <= path then path[2..] else path) == front + n + back
    ensures Underscores(front) && Underscores(back) && (n != "" ==> n[0] != '_' && n[|n| - 1] != '_')
    ensures ExtractionKey(path) == if n == "" then "value" else if Sensitive(n) then "value_" + Decimal(|n|) else n
  {
    hide Flatten, Sensitive, Decimal;
    var flat := Flatten(if "$." <= path then path[2..] else path);
    front := TrimmedLeft(flat);
    var rest := TrimLeft(flat, '_');
    back := TrimmedRight(rest);
    n := TrimRight(rest, '_');
    assert front + (n + back) == front + n + back;
    assert n != "" ==> n[0] == rest[0];
  }

  // ----- the walk

  datatype Found = Found(at: Path, value: Json)

  /** Values that become sources: non-empty strings, numbers and booleans. */
  predicate Offers(v: Json)
  {
    v.Bool? || v.Num? || (v.Str? && v.s != "")
  }

  function Walk(v: Json, at: Path): seq<Found>
    decreases v
  {
    match v
    case Obj(fields) => WalkFields(fields, at)
    case Arr(items) => WalkItems(items, 0, at)
    case _ => if Offers(v) then [Found(at, v)] else []
  }

  function WalkFields(fields: seq<Field>, at: Path): seq<Found>
    decreases fields
  {
    if fields == [] then []
    else Walk(fields[0].value, at + [Key(fields[0].name)]) + WalkFields(fields[1..], at)
  }

  function WalkItems(items: seq<Json>, i: nat, at: Path): seq<Found>
    decreases items
  {
    if items == [] then []
    else Walk(items[0], at + [At(i)]) + WalkItems(items[1..], i + 1, at)
  }

  function SourceOf(step: string, f: Found): Source
  {
    Source(step, ExtractionKey(PathText(f.at)), PathText(f.at), Sprint(f.value))
  }

  function SourcesOf(step: string, found: seq<Found>): (r: seq<Source>)
    ensures |r| == |found|
  {
    if found == [] then [] else [SourceOf(step, found[0])] + SourcesOf(step, found[1..])
  }

  function Cap<T>(s: seq<T>): seq<T>
  {
    if |s| <= MAX_PER_RESPONSE then s else s[..MAX_PER_RESPONSE]
  }

  /** `jsonPrimitiveSources` of a decoded body. */
  function PrimitiveSources(step: string, root: Json): seq<Source>
  {
    Cap(SourcesOf(step, Walk(root, [])))
  }

  /** What appending `found` to a slice leaves, given the cap. */
  function After(sources: seq<Source>, step: string, found: seq<Found>): seq<Source>
  {
    Cap(sources + SourcesOf(step, found))
  }

  lemma {:induction false} SpellSnoc(at: Path, s: Step)
    ensures PathText(at + [s]) == PathText(at) + SpellStep(s)
  {
    SpellAppend(at, [s]);
    assert [s][1..] == [];
    Regroup("$", Spell(at), SpellStep(s));
  }

  function ChildPath(path: string, name: string): string
  {
    if path == "$" then "$." + name else path + "." + name
  }

  lemma {:induction false} ChildPathSpelled(at: Path, name: string)
    ensures ChildPath(PathText(at), name) == PathText(at + [Key(name)])
  {
    SpellSnoc(at, Key(name));
    Regroup(PathText(at), ".", name);
  }

  lemma {:induction false} SourcesOfAppend(step: string, a: seq<Found>, b: seq<Found>)
    ensures SourcesOf(step, a + b) == SourcesOf(step, a) + SourcesOf(step, b)
  {
    if a == [] {
      assert a + b == b;
    } else {
      assert (a + b)[0] == a[0] && (a + b)[1..] == a[1..] + b;
      SourcesOfAppend(step, a[1..], b);
    }
  }

  lemma {:induction false} SourceAt(step: string, found: seq<Found>, k: nat)
    requires k < |found|
    ensures SourcesOf(step, found)[k] == SourceOf(step, found[k])
  {
    if k > 0 { SourceAt(step, found[1..], k - 1); }
  }

  lemma {:induction false} CapTwice(s: seq<Source>, b: seq<Source>)
    ensures Cap(Cap(s) + b) == Cap(s + b)
  {
  }

  lemma {:induction false} AfterAppend(s: seq<Source>, step: string, a: seq<Found>, b: seq<Found>)
    ensures After(After(s, step, a), step, b) == After(s, step, a + b)
  {
    hide SourcesOf;
    SourcesOfAppend(step, a, b);
    assert s + (SourcesOf(step, a) + SourcesOf(step, b)) == (s + SourcesOf(step, a)) + SourcesOf(step, b);
    CapTwice(s + SourcesOf(step, a), SourcesOf(step, b));
  }

  lemma {:induction false} AfterOne(s: seq<Source>, step: string, f: Found)
    requires |s| < MAX_PER_RESPONSE
    ensures After(s, step, [f]) == s + [SourceOf(step, f)]
    ensures After(s, step, []) == s
  {
    assert [f][1..] == [];
  }

  lemma {:induction false} FieldsFrom(fields: seq<Field>, k: nat, at: Path)
    requires k < |fields|
    ensures WalkFields(fields[k..], at)
         == Walk(fields[k].value, at + [Key(fields[k].name)]) + WalkFields(fields[k + 1..], at)
  {
    assert fields[k..][1..] == fields[k + 1..];
  }

  lemma {:induction false} ItemsFrom(items: seq<Json>, k: nat, at: Path)
    requires k < |items|
    ensures WalkItems(items[k..], k, at) == Walk(items[k], at + [At(k)]) + WalkItems(items[k + 1..], k + 1, at)
  {
    assert items[k..][1..] == items[k + 1..];
  }

  /** The closure of `jsonPrimitiveSources`: it appends to a captured slice and stops once the slice is full. */
  class Walker {
    const step: string
    var sources: seq<Source>

    constructor (step: string)
      ensures this.step == step && sources == []
    {
      this.step := step;
      sources := [];
    }

    method Visit(path: string, value: Json, ghost at: Path)
      requires path == PathText(at) && |sources| <= MAX_PER_RESPONSE
      modifies this
      ensures sources == After(old(sources), step, Walk(value, at))
      decreases value, 1
    {
      if |sources| >= MAX_PER_RESPONSE {
        return;
      }
      AfterOne(sources, step, Found(at, value));
      match value {
        case Obj(fields) => VisitFields(path, value, at);
        case Arr(items) => VisitItems(path, value, at);
        case Str(s) => if s != "" { sources := sources + [Source(step, ExtractionKey(path), path, s)]; }
        case Num(n) => sources := sources + [Source(step, ExtractionKey(path), path, GoText(n))];
        case Bool(b) => sources := sources + [Source(step, ExtractionKey(path), path, BoolText(b))];
        case Null =>
      }
    }

    method VisitFields(path: string, value: Json, ghost at: Path)
      requires value.Obj? && path == PathText(at) && |sources| <= MAX_PER_RESPONSE
      modifies this
      ensures sources == After(old(sources), step, WalkFields(value.fields, at))
      decreases value, 0
    {
      hide Walk, PathText, SourcesOf, ExtractionKey;
      var fields := value.fields;
      ghost var before := sources;
      for k := 0 to |fields|
        invariant |sources| <= MAX_PER_RESPONSE
        invariant After(sources, step, WalkFields(fields[k..], at)) == After(before, step, WalkFields(fields, at))
      {
        FieldsFrom(fields, k, at);
        AfterAppend(sources, step, Walk(fields[k].value, at + [Key(fields[k].name)]), WalkFields(fields[k + 1..], at));
        ChildPathSpelled(at, fields[k].name);
        Visit(ChildPath(path, fields[k].name), fields[k].value, at + [Key(fields[k].name)]);
      }
    }

    method VisitItems(path: string, value: Json, ghost at: Path)
      requires value.Arr? && path == PathText(at) && |sources| <= MAX_PER_RESPONSE
      modifies this
      ensures sources == After(old(sources), step, WalkItems(value.items, 0, at))
      decreases value, 0
    {
      hide Walk, PathText, SourcesOf, ExtractionKey;
      var items := value.items;
      ghost var before := sources;
      for k := 0 to |items|
        invariant |sources| <= MAX_PER_RESPONSE
        invariant After(sources, step, WalkItems(items[k..], k, at)) == After(before, step, WalkItems(items, 0, at))
      {
        ItemsFrom(items, k, at);
        AfterAppend(sources, step, Walk(items[k], at + [At(k)]), WalkItems(items[k + 1..], k + 1, at));
        SpellSnoc(at, At(k));
        Visit(path + "[" + Decimal(k) + "]", items[k], at + [At(k)]);
      }
    }
  }

  /** The emitted list is the first 80 entries of the uncapped walk, in the same order. */
  method JsonPrimitiveSources(step: string, root: Json) returns (sources: seq<Source>)
    ensures sources == PrimitiveSources(step, root)
  {
    var walker := new Walker(step);
    walker.Visit("$", root, []);
    assert [] + SourcesOf(step, Walk(root, [])) == SourcesOf(step, Walk(root, []));
    sources := walker.sources;
  }

  // ----- what the walk finds is what is there

  lemma {:induction false} LookupSnoc(v: Json, p: Path, s: Step)
    requires Lookup(v, p).Some?
    ensures Lookup(v, p + [s]) == Lookup(Lookup(v, p).value, [s])
    decreases |p|
  {
    if p == [] {
      assert p + [s] == [s];
    } else {
      assert (p + [s])[0] == p[0] && (p + [s])[1..] == p[1..] + [s];
      match p[0] {
        case Key(name) => LookupSnoc(Find(v.fields, name).value, p[1..], s);
        case At(i) => LookupSnoc(v.items[i], p[1..], s);
      }
    }
  }

  /** Every find is at its place: soundness of the walk from any place of `root`. */
  lemma {:induction false} WalkSound(root: Json, v: Json, at: Path, k: nat)
    requires DistinctNames(v) && Lookup(root, at) == Some(v) && k < |Walk(v, at)|
    ensures Offers(Walk(v, at)[k].value) && Lookup(root, Walk(v, at)[k].at) == Some(Walk(v, at)[k].value)
    decreases v, 1
  {
    match v {
      case Obj(fields) => WalkFieldsSound(root, v, 0, at, k);
      case Arr(items) => WalkItemsSound(root, v, 0, at, k);
      case _ =>
    }
  }

  lemma {:induction false} WalkFieldsSound(root: Json, v: Json, n: nat, at: Path, k: nat)
    requires v.Obj? && DistinctNames(v) && Lookup(root, at) == Some(v)
    requires n <= |v.fields| && k < |WalkFields(v.fields[n..], at)|
    ensures
      var f := WalkFields(v.fields[n..], at)[k];
      Offers(f.value) && Lookup(root, f.at) == Some(f.value)
    decreases v, 0, |v.fields| - n
  {
    var name, child := v.fields[n].name, v.fields[n].value;
    var here := Walk(child, at + [Key(name)]);
    assert v.fields[n..][1..] == v.fields[n + 1..];
    assert WalkFields(v.fields[n..], at) == here + WalkFields(v.fields[n + 1..], at);
    if k < |here| {
      LookupSnoc(root, at, Key(name));
      FindAt(v.fields, n);
      assert [Key(name)][1..] == [];
      WalkSound(root, child, at + [Key(name)], k);
    } else {
      WalkFieldsSound(root, v, n + 1, at, k - |here|);
    }
  }

  lemma {:induction false} WalkItemsSound(root: Json, v: Json, n: nat, at: Path, k: nat)
    requires v.Arr? && DistinctNames(v) && Lookup(root, at) == Some(v)
    requires n <= |v.items| && k < |WalkItems(v.items[n..], n, at)|
    ensures
      var f := WalkItems(v.items[n..], n, at)[k];
      Offers(f.value) && Lookup(root, f.at) == Some(f.value)
    decreases v, 0, |v.items| - n
  {
    var here := Walk(v.items[n], at + [At(n)]);
    assert v.items[n..][1..] == v.items[n + 1..];
    assert WalkItems(v.items[n..], n, at) == here + WalkItems(v.items[n + 1..], n + 1, at);
    if k < |here| {
      LookupSnoc(root, at, At(n));
      assert [At(n)][1..] == [];
      WalkSound(root, v.items[n], at + [At(n)], k);
    } else {
      WalkItemsSound(root, v, n + 1, at, k - |here|);
    }
  }

  /** And every value on offer is found: completeness. */
  lemma {:induction false} WalkComplete(v: Json, at: Path, p: Path)
    requires Lookup(v, p).Some? && Offers(Lookup(v, p).value)
    ensures Found(at + p, Lookup(v, p).value) in Walk(v, at)
    decreases |p|
  {
    if p == [] {
      assert at + p == at;
    } else {
      assert at + p == (at + [p[0]]) + p[1..];
      match p[0] {
        case Key(name) =>
          var i := FindWhere(v.fields, name);
          WalkComplete(v.fields[i].value, at + [p[0]], p[1..]);
          InWalkFields(v.fields, i, at, Found(at + p, Lookup(v, p).value));
        case At(i) =>
          WalkComplete(v.items[i], at + [p[0]], p[1..]);
          InWalkItems(v.items, i, 0, at, Found(at + p, Lookup(v, p).value));
      }
    }
  }

  lemma {:induction false} InWalkFields(fields: seq<Field>, i: nat, at: Path, f: Found)
    requires i < |fields| && f in Walk(fields[i].value, at + [Key(fields[i].name)])
    ensures f in WalkFields(fields, at)
  {
    if i > 0 { InWalkFields(fields[1..], i - 1, at, f); }
  }

  lemma {:induction false} InWalkItems(items: seq<Json>, i: nat, n: nat, at: Path, f: Found)
    requires i < |items| && f in Walk(items[i], at + [At(n + i)])
    ensures f in WalkItems(items, n, at)
  {
    if i > 0 { InWalkItems(items[1..], i - 1, n + 1, at, f); }
  }

  /** The seven words that make a name sensitive. */
  lemma {:induction false} SensitiveExactly(name: string)
    ensures
      var n := Lower(name);
      Sensitive(name) <==>
      Contains(n, "token") || Contains(n, "secret") || Contains(n, "password") || Contains(n, "auth") ||
      Contains(n, "csrf") || Contains(n, "session") || Contains(n, "key")
  {
    hide Contains;
    var n := Lower(name);
    assert Contains(n, "token") ==> Contains(n, SENSITIVE_WORDS[0]);
    assert Contains(n, "secret") ==> Contains(n, SENSITIVE_WORDS[1]);
    assert Contains(n, "password") ==> Contains(n, SENSITIVE_WORDS[2]);
    assert Contains(n, "auth") ==> Contains(n, SENSITIVE_WORDS[3]);
    assert Contains(n, "csrf") ==> Contains(n, SENSITIVE_WORDS[4]);
    assert Contains(n, "session") ==> Contains(n, SENSITIVE_WORDS[5]);
    assert Contains(n, "key") ==> Contains(n, SENSITIVE_WORDS[6]);
  }

  /** The walk of a document finds exactly its numbers, its booleans and its strings that are not empty, each under
      its place. */
  lemma {:induction false} WalkExactly(root: Json, p: Path, v: Json)
    requires DistinctNames(root)
    ensures Found(p, v) in Walk(root, [])
            <==> Lookup(root, p) == Some(v) && (v.Num? || v.Bool? || (v.Str? && v.s != ""))
  {
    if k :| 0 <= k < |Walk(root, [])| && Walk(root, [])[k] == Found(p, v) { WalkSound(root, root, [], k); }
    if Lookup(root, p) == Some(v) && Offers(v) {
      WalkComplete(root, [], p);
      assert [] + p == p;
    }
  }

  /** A response offers the first 80 of these, each with its printed path, the key made from that, and its printed
      value. */
  lemma {:induction false} OfferedExactly(step: string, root: Json)
    ensures |PrimitiveSources(step, root)| == if |Walk(root, [])| < 80 then |Walk(root, [])| else 80
    ensures forall k :: 0 <= k < |PrimitiveSources(step, root)| ==>
      var f := Walk(root, [])[k];
      PrimitiveSources(step, root)[k] == Source(step, ExtractionKey(PathText(f.at)), PathText(f.at), Sprint(f.value))
  {
    forall k | 0 <= k < |PrimitiveSources(step, root)|
      ensures PrimitiveSources(step, root)[k] == SourceOf(step, Walk(root, [])[k])
    {
      SourceAt(step, Walk(root, []), k);
    }
  }

  /** The printed path of a source reads its value back from the response, when its place is addressable. */
  lemma {:induction false} SourceReadsBack(step: string, root: Json, k: nat)
    requires DistinctNames(root) && k < |PrimitiveSources(step, root)|
    ensures k < |Walk(root, [])| && PrimitiveSources(step, root)[k] == SourceOf(step, Walk(root, [])[k])
    ensures
      var s, f := PrimitiveSources(step, root)[k], Walk(root, [])[k];
      s.path == PathText(f.at) &&
      (Addressable(f.at) ==> ReadPath(root, s.path) == Some(f.value) && Sprint(f.value) == s.value)
  {
    var f := Walk(root, [])[k];
    WalkSound(root, root, [], k);
    SourceAt(step, Walk(root, []), k);
    if Addressable(f.at) { AddressableReadsBack(root, f.at); }
  }

  // ----- documents whose every source reads back

  /** No array directly inside an array, no `.` and no `[` in field names, and indices that fit a machine integer. */
  ghost predicate PlainShape(v: Json)
    decreases v
  {
    match v
    case Arr(items) =>
      |items| <= INT64_LIMIT && forall i :: 0 <= i < |items| ==> !items[i].Arr? && PlainShape(items[i])
    case Obj(fields) =>
      forall i :: 0 <= i < |fields| ==>
        '.' !in fields[i].name && '[' !in fields[i].name && PlainShape(fields[i].value)
    case _ => true
  }

  lemma {:induction false} PlacesAddressable(v: Json, p: Path)
    requires PlainShape(v) && Lookup(v, p).Some? && !(p != [] && v.Arr?)
    ensures Addressable(p)
    decreases |p|
  {
    if p != [] {
      var n := FindWhere(v.fields, p[0].name);
      var child := v.fields[n].value;
      if |p| > 1 && p[1].At? {
        assert p[1..][0] == p[1] && p[1..][1..] == p[2..];
        PlacesAddressable(child.items[p[1].i], p[2..]);
      } else {
        PlacesAddressable(child, p[1..]);
      }
    }
  }

  /** For every document of that shape with an object at its root, every emitted source reads back: the runner's
      reader finds a value at its path, which prints as the source's value. */
  lemma {:induction false} EverySourceReadsBack(step: string, root: Json, s: Source)
    requires root.Obj? && PlainShape(root) && DistinctNames(root) && s in PrimitiveSources(step, root)
    ensures ReadPath(root, s.path).Some? && Sprint(ReadPath(root, s.path).value) == s.value
  {
    var k :| 0 <= k < |PrimitiveSources(step, root)| && PrimitiveSources(step, root)[k] == s;
    SourceReadsBack(step, root, k);
    WalkSound(root, root, [], k);
    PlacesAddressable(root, Walk(root, [])[k].at);
  }
}
