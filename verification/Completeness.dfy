/** Every value that can be bound is bound: the bindings of the compiled workflow, said in terms of the captured texts
    alone. */
module Completeness {
  import opened Text
  import opened Options
  import opened Json
  import opened Templates
  import opened Sources
  import opened JsonText
  import opened Utf8
  import opened Decoding
  import opened Compiler
  import opened Bindings
  import opened Lifting
  import opened Fidelity

  // ----- bodies

  /** Replace the value of every source in turn by its placeholder. */
  function ReplacedAll(text: string, sources: seq<Source>): string
    decreases |sources|
  {
    if sources == [] then text
    else
      var n := |sources| - 1;
      var before := ReplacedAll(text, sources[..n]);
      if sources[n].value == "" then before
      else ReplaceAll(before, sources[n].value, Placeholder(RefOf(sources[n])))
  }

  lemma {:induction false} BodySnoc(text: string, a: seq<Source>, s: Source)
    ensures BindBody(text, a + [s]) == BindOne(BindBody(text, a), s)
    ensures BodyUses(text, a + [s]) == BodyUses(text, a) + if Occurs(s, BindBody(text, a)) then [s] else []
    decreases |a|
  {
    hide Occurs;
    if a == [] {
      assert a + [s] == [s] && [s][1..] == [];
      assert BodyUses(text, []) == [] && BindBody(text, []) == text;
      assert BindBody(text, [s]) == BindBody(BindOne(text, s), []);
    } else {
      assert (a + [s])[0] == a[0] && (a + [s])[1..] == a[1..] + [s];
      BodySnoc(BindOne(text, a[0]), a[1..], s);
    }
  }

  /** The body loop, with its tests, is replacing in turn. */
  lemma {:induction false} BindBodyIsReplacedAll(text: string, sources: seq<Source>)
    ensures BindBody(text, sources) == ReplacedAll(text, sources)
    decreases |sources|
  {
    if sources != [] {
      var n := |sources| - 1;
      var s, before := sources[n], ReplacedAll(text, sources[..n]);
      assert sources == sources[..n] + [s];
      BodySnoc(text, sources[..n], s);
      BindBodyIsReplacedAll(text, sources[..n]);
      if s.value != "" && !Contains(before, s.value) { ReplaceAbsent(before, s.value, Placeholder(RefOf(s))); }
    }
  }

  /** A source is bound into a body exactly when its value occurs there at its turn. */
  lemma {:induction false} BodyUsedExactly(text: string, sources: seq<Source>, k: nat)
    requires DistinctValues(sources) && k < |sources|
    ensures sources[k] in BodyUses(text, sources)
            <==> sources[k].value != "" && Contains(ReplacedAll(text, sources[..k]), sources[k].value)
    decreases |sources|
  {
    var n := |sources| - 1;
    var a, last := sources[..n], sources[n];
    assert sources == a + [last];
    BodySnoc(text, a, last);
    BindBodyIsReplacedAll(text, a);
    if k < n {
      BodyUsedExactly(text, a, k);
      assert sources[..k] == a[..k] && sources[k] != last;
    } else {
      BodyUsesOld(text, a);
      assert last !in a;
    }
  }

  const HEAD := Source("step_01", "a", "$.a", "abcde")
  const TAIL := Source("step_01", "b", "$.b", "cdefg")

  /** Occurring in the captured body is not enough: a value that shares characters with an earlier one is not bound.
      */
  lemma {:induction false} OverlapIsNotBound()
    ensures Contains("abcdefg", TAIL.value) && DistinctValues([HEAD, TAIL])
    ensures BindBody("abcdefg", [HEAD, TAIL]) == "${steps.step_01.a}fg" && BodyUses("abcdefg", [HEAD, TAIL]) == [HEAD]
  {
    hide BindOne, Occurs, Contains;
    var none: seq<Source> := [];
    assert none + [HEAD] == [HEAD] && [HEAD] + [TAIL] == [HEAD, TAIL];
    BodySnoc("abcdefg", [], HEAD);
    BodySnoc("abcdefg", [HEAD], TAIL);
    HeadBound();
    TailLost();
  }

  lemma {:induction false} HeadBound()
    ensures BindOne("abcdefg", HEAD) == "${steps.step_01.a}fg" && Occurs(HEAD, "abcdefg")
    ensures Contains("abcdefg", "cdefg")
  {
    assert Placeholder(RefOf(HEAD)) == "${steps.step_01.a}";
    HeadReplaced("${steps.step_01.a}");
    assert "abcdefg"[2..] == "cdefg";
    ContainsAt("abcdefg", "cdefg", 2);
  }

  lemma {:induction false} HeadReplaced(w: string)
    ensures ReplaceAll("abcdefg", "abcde", w) == w + "fg"
  {
    assert "abcdefg"[5..] == "fg" && "fg"[1..] == "g" && "g"[1..] == "";
    assert ReplaceAll("g", "abcde", w) == "g";
    assert ReplaceAll("fg", "abcde", w) == "fg";
  }

  lemma {:induction false} TailLost()
    ensures BindOne("${steps.step_01.a}fg", TAIL) == "${steps.step_01.a}fg" && !Occurs(TAIL, "${steps.step_01.a}fg")
  {
    assert "cdefg"[0] == 'c';
    LacksLetter("${steps.step_01.a}fg", "cdefg", 'c');
  }

  // ----- headers

  predicate CarriedInHeader(headers: seq<Header>, value: string)
  {
    exists h, v :: 0 <= h < |headers| && 0 <= v < |headers[h].values| && headers[h].values[v] == value
  }

  predicate PairCarries(pairs: seq<(string, string)>, value: string)
  {
    exists i :: 0 <= i < |pairs| && pairs[i].1 == value
  }

  lemma {:induction false} PairsExactly(headers: seq<Header>, value: string)
    ensures PairCarries(HeaderPairs(headers), value) <==> CarriedInHeader(headers, value)
  {
    if headers != [] {
      var first, more := ValuePairs(headers[0]), HeaderPairs(headers[1..]);
      PairsExactly(headers[1..], value);
      PairsAppend(first, more, value);
      if CarriedInHeader(headers[1..], value) {
        var h, v :| 0 <= h < |headers[1..]| && 0 <= v < |headers[1..][h].values| && headers[1..][h].values[v] == value;
        assert headers[h + 1].values[v] == value;
      }
      if h, v :| 0 <= h < |headers| && 0 <= v < |headers[h].values| && headers[h].values[v] == value {
        if h == 0 {
          assert first[v].1 == value;
        } else {
          assert headers[1..][h - 1].values[v] == value;
        }
      }
      if i :| 0 <= i < |first| && first[i].1 == value {
        assert headers[0].values[i] == value;
      }
    }
  }

  lemma {:induction false} PairsAppend(a: seq<(string, string)>, b: seq<(string, string)>, value: string)
    ensures PairCarries(a + b, value) <==> PairCarries(a, value) || PairCarries(b, value)
  {
    if i :| 0 <= i < |b| && b[i].1 == value {
      assert (a + b)[|a| + i].1 == value;
    }
    if i :| 0 <= i < |a| && a[i].1 == value {
      assert (a + b)[i].1 == value;
    }
  }

  lemma {:induction false} DistinctMember(sources: seq<Source>, s: Source, t: Source)
    requires DistinctValues(sources) && s in sources && t in sources && s.value == t.value
    ensures s == t
  {
  }

  lemma {:induction false} PairUsedExactly(pairs: seq<(string, string)>, previous: seq<Source>, s: Source)
    requires DistinctValues(previous) && s in previous && s.value != ""
    ensures s in HeaderUses(pairs, previous) <==> PairCarries(pairs, s.value)
  {
    if pairs != [] {
      PairUsedExactly(pairs[1..], previous, s);
      PairsAppend([pairs[0]], pairs[1..], s.value);
      assert [pairs[0]] + pairs[1..] == pairs;
      var m := Matching(previous, pairs[0].1);
      MatchingFinds(previous, pairs[0].1);
      if pairs[0].1 == s.value {
        assert [pairs[0]][0].1 == s.value;
        DistinctMember(previous, s, m.value);
      } else {
        assert m.Some? ==> m.value != s;
      }
    }
  }

  /** A source is bound into a header exactly when some captured header value is the source's value. */
  lemma {:induction false} HeaderUsedExactly(headers: seq<Header>, previous: seq<Source>, s: Source)
    requires DistinctValues(previous) && s in previous && s.value != ""
    ensures s in HeaderUses(HeaderPairs(headers), previous) <==> CarriedInHeader(headers, s.value)
  {
    PairUsedExactly(HeaderPairs(headers), previous, s);
    PairsExactly(headers, s.value);
  }

  // ----- what is collected

  predicate Bindable(value: string)
  {
    4 <= |value| <= 512 && '\n' !in value && '\0' !in value
  }

  /** The first source with each bindable value. */
  function Firsts(all: seq<Source>): seq<Source>
    decreases |all|
  {
    if all == [] then []
    else
      var n := |all| - 1;
      Firsts(all[..n]) + if Bindable(all[n].value) && !Has(all[..n], all[n].value) then [all[n]] else []
  }

  predicate Has(sources: seq<Source>, value: string)
  {
    exists i :: 0 <= i < |sources| && sources[i].value == value
  }

  function Upto(s: seq<Source>, n: nat): seq<Source> { if |s| <= n then s else s[..n] }

  lemma {:induction false} FirstsSnoc(all: seq<Source>, s: Source)
    ensures Firsts(all + [s]) == Firsts(all) + if Bindable(s.value) && !Has(all, s.value) then [s] else []
  {
    assert (all + [s])[..|all|] == all;
  }

  lemma {:induction false} HasSnoc(all: seq<Source>, s: Source, value: string)
    ensures Has(all + [s], value) <==> Has(all, value) || s.value == value
  {
    if i :| 0 <= i < |all| && all[i].value == value { assert (all + [s])[i].value == value; }
    if s.value == value { assert (all + [s])[|all|].value == value; }
    if i :| 0 <= i < |all + [s]| && (all + [s])[i].value == value {
      assert i < |all| ==> all[i].value == value;
    }
  }

  lemma {:induction false} FirstsHave(all: seq<Source>, value: string)
    requires Bindable(value)
    ensures Has(Firsts(all), value) <==> Has(all, value)
    decreases |all|
  {
    hide Has;
    if all == [] {
      HasNothing(value);
    } else {
      var n := |all| - 1;
      var a, s := all[..n], all[n];
      assert all == a + [s];
      FirstsHave(a, value);
      HasSnoc(a, s, value);
      HasSnoc(Firsts(a), s, value);
      assert Firsts(a) + [] == Firsts(a);
    }
  }

  lemma {:induction false} HasNothing(value: string)
    ensures !Has([], value)
  {
  }

  lemma {:induction false} FirstsGrow(a: seq<Source>, b: seq<Source>)
    ensures Firsts(a) <= Firsts(a + b)
    decreases |b|
  {
    if b == [] {
      assert a + b == a;
    } else {
      var n := |b| - 1;
      FirstsGrow(a, b[..n]);
      assert a + b == (a + b[..n]) + [b[n]];
      FirstsSnoc(a + b[..n], b[n]);
    }
  }

  lemma {:induction false} MatchingHas(sources: seq<Source>, value: string)
    requires value != ""
    ensures Matching(sources, value).Some? <==> Has(sources, value)
  {
    if sources == [] {
      HasNothing(value);
    } else {
      MatchingHas(sources[1..], value);
      if i :| 0 <= i < |sources[1..]| && sources[1..][i].value == value { assert sources[i + 1].value == value; }
      if i :| 0 <= i < |sources| && sources[i].value == value {
        assert i > 0 ==> sources[1..][i - 1].value == value;
      }
    }
  }

  lemma {:induction false} CollectExactly(all: seq<Source>, offered: seq<Source>)
    ensures Collect(Upto(Firsts(all), 1000), offered) == Upto(Firsts(all + offered), 1000)
    decreases |offered|
  {
    hide Has, Firsts, Matching;
    if offered == [] {
      assert all + offered == all;
    } else {
      var s, first := offered[0], Firsts(all);
      assert all + offered == (all + [s]) + offered[1..];
      if |first| >= 1000 {
        FirstsGrow(all, offered);
      } else {
        CollectExactly(all + [s], offered[1..]);
        FirstsSnoc(all, s);
        if Bindable(s.value) {
          MatchingHas(first, s.value);
          FirstsHave(all, s.value);
        }
        assert first + [] == first;
      }
    }
  }

  /** Everything offered by the captured responses of the first `j` steps: every scalar in every response of an
      included step of at most 256 KiB. */
  function AllOffers(flows: seq<Flow>, j: nat): seq<Source>
    requires j <= |flows|
  {
    if j == 0 then [] else AllOffers(flows, j - 1) + OffersOf(flows[j - 1], StepId(j))
  }

  function OffersOf(flow: Flow, step: string): seq<Source>
  {
    if flow.included && flow.response.Some? && |flow.response.value.text| <= 262144 &&
        flow.response.value.document.Some?
    then PrimitiveSources(step, flow.response.value.document.value) else []
  }

  /** What is collected before a step: of all values offered until then that are neither too short nor too long nor
      hold a line feed or NUL, the first source of each, and of these the first 1000. */
  lemma {:induction false} CollectedExactly(flows: seq<Flow>, j: nat)
    requires j <= |flows|
    ensures DraftOf(flows, j).previous == Upto(Firsts(AllOffers(flows, j)), 1000)
  {
    hide Firsts, Collect, DraftStep, PrimitiveSources;
    if j == 0 {
      NoFirsts();
    } else {
      CollectedExactly(flows, j - 1);
      CollectExactly(AllOffers(flows, j - 1), OffersOf(flows[j - 1], StepId(j)));
      InvariantHolds(flows, j - 1);
      IdentifiedIds(flows, DraftOf(flows, j - 1).steps);
    }
  }

  lemma {:induction false} NoFirsts()
    ensures Firsts([]) == []
  {
  }

  // ----- the compiled workflow

  /** The body text a step starts from: its template if it has inputs, else the captured text. */
  function StartText(flow: Flow): string
    requires flow.request.Some?
  {
    if HasInput(BodyFields(flow)) then Coerced(BodyTemplateText(BodyFields(flow))) else flow.request.value.text
  }

  /** The body is neither empty nor longer than 256 KiB. */
  predicate BodyLooked(flow: Flow)
  {
    flow.request.Some? && 1 <= |flow.request.value.text| <= 262144
  }

  lemma {:induction false} StartIs(flows: seq<Flow>, j: nat)
    requires j < |flows| && flows[j].included && flows[j].request.Some?
    ensures BodyText(DraftOf(flows, j).steps[j], flows[j]) == StartText(flows[j])
    ensures BodyInRange(flows[j]) <==> BodyLooked(flows[j])
    ensures DraftOf(flows, j).steps[j].included
  {
    hide DraftAfter, BodyFields, BodyTemplateText, HasInput, Coerced;
    CompiledOverrides(flows, j);
  }

  lemma {:induction false} PreviousOk(flows: seq<Flow>, j: nat)
    requires j <= |flows|
    ensures
      var previous := DraftOf(flows, j).previous;
      DistinctValues(previous) && |previous| <= 1000 && forall s :: s in previous ==> s.value != ""
  {
    hide DraftAfter, From;
    InvariantHolds(flows, j);
    forall s | s in DraftOf(flows, j).previous
      ensures s.value != ""
    {
      assert Useful(s.value);
    }
  }

  /** The value of source `k` occurs in the body once the values of those before it are replaced there. */
  predicate OccursInTurn(flow: Flow, sources: seq<Source>, k: nat)
    requires k < |sources|
  {
    BodyLooked(flow) && Contains(ReplacedAll(StartText(flow), sources[..k]), sources[k].value)
  }

  /** A value collected before an included step is bound into it exactly when one of its captured header values is
      that value, or the value occurs in its body once all values collected before that one are replaced there. */
  lemma {:induction false} UsedExactly(flows: seq<Flow>, j: nat, k: nat)
    requires j < |flows| && flows[j].included && k < |DraftOf(flows, j).previous|
    ensures
      var previous := DraftOf(flows, j).previous;
      previous[k] in UsesAt(flows, j) <==>
      CarriedInHeader(flows[j].headers, previous[k].value) || OccursInTurn(flows[j], previous, k)
  {
    hide DraftAfter, HeaderPairs, HeaderUses, BodyUses, ReplacedAll, Contains, CarriedInHeader, StartText, BodyText;
    var previous := DraftOf(flows, j).previous;
    PreviousOk(flows, j);
    HeaderUsedExactly(flows[j].headers, previous, previous[k]);
    CompiledOverrides(flows, j);
    if flows[j].request.Some? {
      StartIs(flows, j);
      BodyUsedExactly(StartText(flows[j]), previous, k);
    }
  }

  /** A body stored for a binding is its starting text with every collected value replaced in turn, passed through the
      JSON column. */
  lemma {:induction false} CompiledBodyExactly(flows: seq<Flow>, j: nat)
    requires j < |flows| && flows[j].included && BodyLooked(flows[j]) && UsesAt(flows, j) != []
    ensures Compiled(flows)[j].overrides.Present?
    ensures Compiled(flows)[j].overrides.o.body
         == Some(Coerced(ReplacedAll(StartText(flows[j]), DraftOf(flows, j).previous)))
  {
    hide DraftAfter, StartText, BodyText, BindBody, Compiled, Coerced;
    CompiledOverrides(flows, j);
    StartIs(flows, j);
    BindBodyIsReplacedAll(StartText(flows[j]), DraftOf(flows, j).previous);
  }

  /** The body text of a step before its references are replaced: the stored one, or the captured one. */
  function BodySent(flows: seq<Flow>, j: nat): string
    requires j < |flows| && flows[j].request.Some?
  {
    var stored := Compiled(flows)[j].overrides;
    if stored.Present? && stored.o.body.Some? then stored.o.body.value else flows[j].request.value.text
  }

  /** No value collected before a step is left spelled out in the body that step sends: where the bound values keep
      apart from the placeholders, the body is the text of a template whose ordinary characters hold none of them, and
      whose references are those of bound sources and inputs. */
  lemma {:induction false} NothingLeftUnbound(flows: seq<Flow>, j: nat) returns (t: Template)
    requires Runnable(flows) && j < |flows| && flows[j].included && BodyLooked(flows[j])
    ensures BodySent(flows, j) == Render(t)
    ensures HolesWithin(t, UsesAt(flows, j), InputRefs(BodyFields(flows[j])))
    ensures forall s :: s in DraftOf(flows, j).previous ==> !SpelledOut(t, s.value)
  {
    hide DraftAfter, Runnable, Compiled, KeepApart, LiftAll, SpelledOut, Coerced, ValidUtf8, StepOk, DocumentsOk;
    var flow, previous := flows[j], DraftOf(flows, j).previous;
    t := LiftAll(StartTemplate(flow), previous);
    StepFacts(flows, j);
    StartHoles(flow);
    StartRenders(flows, j);
    StartIs(flows, j);
    UsesCoverBody(flows, j);
    LiftAllRenders(StartTemplate(flow), previous, UsesAt(flows, j), InputRefs(BodyFields(flow)), map[]);
    PreviousOk(flows, j);
    forall s | s in previous
      ensures !SpelledOut(t, s.value)
    {
      LiftAllClears(StartTemplate(flow), previous, s);
    }
    BodySentIs(flows, j);
  }

  lemma {:induction false} StepFacts(flows: seq<Flow>, j: nat)
    requires Runnable(flows) && j < |flows| && flows[j].included && flows[j].request.Some?
    ensures PlainInputs(BodyFields(flows[j])) && KeepApart(UsesAt(flows, j), InputRefs(BodyFields(flows[j])))
    ensures Decoded(Obj(BodyFields(flows[j])))
    ensures BodyStored(flows, j) ==> HasInput(BodyFields(flows[j])) || ValidUtf8(flows[j].request.value.text)
  {
    hide UsesAt, BodyFields, PlainInputs, KeepApart, InputRefs, BodyStored, CanonicalBody;
    assert StepOk(flows, j) && DocumentsOk(flows[j]);
  }

  lemma {:induction false} UsesCoverBody(flows: seq<Flow>, j: nat)
    requires j < |flows| && flows[j].included && BodyLooked(flows[j])
    ensures
      var previous := DraftOf(flows, j).previous;
      (forall s :: s in BodyUses(StartText(flows[j]), previous) ==> s in UsesAt(flows, j)) &&
      (UsesAt(flows, j) == [] ==> BodyUses(StartText(flows[j]), previous) == [])
  {
    hide DraftAfter, StartText, BodyText;
    StartIs(flows, j);
  }

  lemma {:induction false} BodySentIs(flows: seq<Flow>, j: nat)
    requires Runnable(flows) && j < |flows| && flows[j].included && BodyLooked(flows[j])
    ensures BodySent(flows, j) == BindBody(StartText(flows[j]), DraftOf(flows, j).previous)
  {
    hide DraftAfter, Runnable, Compiled, KeepApart, StepOk, DocumentsOk, BodyTemplateText, Marshal;
    var flow, previous := flows[j], DraftOf(flows, j).previous;
    StepFacts(flows, j);
    StartRenders(flows, j);
    StartIs(flows, j);
    UsesCoverBody(flows, j);
    CompiledOverrides(flows, j);
    if UsesAt(flows, j) == [] {
      NothingBound(StartText(flow), previous);
    } else {
      UsesValid(flows, j);
      BindBodyValid(StartText(flow), previous);
      CoercedKeeps(BindBody(StartText(flow), previous));
    }
  }

  // ----- drafting

  /** Flow `j` has an input of that name. */
  predicate Gives(flows: seq<Flow>, j: int, f: Field)
  {
    0 <= j < |flows| && f in BodyFields(flows[j]) && IsInput(f)
  }

  ghost predicate GivesName(flows: seq<Flow>, j: int, name: string)
  {
    exists f :: Gives(flows, j, f) && f.name == name
  }

  /** No later flow has an input of that name. */
  ghost predicate GivesLast(flows: seq<Flow>, j: int, f: Field)
  {
    Gives(flows, j, f) && forall i :: j < i < |flows| ==> !GivesName(flows, i, f.name)
  }

  lemma {:induction false} FieldDefaultsWhere(fields: seq<Field>, m: map<string, string>, name: string)
    ensures name in FieldDefaults(fields, m)
            <==> name in m || exists f :: f in fields && IsInput(f) && f.name == name
    ensures (name in m && forall f :: f in fields && IsInput(f) ==> f.name != name) ==>
      name in FieldDefaults(fields, m) && FieldDefaults(fields, m)[name] == m[name]
    decreases |fields|
  {
    if fields != [] {
      assert fields == [fields[0]] + fields[1..];
      var next := if IsInput(fields[0]) then m[fields[0].name := fields[0].value.s] else m;
      FieldDefaultsWhere(fields[1..], next, name);
    }
  }

  lemma {:induction false} FieldDefaultsValue(fields: seq<Field>, m: map<string, string>, f: Field)
    requires f in fields && IsInput(f) && DistinctNames(Obj(fields))
    ensures f.name in FieldDefaults(fields, m) && FieldDefaults(fields, m)[f.name] == f.value.s
    decreases |fields|
  {
    assert fields == [fields[0]] + fields[1..];
    var next := if IsInput(fields[0]) then m[fields[0].name := fields[0].value.s] else m;
    if f == fields[0] {
      FieldDefaultsWhere(fields[1..], next, f.name);
    } else {
      assert DistinctNames(Obj(fields[1..]));
      FieldDefaultsValue(fields[1..], next, f);
    }
  }

  lemma {:induction false} GivesBefore(flows: seq<Flow>, n: nat, j: int, name: string)
    requires n <= |flows| && j < n
    ensures GivesName(flows[..n], j, name) <==> GivesName(flows, j, name)
  {
    hide BodyFields, IsInput;
    if f :| Gives(flows, j, f) && f.name == name { assert Gives(flows[..n], j, f); }
    if f :| Gives(flows[..n], j, f) && f.name == name { assert Gives(flows, j, f); }
  }

  /** The inputs with a default are those of the flows' bodies, and each has the value it has in the last flow with
      it. */
  lemma {:induction false} DefaultsExactly(flows: seq<Flow>, name: string)
    ensures name in Defaults(flows) <==> exists j :: GivesName(flows, j, name)
  {
    hide BodyFields, IsInput, FieldDefaults;
    if flows != [] {
      var n := |flows| - 1;
      DefaultsExactly(flows[..n], name);
      FieldDefaultsWhere(BodyFields(flows[n]), Defaults(flows[..n]), name);
      if j :| GivesName(flows[..n], j, name) {
        GivesBefore(flows, n, j, name);
      }
      if j :| GivesName(flows, j, name) {
        if j < n { GivesBefore(flows, n, j, name); }
      }
      if f :| f in BodyFields(flows[n]) && IsInput(f) && f.name == name {
        assert Gives(flows, n, f) && GivesName(flows, n, name);
      }
    }
  }

  lemma {:induction false} LastDefault(flows: seq<Flow>, j: nat, f: Field)
    requires GivesLast(flows, j, f) && DistinctNames(Obj(BodyFields(flows[j])))
    ensures f.name in Defaults(flows) && Defaults(flows)[f.name] == f.value.s
  {
    hide BodyFields, IsInput, FieldDefaults, DistinctNames;
    var n := |flows| - 1;
    if j == n {
      FieldDefaultsValue(BodyFields(flows[n]), Defaults(flows[..n]), f);
    } else {
      assert Gives(flows[..n], j, f);
      forall i | j < i < n
        ensures !GivesName(flows[..n], i, f.name)
      {
        GivesBefore(flows, n, i, f.name);
      }
      LastDefault(flows[..n], j, f);
      FieldDefaultsWhere(BodyFields(flows[n]), Defaults(flows[..n]), f.name);
      assert !GivesName(flows, n, f.name);
      forall g | g in BodyFields(flows[n]) && IsInput(g)
        ensures g.name != f.name
      {
        assert Gives(flows, n, g);
      }
    }
  }

  /** A compiled step names its flow and asserts nothing but a status: the captured one if it was a success, else one
      of four. */
  lemma {:induction false} StepsExactly(flows: seq<Flow>, j: nat)
    requires j < |flows|
    ensures
      var step, status := Compiled(flows)[j], flows[j].status;
      step.id == StepId(j + 1) && step.flowId == flows[j].id && step.included == flows[j].included &&
      step.headerNames == [] && step.needles == [] && step.jsonPaths == [] && step.statuses != [] &&
      forall x :: x in step.statuses <==>
        if 200 <= status < 400 then x == status else x == 200 || x == 201 || x == 202 || x == 204
  {
    hide DraftAfter;
    InvariantHolds(flows, |flows|);
    assert SameIdentity(Compiled(flows)[j], DraftStep(flows[j], j));
    SameColumns(Compiled(flows)[j], DraftStep(flows[j], j));
    var a, b := Compiled(flows)[j].(overrides := Absent, extract := map[]), DraftStep(flows[j], j);
    assert a.id == b.id && a.flowId == b.flowId && a.included == b.included;
  }

  /** A step is given overrides exactly when it is included, and has inputs or a bound source. */
  lemma {:induction false} OverriddenExactly(flows: seq<Flow>, j: nat)
    requires j < |flows|
    ensures Compiled(flows)[j].overrides.Present?
            <==> flows[j].included && (HasInput(BodyFields(flows[j])) || UsesAt(flows, j) != [])
    ensures !Compiled(flows)[j].overrides.Present? ==> Compiled(flows)[j].overrides == Absent
  {
    hide DraftAfter, BodyFields, BodyTemplateText, Marshal;
    CompiledOverrides(flows, j);
  }

  /** Overrides replace headers and the body alone, and headers only where something was bound. */
  lemma {:induction false} OverridesTouch(flows: seq<Flow>, j: nat)
    requires j < |flows| && Compiled(flows)[j].overrides.Present?
    ensures
      var o := Compiled(flows)[j].overrides.o;
      o.query == map[] && (UsesAt(flows, j) == [] ==> o.headers == map[]) &&
      (o.body.None? ==> !HasInput(BodyFields(flows[j])))
  {
    hide DraftAfter, BodyFields, BodyTemplateText, Marshal;
    CompiledOverrides(flows, j);
  }

  /** The id of step `n` is `step_` and `n` in decimal, with at least two digits. */
  lemma {:induction false} StepIdExactly(n: nat)
    ensures "step_" <= StepId(n) && |StepId(n)| == if n < 100 then 7 else 5 + |Decimal(n)|
    ensures (forall c :: c in StepId(n)[5..] ==> IsDigit(c)) && Value(StepId(n)[5..]) == n
  {
    hide Value;
    var d := Decimal(n);
    PaddedValue(d);
    ValueOfDecimal(n);
    assert n < 10 ==> ("step_" + "0" + d)[5..] == "0" + d;
    assert n >= 10 ==> "step_" + "" + d == "step_" + d && ("step_" + d)[5..] == d;
    assert 10 <= n < 100 ==> |d| == 2 by { assert 10 <= n < 100 ==> |Decimal(n / 10)| == 1; }
  }
}
