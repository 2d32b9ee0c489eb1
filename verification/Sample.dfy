/** A capture that meets every condition of the replay theorem and binds something: the second request sends, in a
    header, what the first response returned. */
module Sample {
  import opened Text
  import opened Options
  import opened Json
  import opened Paths
  import opened Templates
  import opened Sources
  import opened Compiler
  import opened Bindings
  import opened Utf8
  import opened Lifting
  import opened Fidelity
  import Keys

  const ANSWER := Obj([Field("id", Str("abcd"))])

  const FIRST := Flow("first", true, 200, [], None, Some(Message("{\"id\":\"abcd\"}", Some(ANSWER))))

  const SECOND := Flow("second", true, 200, [Header("X-Id", ["abcd"])], None, None)

  const CAPTURE: seq<Flow> := [FIRST, SECOND]

  const FOUND := Source("step_01", "id", "$.id", "abcd")

  lemma {:induction false} Letters(s: string)
    requires s == "id" || s == "abcd" || s == "$.id"
    ensures ValidUtf8(s)
  {
    AsciiIsValid(s);
  }

  lemma {:induction false} KeyOfId()
    ensures ExtractionKey("$.id") == "id"
  {
    assert "$.id"[2..] == "id";
    Keys.FlattenPlain("id");
    assert TrimLeft("id", '_') == "id" && TrimRight("id", '_') == "id";
    assert |Lower("id")| == 2 by {
      assert "id"[1..] == "d" && "d"[1..] == "";
    }
    forall i | 0 <= i < |SENSITIVE_WORDS|
      ensures !Contains(Lower("id"), SENSITIVE_WORDS[i])
    {
      TooShort(Lower("id"), SENSITIVE_WORDS[i]);
    }
  }

  lemma {:induction false} Walked()
    ensures Walk(ANSWER, []) == [Found([Key("id")], Str("abcd"))]
  {
    var f := Field("id", Str("abcd"));
    assert [f][1..] == [];
    assert [] + [Key("id")] == [Key("id")];
    assert WalkFields([], []) == [];
    assert Walk(Str("abcd"), [Key("id")]) == [Found([Key("id")], Str("abcd"))];
  }

  lemma {:induction false} PathOfId()
    ensures PathText([Key("id")]) == "$.id"
  {
    assert [Key("id")][1..] == [];
    assert Spell([Key("id")]) == ".id" by { assert "." + "id" + "" == ".id"; }
  }

  lemma {:induction false} Offers()
    ensures Walk(ANSWER, []) == [Found([Key("id")], Str("abcd"))]
    ensures PrimitiveSources("step_01", ANSWER) == [FOUND]
  {
    hide Walk, PathText, ExtractionKey;
    Walked();
    PathOfId();
    KeyOfId();
    var found := [Found([Key("id")], Str("abcd"))];
    assert found[1..] == [];
    assert SourcesOf("step_01", found) == [FOUND];
  }

  lemma {:induction false} FirstId()
    ensures StepId(1) == "step_01"
  {
    assert Decimal(1) == "1";
    assert "step_" + "0" + "1" == "step_01";
  }

  lemma {:induction false} Collected()
    ensures Collect([], [FOUND]) == [FOUND]
  {
    var none: seq<Source> := [];
    assert [FOUND][1..] == [];
    assert Useful("abcd");
    assert Matching(none, "abcd") == None;
    assert none + [FOUND] == [FOUND];
  }

  lemma {:induction false} AfterFirst()
    ensures DraftOf(CAPTURE, 1).steps == DraftSteps(CAPTURE) && DraftOf(CAPTURE, 1).previous == [FOUND]
    ensures UsesAt(CAPTURE, 0) == []
  {
    var steps := DraftSteps(CAPTURE);
    assert DraftOf(CAPTURE, 0) == Draft(steps, []);
    assert steps[0 := steps[0].(overrides := steps[0].overrides)] == steps;
    FirstId();
    Offers();
    Collected();
  }

  lemma {:induction false} HeaderBound()
    ensures HeaderPairs(SECOND.headers) == [("X-Id", "abcd")] && HeaderUses([("X-Id", "abcd")], [FOUND]) == [FOUND]
  {
    var pairs := [("X-Id", "abcd")];
    assert SECOND.headers[1..] == [];
    assert ValuePairs(SECOND.headers[0]) == pairs && pairs + [] == pairs;
    assert Matching([FOUND], "abcd") == Some(FOUND);
    assert pairs[1..] == [];
  }

  lemma {:induction false} Bound()
    ensures UsesAt(CAPTURE, 1) == [FOUND] && UsedBefore(CAPTURE, 2) == [FOUND]
  {
    hide DraftAfter, HeaderPairs, HeaderUses, PrimitiveSources;
    AfterFirst();
    HeaderBound();
    assert [FOUND] + [] == [FOUND];
    BothUses();
  }

  lemma {:induction false} BothUses()
    ensures UsedBefore(CAPTURE, 2) == UsesAt(CAPTURE, 0) + UsesAt(CAPTURE, 1)
  {
    hide UsesAt;
    assert UsedBefore(CAPTURE, 1) == [] + UsesAt(CAPTURE, 0);
  }

  lemma {:induction false} NoInputs()
    ensures BodyFields(FIRST) == [] && BodyFields(SECOND) == [] && Defaults(CAPTURE) == map[]
  {
    assert CAPTURE[..1] == [FIRST] && [FIRST][..0] == [];
    assert Defaults([FIRST]) == map[];
  }

  lemma {:induction false} PlacedFirst()
    ensures SourceAtPlace(FIRST, FOUND, 0)
  {
    hide Walk, PrimitiveSources;
    Offers();
  }

  lemma {:induction false} NothingFromSecond()
    ensures !OfferedAt(CAPTURE, 1, FOUND)
  {
    hide PrimitiveSources;
    assert Offered(DraftStep(SECOND, 1), SECOND) == [];
  }

  lemma {:induction false} Placed()
    ensures AtAddressablePlace(CAPTURE, FOUND)
  {
    hide OfferedAt, SourceAtPlace;
    PlacedFirst();
    NothingFromSecond();
    forall i | 0 <= i < |CAPTURE| && OfferedAt(CAPTURE, i, FOUND)
      ensures exists k :: SourceAtPlace(CAPTURE[i], FOUND, k)
    {
      assert i == 0 && CAPTURE[0] == FIRST;
    }
  }

  lemma {:induction false} FoundSpelled()
    ensures Placeholder(RefOf(FOUND)) == "${steps.step_01.id}"
  {
  }

  lemma {:induction false} FoundIsApart()
    ensures Apart("abcd", RefOf(FOUND))
  {
    hide Contains, Placeholder;
    FoundSpelled();
    assert 'a' in "abcd" by { assert "abcd"[0] == 'a'; }
    LacksLetter("${steps.step_01.id}", "abcd", 'a');
  }

  lemma {:induction false} FoundIsGood()
    ensures GoodRef(RefOf(FOUND))
  {
  }

  lemma {:induction false} DocumentsAreOk()
    ensures DocumentsOk(FIRST) && DocumentsOk(SECOND)
  {
    hide ValidUtf8;
    Letters("id");
    Letters("abcd");
    NoInputs();
  }

  lemma {:induction false} BodylessStepOk(flows: seq<Flow>, j: nat)
    requires j < |flows| && flows[j].request == None && 200 <= flows[j].status < 400 && KeepApart(UsesAt(flows, j), {})
    ensures StepOk(flows, j)
  {
    hide UsesAt, KeepApart, Defaults, BodyStored;
    assert BodyFields(flows[j]) == [];
  }

  lemma {:induction false} FoundKeepsApart()
    ensures KeepApart([FOUND], {}) && KeepApart([], {})
  {
    hide Apart;
    FoundIsApart();
  }

  lemma {:induction false} StepsAreOk()
    ensures StepOk(CAPTURE, 0) && StepOk(CAPTURE, 1)
  {
    hide UsesAt, StepOk, KeepApart;
    AfterFirst();
    Bound();
    FoundKeepsApart();
    BodylessStepOk(CAPTURE, 0);
    BodylessStepOk(CAPTURE, 1);
  }

  /** The replay theorem applies to it, and its second request is bound. */
  lemma {:induction false} SampleIsReplayable()
    ensures Replayable(CAPTURE) && UsesAt(CAPTURE, 1) == [FOUND]
  {
    hide UsesAt, UsedBefore, Defaults, DocumentsOk, StepOk, AtAddressablePlace, GoodRef, RefOf;
    Bound();
    NoInputs();
    Placed();
    FoundIsGood();
    DocumentsAreOk();
    StepsAreOk();
  }
}
