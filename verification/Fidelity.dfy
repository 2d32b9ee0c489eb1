/** Compile, then run: what leaves for the server. */
module Fidelity {
  import opened Text
  import opened Options
  import opened Json
  import opened Paths
  import opened Templates
  import opened Sources
  import opened JsonText
  import opened Compiler
  import opened Bindings
  import opened Extraction
  import opened Decoding
  import opened JsonReader
  import opened Utf8
  import opened Lifting
  import opened Runner

  // ----- every inserted reference is defined when it is used

  /** For every capture, every engine behaviour and every request that leaves: the references the compiler inserted
      into that step all have a value at that moment. */
  lemma {:induction false} EveryBindingIsDefined(
      flows: seq<Flow>, params: Params, outcomes: nat -> Outcome, n: nat, s: Source)
    requires n < |Run(Compiled(flows), params, outcomes).sends|
    requires
      var send := Run(Compiled(flows), params, outcomes).sends[n];
      send.step < |flows| ==> s in UsesAt(flows, send.step)
    ensures
      var send := Run(Compiled(flows), params, outcomes).sends[n];
      send.step < |flows| && RefOf(s) in Env(params.inputs, send.outputs)
  {
    hide DraftAfter, UsesAt, RunFrom;
    var steps := Compiled(flows);
    CompiledTables(flows);
    SendsProvided(steps, 0, START, params, outcomes);
    var send := Run(steps, params, outcomes).sends[n];
    assert SendOk(steps, send);
    var i := BindingsPointBack(flows, send.step, s);
    assert s.step in send.outputs && s.key in send.outputs[s.step];
  }

  lemma {:induction false} FieldHasDefault(fields: seq<Field>, m: map<string, string>, name: string)
    requires name in m || exists f :: f in fields && IsInput(f) && f.name == name
    ensures name in FieldDefaults(fields, m)
    decreases |fields|
  {
    if fields != [] {
      var next := if IsInput(fields[0]) then m[fields[0].name := fields[0].value.s] else m;
      if f :| f in fields && IsInput(f) && f.name == name {
        assert f == fields[0] || f in fields[1..];
      }
      FieldHasDefault(fields[1..], next, name);
    }
  }

  /** Every input of every request has a default. */
  lemma {:induction false} InputHasDefault(flows: seq<Flow>, j: nat, f: Field)
    requires j < |flows| && f in BodyFields(flows[j]) && IsInput(f)
    ensures f.name in Defaults(flows)
  {
    var n := |flows| - 1;
    if j < n { InputHasDefault(flows[..n], j, f); }
    FieldHasDefault(BodyFields(flows[n]), Defaults(flows[..n]), f.name);
  }

  /** For every capture, every engine behaviour and every request that leaves: an input the compiler inserted into
      that step has a value at that moment exactly when the run was given one, as the defaults do. */
  lemma {:induction false} EveryInputIsDefined(
      flows: seq<Flow>, params: Params, outcomes: nat -> Outcome, n: nat, f: Field)
    requires n < |Run(Compiled(flows), params, outcomes).sends|
    requires
      var send := Run(Compiled(flows), params, outcomes).sends[n];
      send.step < |flows| ==> f in BodyFields(flows[send.step]) && IsInput(f)
    ensures
      var send := Run(Compiled(flows), params, outcomes).sends[n];
      (Input(f.name) in Env(params.inputs, send.outputs) <==> f.name in params.inputs) &&
      (Defaults(flows).Keys <= params.inputs.Keys ==> Input(f.name) in Env(params.inputs, send.outputs))
  {
    hide DraftAfter, RunFrom, BodyFields, Defaults, Compiled;
    CompiledTables(flows);
    SendsProvided(Compiled(flows), 0, START, params, outcomes);
    var send := Run(Compiled(flows), params, outcomes).sends[n];
    assert SendOk(Compiled(flows), send);
    InputHasDefault(flows, send.step, f);
    assert Input(f.name) in Env(params.inputs, send.outputs) <==> Known(Input(f.name), params.inputs, send.outputs);
  }

  // ----- the conditions on a capture

  /** The body a replay is expected to send: the object marshalled again if it has inputs, else the captured bytes. */
  function CanonicalBody(flow: Flow): string
    requires flow.request.Some?
  {
    if HasInput(BodyFields(flow)) then Marshal(Obj(BodyFields(flow))) else flow.request.value.text
  }

  /** The references standing for the inputs of a body. */
  function InputRefs(fields: seq<Field>): (refs: set<Ref>)
    ensures forall f :: f in fields && IsInput(f) ==> Input(f.name) in refs
    ensures forall q :: q in refs ==> exists f :: f in fields && IsInput(f) && q == Input(f.name)
  {
    if fields == [] then {}
    else
      assert fields == [fields[0]] + fields[1..];
      (if IsInput(fields[0]) then {Input(fields[0].name)} else {}) + InputRefs(fields[1..])
  }

  /** The defaults of the workflow are the captured values: requests with an input of one name agree on it. */
  ghost predicate InputsAgree(flows: seq<Flow>, flow: Flow)
  {
    forall f :: f in BodyFields(flow) && IsInput(f) ==>
      f.name in Defaults(flows) && Defaults(flows)[f.name] == f.value.s
  }

  /** The `k`-th source offered by a response is `s`, and its place is addressable. */
  ghost predicate SourceAtPlace(flow: Flow, s: Source, k: nat)
  {
    ResponseDocument(flow).Some? &&
    var root := ResponseDocument(flow).value;
    k < |PrimitiveSources(s.step, root)| && PrimitiveSources(s.step, root)[k] == s &&
    k < |Walk(root, [])| && Addressable(Walk(root, [])[k].at)
  }

  /** A bound source sits at an addressable place of the response that offers it. */
  ghost predicate AtAddressablePlace(flows: seq<Flow>, s: Source)
  {
    forall i :: 0 <= i < |flows| && OfferedAt(flows, i, s) ==> exists k :: SourceAtPlace(flows[i], s, k)
  }

  /** The compiler stores a body for the step: for its inputs, or because something was bound. */
  ghost predicate BodyStored(flows: seq<Flow>, j: nat)
    requires j < |flows|
  {
    HasInput(BodyFields(flows[j])) || (UsesAt(flows, j) != [] && BodyInRange(flows[j]))
  }

  ghost predicate StepOk(flows: seq<Flow>, j: nat)
    requires j < |flows|
  {
    var flow := flows[j];
    PlainInputs(BodyFields(flow)) && KeepApart(UsesAt(flows, j), InputRefs(BodyFields(flow))) &&
    (flow.request.Some? && BodyStored(flows, j) ==>
       !Contains(CanonicalBody(flow), "${") && (HasInput(BodyFields(flow)) || ValidUtf8(flow.request.value.text)))
  }

  /** Documents come from Go's decoder: one entry per key, and valid UTF-8 throughout. */
  ghost predicate DocumentsOk(flow: Flow)
  {
    (ResponseDocument(flow).Some? ==> DistinctNames(ResponseDocument(flow).value)) &&
    (ResponseDocument(flow).Some? ==> Decoded(ResponseDocument(flow).value)) &&
    DistinctNames(Obj(BodyFields(flow))) && Decoded(Obj(BodyFields(flow)))
  }

  /** The captures whose requests a replay can make at all:
      - keys of inputs and of bound sources hold no `$` and no `}`, so placeholders can be told apart;
      - bound values hold neither, and do not occur inside a placeholder of the step they are bound into;
      - bound values sit at addressable places;
      - input values and names need no JSON escapes;
      - stored bodies do not contain the two characters that open a placeholder, and are valid UTF-8. */
  ghost predicate Runnable(flows: seq<Flow>)
  {
    (forall i :: 0 <= i < |flows| ==> DocumentsOk(flows[i])) &&
    (forall k :: k in Defaults(flows) ==> GoodRef(Input(k))) &&
    (forall s :: s in UsedBefore(flows, |flows|) ==> GoodRef(RefOf(s)) && AtAddressablePlace(flows, s)) &&
    (forall j :: 0 <= j < |flows| && flows[j].included ==> StepOk(flows, j))
  }

  /** Those in which every reference to an output stands for the captured value: bound sources of one name carry one
      value. */
  ghost predicate Resolvable(flows: seq<Flow>)
  {
    Runnable(flows) && NamesAgree(UsedBefore(flows, |flows|))
  }

  /** Those whose bound requests it reproduces: requests with an input of one name agree on it, besides. */
  ghost predicate Replayable(flows: seq<Flow>)
  {
    Resolvable(flows) && forall j :: 0 <= j < |flows| && flows[j].included ==> InputsAgree(flows, flows[j])
  }

  // ----- the server that answers as captured

  function CallOf(flows: seq<Flow>, i: nat): nat
    requires i <= |flows|
  {
    if i == 0 then 0 else CallOf(flows, i - 1) + if flows[i - 1].included then 1 else 0
  }

  predicate Succeeded(status: int) { 200 <= status < 400 }

  /** Objects are decoded into maps, so a document may list its members in another order. */
  ghost predicate SameReply(captured: Option<Json>, answered: Option<Json>)
  {
    if captured.Some? then answered.Some? && SameDocument(captured.value, answered.value) else answered == None
  }

  /** The engine's answer for an included step carries the captured status and response document. */
  ghost predicate AnswersAsCaptured(flow: Flow, outcome: Outcome)
  {
    outcome.Replied? && (outcome.replay.ok <==> Succeeded(flow.status)) && outcome.replay.error == "" &&
    outcome.replay.status == flow.status &&
    outcome.replay.extracted.Got? && SameReply(ResponseDocument(flow), outcome.replay.extracted.response.document)
  }

  /** The server answers as captured: each step the run gets to, and again the retry of a step whose captured status
      makes the runner refresh authentication; the refresh itself may be answered in any way. */
  ghost predicate Captured(flows: seq<Flow>, refreshFlow: string, outcomes: nat -> Outcome)
  {
    forall i :: 0 <= i < |flows| && flows[i].included && GotTo(flows, i) ==>
      AnswersAsCaptured(flows[i], outcomes(CallOf(flows, i))) &&
      (refreshFlow != "" && AuthFailure(flows[i].status) ==>
         AnswersAsCaptured(flows[i], outcomes(CallOf(flows, i) + 2)))
  }

  ghost predicate AllSucceeded(flows: seq<Flow>)
  {
    forall j :: 0 <= j < |flows| && flows[j].included ==> Succeeded(flows[j].status)
  }

  /** Every included step before `j` was captured with a success. */
  ghost predicate GotTo(flows: seq<Flow>, j: nat)
  {
    forall i :: 0 <= i < j && i < |flows| && flows[i].included ==> Succeeded(flows[i].status)
  }

  // ----- extraction gives the captured values back

  lemma {:induction false} OfferedOnce(flows: seq<Flow>, i: nat, k: nat, s: Source)
    requires i < |flows| && k < |flows| && OfferedAt(flows, i, s) && s.step == StepId(k + 1)
    ensures i == k
  {
    StepIdsDiffer(i + 1, k + 1);
  }

  /** A bound source's path, read in its captured response, gives a scalar that prints its value. */
  lemma {:induction false} BoundSourceReadsBack(flows: seq<Flow>, i: nat, s: Source)
    requires Runnable(flows) && i < |flows|
    requires s in UsedBefore(flows, |flows|) && s.step == StepId(i + 1)
    ensures ResponseDocument(flows[i]).Some? && flows[i].included
    ensures
      var v := ReadPath(ResponseDocument(flows[i]).value, s.path);
      v.Some? && Scalar(v.value) && Sprint(v.value) == s.value
  {
    hide DraftAfter;
    var j := UsedWhere(flows, |flows|, s);
    var origin := UseOrigin(flows, j, s);
    OfferedOnce(flows, origin, i, s);
    assert DocumentsOk(flows[i]);
    var k :| SourceAtPlace(flows[i], s, k);
    SourceReadsBack(s.step, ResponseDocument(flows[i]).value, k);
    WalkSound(ResponseDocument(flows[i]).value, ResponseDocument(flows[i]).value, [], k);
  }

  /** An entry of the final table reads, in its captured response, what some bound source of that name carries. */
  lemma {:induction false} EntryReadsBack(flows: seq<Flow>, i: nat, key: string) returns (t: Source)
    requires Runnable(flows) && i < |flows| && key in Compiled(flows)[i].extract
    ensures t in UsedBefore(flows, |flows|) && t.step == StepId(i + 1) && t.key == key
    ensures
      var v := ReadBody(CapturedResponse(flows[i]), Compiled(flows)[i].extract[key]);
      v.Some? && Scalar(v.value) && Sprint(v.value) == t.value
  {
    hide DraftAfter, Runnable;
    var step, used := Compiled(flows)[i], UsedBefore(flows, |flows|);
    CompiledTables(flows);
    assert TableOk(step, used);
    t :| t in used && t.step == step.id && t.key == key && t.path == step.extract[key];
    BoundSourceReadsBack(flows, i, t);
  }

  /** A scalar read in the captured response is read in any answer with the same document. */
  lemma {:induction false} AnswerReads(flow: Flow, response: Response, path: string)
    requires SameReply(ResponseDocument(flow), response.document)
    requires ReadBody(CapturedResponse(flow), path).Some? && Scalar(ReadBody(CapturedResponse(flow), path).value)
    ensures ReadBody(response, path) == ReadBody(CapturedResponse(flow), path)
  {
    SameRead(ResponseDocument(flow).value, response.document.value, path);
  }

  function CapturedResponse(flow: Flow): Response
  {
    Response("", ResponseDocument(flow), map[])
  }

  lemma {:induction false} ExtractAll(step: WorkflowStep, response: Response)
    requires forall key :: key in step.extract ==> ReadBody(response, step.extract[key]).Some?
    ensures Extracted(step, Got(response)).Some?
    ensures Extracted(step, Got(response)).value.Keys == step.extract.Keys
    ensures forall key :: key in step.extract ==>
      Extracted(step, Got(response)).value[key] == Sprint(ReadBody(response, step.extract[key]).value)
  {
    forall path | path in step.extract.Values
      ensures ReadBody(response, path).Some?
    {
      var key :| key in step.extract && step.extract[key] == path;
    }
    assert AllReadable(step.extract.Values, response);
  }

  /** A step extracts everything from its captured response, and the same from any answer with the same document. */
  lemma {:induction false} ExtractsAll(flows: seq<Flow>, i: nat, response: Response)
    requires Runnable(flows) && i < |flows| && SameReply(ResponseDocument(flows[i]), response.document)
    ensures
      var r := Extracted(Compiled(flows)[i], Got(response));
      r == Extracted(Compiled(flows)[i], Got(CapturedResponse(flows[i]))) && r.Some? &&
      r.value.Keys == Compiled(flows)[i].extract.Keys &&
      forall key :: key in r.value ==>
        r.value[key] == Sprint(ReadBody(CapturedResponse(flows[i]), Compiled(flows)[i].extract[key]).value)
  {
    hide Runnable, DraftAfter, Compiled, SameReply, ReadBody;
    var step, captured := Compiled(flows)[i], CapturedResponse(flows[i]);
    forall key | key in step.extract
      ensures ReadBody(captured, step.extract[key]).Some?
      ensures ReadBody(response, step.extract[key]) == ReadBody(captured, step.extract[key])
    {
      var t := EntryReadsBack(flows, i, key);
      AnswerReads(flows[i], response, step.extract[key]);
    }
    ExtractAll(step, captured);
    ExtractAll(step, response);
    assert Extracted(step, Got(response)).value == Extracted(step, Got(captured)).value;
  }

  lemma {:induction false} CapturedExtracts(flows: seq<Flow>, i: nat)
    requires Runnable(flows) && i < |flows|
    ensures
      var r := Extracted(Compiled(flows)[i], Got(CapturedResponse(flows[i])));
      r.Some? && r.value.Keys == Compiled(flows)[i].extract.Keys &&
      forall key :: key in r.value ==>
        r.value[key] == Sprint(ReadBody(CapturedResponse(flows[i]), Compiled(flows)[i].extract[key]).value)
  {
    hide DraftAfter, Compiled, Extracted, ReadBody, SameReply;
    assert DocumentsOk(flows[i]);
    SameAsCaptured(flows[i]);
    ExtractsAll(flows, i, CapturedResponse(flows[i]));
  }

  lemma {:induction false} SameAsCaptured(flow: Flow)
    requires DocumentsOk(flow)
    ensures SameReply(ResponseDocument(flow), CapturedResponse(flow).document)
  {
    if ResponseDocument(flow).Some? { SameItself(ResponseDocument(flow).value); }
  }

  lemma {:induction false} SameItself(v: Json)
    requires DistinctNames(v)
    ensures SameDocument(v, v)
    decreases v
  {
    match v {
      case Arr(items) => forall i | 0 <= i < |items| ensures SameDocument(items[i], items[i]) { SameItself(items[i]); }
      case Obj(fields) =>
        forall i | 0 <= i < |fields|
          ensures Find(fields, fields[i].name) == Some(fields[i].value) &&
            SameDocument(fields[i].value, fields[i].value)
        {
          FindAt(fields, i);
          SameItself(fields[i].value);
        }
      case _ =>
    }
  }

  /** What a step extracts from its captured response: for each key the value of the sources bound under it. */
  lemma {:induction false} ExtractedAsCaptured(flows: seq<Flow>, i: nat, s: Source)
    requires Resolvable(flows) && i < |flows| && s in UsedBefore(flows, |flows|) && s.step == StepId(i + 1)
    requires s.key in Compiled(flows)[i].extract
    ensures s.key in OutputsOf(flows, i) && OutputsOf(flows, i)[s.key] == s.value
  {
    hide Runnable, DraftAfter, Compiled, UsedBefore, Extracted;
    CapturedExtracts(flows, i);
    var t := EntryReadsBack(flows, i, s.key);
    assert RefOf(s) == RefOf(t);
  }

  /** What step `i` extracts in a replay. */
  function OutputsOf(flows: seq<Flow>, i: nat): map<string, string>
    requires i < |flows|
  {
    var r := Extracted(Compiled(flows)[i], Got(CapturedResponse(flows[i])));
    if r.Some? then r.value else map[]
  }

  /** The step outputs before step `j` of a replay. */
  function CapturedOutputs(flows: seq<Flow>, j: nat): Outputs
    requires j <= |flows|
  {
    if j == 0 then map[]
    else
      var before := CapturedOutputs(flows, j - 1);
      if flows[j - 1].included then WithOutputs(before, StepId(j), OutputsOf(flows, j - 1)) else before
  }

  /** Recording one step's outputs adds them and leaves every other step's alone. */
  lemma {:induction false} RecordedOutputs(before: Outputs, id: string, more: map<string, string>, step: string)
    ensures step != id && step in before
            ==> step in WithOutputs(before, id, more) && WithOutputs(before, id, more)[step] == before[step]
    ensures more != map[] ==> id in WithOutputs(before, id, more) && WithOutputs(before, id, more)[id] == more
  {
  }

  /** Once recorded, a step's outputs stay. */
  lemma {:induction false} OutputsFixed(flows: seq<Flow>, j: nat, i: nat)
    requires i < j <= |flows| && flows[i].included && OutputsOf(flows, i) != map[]
    ensures StepId(i + 1) in CapturedOutputs(flows, j) &&
      CapturedOutputs(flows, j)[StepId(i + 1)] == OutputsOf(flows, i)
    decreases j
  {
    hide WithOutputs, StepId, OutputsOf;
    RecordedOutputs(CapturedOutputs(flows, j - 1), StepId(j), OutputsOf(flows, j - 1), StepId(i + 1));
    if i < j - 1 {
      OutputsFixed(flows, j - 1, i);
      StepIdsDiffer(i + 1, j);
    }
  }

  lemma {:induction false} GoodOutputsOf(flows: seq<Flow>, i: nat, key: string)
    requires Runnable(flows) && i < |flows| && key in OutputsOf(flows, i)
    ensures GoodRef(Output(StepId(i + 1), key))
  {
    hide DraftAfter, Compiled, Extracted, UsedBefore;
    CapturedExtracts(flows, i);
    var t := EntryReadsBack(flows, i, key);
    assert RefOf(t) == Output(StepId(i + 1), key);
  }

  lemma {:induction false} OutputsWhere(
      before: Outputs, id: string, more: map<string, string>, step: string, key: string)
    requires step in WithOutputs(before, id, more) && key in WithOutputs(before, id, more)[step]
    ensures (step in before && key in before[step]) || (step == id && key in more)
  {
  }

  ghost predicate GoodKeys(flows: seq<Flow>)
  {
    forall i, key :: 0 <= i < |flows| && key in OutputsOf(flows, i) ==> GoodRef(Output(StepId(i + 1), key))
  }

  lemma {:induction false} GoodOutputs(flows: seq<Flow>, j: nat, step: string, key: string)
    requires GoodKeys(flows) && j <= |flows|
    requires step in CapturedOutputs(flows, j) && key in CapturedOutputs(flows, j)[step]
    ensures GoodRef(Output(step, key))
    decreases j
  {
    if j > 0 {
      var before := CapturedOutputs(flows, j - 1);
      if flows[j - 1].included { OutputsWhere(before, StepId(j), OutputsOf(flows, j - 1), step, key); }
      if step in before && key in before[step] { GoodOutputs(flows, j - 1, step, key); }
    }
  }

  function CapturedEnv(flows: seq<Flow>, j: nat): map<Ref, string>
    requires j <= |flows|
  {
    Env(Defaults(flows), CapturedOutputs(flows, j))
  }

  lemma {:induction false} GoodEnv(flows: seq<Flow>, j: nat)
    requires Runnable(flows) && j <= |flows|
    ensures forall q :: q in CapturedEnv(flows, j) ==> GoodRef(q)
  {
    forall i, key | 0 <= i < |flows| && key in OutputsOf(flows, i)
      ensures GoodRef(Output(StepId(i + 1), key))
    {
      GoodOutputsOf(flows, i, key);
    }
    forall q | q in CapturedEnv(flows, j)
      ensures GoodRef(q)
    {
      if q.Output? { GoodOutputs(flows, j, q.step, q.key); }
    }
  }

  lemma {:induction false} BoundValue(flows: seq<Flow>, j: nat, s: Source)
    requires Resolvable(flows) && j < |flows| && s in UsesAt(flows, j)
    ensures RefOf(s) in CapturedEnv(flows, j) && CapturedEnv(flows, j)[RefOf(s)] == s.value
  {
    hide UsesAt, UsedBefore, Resolvable, Compiled, CapturedOutputs, OutputsOf, OfferedAt;
    var i := BindingsPointBack(flows, j, s);
    UsedFrom(flows, j, |flows|, s);
    CompiledTables(flows);
    ExtractedAsCaptured(flows, i, s);
    OutputsFixed(flows, j, i);
  }

  /** At step `j` of a replay every bound source is known by its captured value. */
  lemma {:induction false} BoundValues(flows: seq<Flow>, j: nat)
    requires Resolvable(flows) && j < |flows|
    ensures Binds(CapturedEnv(flows, j), UsesAt(flows, j))
  {
    hide UsesAt, Resolvable, CapturedEnv;
    forall s | s in UsesAt(flows, j)
      ensures RefOf(s) in CapturedEnv(flows, j) && CapturedEnv(flows, j)[RefOf(s)] == s.value
    {
      BoundValue(flows, j, s);
    }
  }

  // ----- the run against the captured server

  /** One attempt at a step, answered as captured. */
  lemma {:induction false} CapturedTry(flows: seq<Flow>, i: nat, params: Params, outcomes: nat -> Outcome, calls: nat)
    requires i < |flows| && AnswersAsCaptured(flows[i], outcomes(calls)) && !params.dryRun
    requires !Compiled(flows)[i].overrides.Garbled?
    ensures
      var a := Try(Compiled(flows)[i], params, outcomes, calls);
      !a.failed && (a.run.ok <==> Succeeded(flows[i].status)) && a.run.status == flows[i].status &&
      a.calls == calls + 1 && a.stored.Got? && SameReply(ResponseDocument(flows[i]), a.stored.response.document)
  {
    hide DraftAfter, SameReply, Compiled;
    CompiledTables(flows);
    SameColumns(Compiled(flows)[i], DraftStep(flows[i], i));
    assert StatusAllowed(flows[i].status, ExpectedStatuses(flows[i].status)) <==> Succeeded(flows[i].status);
  }

  lemma {:induction false} CapturedBlock(flows: seq<Flow>, i: nat, params: Params, outcomes: nat -> Outcome)
    requires Captured(flows, params.refreshFlow, outcomes) && i < |flows| && flows[i].included && !params.dryRun
    requires GotTo(flows, i) && !Compiled(flows)[i].overrides.Garbled?
    ensures
      var block := RunStep(Compiled(flows)[i], params, outcomes, CallOf(flows, i));
      (block.stop == NoError <==> Succeeded(flows[i].status)) &&
      (Succeeded(flows[i].status) ==> block.calls == CallOf(flows, i + 1) && block.stored.Got?) &&
      (Succeeded(flows[i].status) ==> SameReply(ResponseDocument(flows[i]), block.stored.response.document))
  {
    hide DraftAfter, SameReply, Compiled, Try, AnswersAsCaptured;
    var n := CallOf(flows, i);
    CapturedTry(flows, i, params, outcomes, n);
    if params.refreshFlow != "" && AuthFailure(flows[i].status) { CapturedTry(flows, i, params, outcomes, n + 2); }
  }

  lemma {:induction false} SameColumns(a: WorkflowStep, b: WorkflowStep)
    requires SameIdentity(a, b)
    ensures a.statuses == b.statuses && a.headerNames == b.headerNames && a.needles == b.needles &&
      a.jsonPaths == b.jsonPaths
  {
    var x, y := a.(overrides := Absent, extract := map[]), b.(overrides := Absent, extract := map[]);
    assert x.statuses == a.statuses && x.headerNames == a.headerNames && x.needles == a.needles &&
      x.jsonPaths == a.jsonPaths;
    assert y.statuses == b.statuses && y.headerNames == b.headerNames && y.needles == b.needles &&
      y.jsonPaths == b.jsonPaths;
  }

  /** The stored overrides of a compiled step. */
  lemma {:induction false} CompiledOverrides(flows: seq<Flow>, j: nat)
    requires j < |flows|
    ensures
      var d := DraftOf(flows, j);
      d.steps[j].overrides == DraftStep(flows[j], j).overrides && d.steps[j].included == flows[j].included &&
      Compiled(flows)[j].overrides == BoundOverrides(d.steps[j], flows[j], d.previous) &&
      !Compiled(flows)[j].overrides.Garbled?
  {
    OverridesWait(flows, j, j);
    OverridesStay(flows, j, |flows|);
    InvariantHolds(flows, j);
    IdentifiedIds(flows, DraftOf(flows, j).steps);
  }

  lemma {:induction false} ReplayedStepPasses(flows: seq<Flow>, i: nat, params: Params, outcomes: nat -> Outcome)
    requires Runnable(flows) && Captured(flows, params.refreshFlow, outcomes) && !params.dryRun
    requires i < |flows| && flows[i].included && Succeeded(flows[i].status) && GotTo(flows, i)
    ensures
      var block := RunStep(Compiled(flows)[i], params, outcomes, CallOf(flows, i));
      block.stop == NoError && block.calls == CallOf(flows, i + 1) &&
      Extracted(Compiled(flows)[i], block.stored) == Some(OutputsOf(flows, i))
  {
    hide Runnable, DraftAfter, Compiled, RunStep, Extracted, SameReply;
    CompiledOverrides(flows, i);
    CapturedBlock(flows, i, params, outcomes);
    ExtractsAll(flows, i, RunStep(Compiled(flows)[i], params, outcomes, CallOf(flows, i)).stored.response);
  }

  function CallTable(flows: seq<Flow>): (t: seq<nat>)
    ensures |t| == |flows| + 1 && forall i :: 0 <= i <= |flows| ==> t[i] == CallOf(flows, i)
  {
    seq(|flows| + 1, i requires 0 <= i <= |flows| => CallOf(flows, i))
  }

  function OutputTable(flows: seq<Flow>): (t: seq<Outputs>)
    ensures |t| == |flows| + 1 && forall i :: 0 <= i <= |flows| ==> t[i] == CapturedOutputs(flows, i)
  {
    seq(|flows| + 1, i requires 0 <= i <= |flows| => CapturedOutputs(flows, i))
  }

  /** The number of steps a replay looks at: up to and including the first one captured with a failure. */
  function ReachedFrom(flows: seq<Flow>, i: nat): (n: nat)
    requires i <= |flows|
    ensures i <= n <= |flows|
    decreases |flows| - i
  {
    if i == |flows| then i
    else if flows[i].included && !Succeeded(flows[i].status) then i + 1
    else ReachedFrom(flows, i + 1)
  }

  lemma {:induction false} ReachedExactly(flows: seq<Flow>, i: nat)
    requires i <= |flows| && GotTo(flows, i)
    ensures forall j :: i <= j < |flows| ==> (j < ReachedFrom(flows, i) <==> GotTo(flows, j))
    ensures AllSucceeded(flows) ==> ReachedFrom(flows, i) == |flows|
    ensures !AllSucceeded(flows) ==>
      var n := ReachedFrom(flows, i) - 1;
      0 <= n && GotTo(flows, n) && flows[n].included && !Succeeded(flows[n].status)
    decreases |flows| - i
  {
    if i < |flows| && !(flows[i].included && !Succeeded(flows[i].status)) { ReachedExactly(flows, i + 1); }
  }

  lemma {:induction false} PassesUpTo(flows: seq<Flow>, n: nat, params: Params, outcomes: nat -> Outcome)
    requires Runnable(flows) && Captured(flows, params.refreshFlow, outcomes) && !params.dryRun
    requires n <= |flows| && GotTo(flows, n)
    ensures forall i :: 0 <= i < n ==>
      Passes(Compiled(flows), i, CallTable(flows), OutputTable(flows), params, outcomes)
  {
    hide Runnable, DraftAfter, Compiled, RunStep, Extracted, Captured, OutputsOf, WithOutputs;
    CompiledTables(flows);
    forall i | 0 <= i < n
      ensures Passes(Compiled(flows), i, CallTable(flows), OutputTable(flows), params, outcomes)
    {
      if flows[i].included { ReplayedStepPasses(flows, i, params, outcomes); }
    }
  }

  /** A replay passes the steps captured with a success, each sent with the captured outputs so far, and stops with an
      error at the first one captured with a failure, having sent it too. */
  lemma {:induction false} ReplayRuns(flows: seq<Flow>, params: Params, outcomes: nat -> Outcome)
    requires Runnable(flows) && Captured(flows, params.refreshFlow, outcomes) && !params.dryRun
    ensures
      var r := Run(Compiled(flows), params, outcomes);
      (r.ok <==> AllSucceeded(flows)) &&
      r.sends == SendsBetween(Compiled(flows), OutputTable(flows), 0, ReachedFrom(flows, 0))
  {
    hide Runnable, DraftAfter, Compiled, RunStep, Captured, Passes, Run;
    var steps, calls, outs := Compiled(flows), CallTable(flows), OutputTable(flows);
    ReachedExactly(flows, 0);
    if AllSucceeded(flows) {
      PassesUpTo(flows, |flows|, params, outcomes);
      CompleteRun(steps, calls, outs, params, outcomes);
    } else {
      var n := ReachedFrom(flows, 0) - 1;
      CompiledTables(flows);
      PassesUpTo(flows, n, params, outcomes);
      CompiledOverrides(flows, n);
      CapturedBlock(flows, n, params, outcomes);
      StoppedRun(steps, n, calls, outs, params, outcomes);
    }
  }

  /** The same, request by request. */
  lemma {:induction false} ReplaySends(flows: seq<Flow>, params: Params, outcomes: nat -> Outcome)
    requires Runnable(flows) && Captured(flows, params.refreshFlow, outcomes) && !params.dryRun
    ensures forall send :: send in Run(Compiled(flows), params, outcomes).sends <==>
      send.step < |flows| && flows[send.step].included && GotTo(flows, send.step) &&
      send.outputs == CapturedOutputs(flows, send.step)
  {
    hide Runnable, DraftAfter, Compiled, Captured, Run, CapturedOutputs;
    ReplayRuns(flows, params, outcomes);
    ReachedExactly(flows, 0);
    CompiledTables(flows);
    SendsBetweenAt(Compiled(flows), OutputTable(flows), 0, ReachedFrom(flows, 0));
  }

  // ----- bodies

  /** The template a body starts from. */
  function StartTemplate(flow: Flow): Template
    requires flow.request.Some?
  {
    if HasInput(BodyFields(flow)) then BodyTemplate(BodyFields(flow)) else Chars(flow.request.value.text)
  }

  lemma {:induction false} StartRenders(flows: seq<Flow>, j: nat)
    requires j < |flows| && flows[j].included && flows[j].request.Some? && PlainInputs(BodyFields(flows[j]))
    requires Decoded(Obj(BodyFields(flows[j])))
    ensures Render(StartTemplate(flows[j])) == BodyText(DraftOf(flows, j).steps[j], flows[j])
    ensures HasInput(BodyFields(flows[j])) ==> ValidUtf8(Render(StartTemplate(flows[j])))
    ensures HasInput(BodyFields(flows[j])) ==>
      Base(DraftOf(flows, j).steps[j]).body == Some(Render(StartTemplate(flows[j])))
    ensures !HasInput(BodyFields(flows[j])) ==> Base(DraftOf(flows, j).steps[j]).body == None
  {
    hide DraftAfter, Marshal, Sorted;
    var fields := BodyFields(flows[j]);
    CompiledOverrides(flows, j);
    if HasInput(fields) {
      BodyTemplateRenders(fields);
      BodyTemplateValid(fields);
      CoercedKeeps(BodyTemplateText(fields));
    } else {
      RenderChars(flows[j].request.value.text);
    }
  }

  lemma {:induction false} StartHoles(flow: Flow)
    requires flow.request.Some?
    ensures HolesWithin(StartTemplate(flow), [], InputRefs(BodyFields(flow)))
  {
    var fields := BodyFields(flow);
    if HasInput(fields) {
      forall q | Hole(q) in BodyTemplate(fields)
        ensures q in InputRefs(fields)
      {
        BodyTemplateHoles(fields, q);
      }
    }
  }

  lemma {:induction false} StartFills(flow: Flow, env: map<Ref, string>)
    requires flow.request.Some? && PlainInputs(BodyFields(flow))
    requires forall f :: f in BodyFields(flow) && IsInput(f) ==> Input(f.name) in env && env[Input(f.name)] == f.value.s
    ensures Fill(StartTemplate(flow), env) == Chars(CanonicalBody(flow))
  {
    if HasInput(BodyFields(flow)) {
      BodyTemplateFills(BodyFields(flow), env);
    } else {
      FillChars(flow.request.value.text, env);
    }
  }

  /** Sources with valid values and keys. */
  ghost predicate ValidSources(uses: seq<Source>)
  {
    forall s :: s in uses ==> ValidUtf8(s.value) && ValidUtf8(Placeholder(RefOf(s)))
  }

  lemma {:induction false} OfferedValid(flows: seq<Flow>, i: nat, s: Source)
    requires i < |flows| && DocumentsOk(flows[i]) && OfferedAt(flows, i, s)
    ensures ValidUtf8(s.value) && ValidUtf8(Placeholder(RefOf(s)))
  {
    hide ValidUtf8, PrimitiveSources, Decoded, DistinctNames;
    SourceDecoded(s.step, ResponseDocument(flows[i]).value, s);
    StepIdShape(i + 1);
    PlaceholderValid("${steps." + s.step + ".", s.key);
  }

  /** Values and placeholders of bound sources are valid UTF-8, since their documents are. */
  lemma {:induction false} UsesValid(flows: seq<Flow>, j: nat)
    requires Runnable(flows) && j < |flows|
    ensures ValidSources(UsesAt(flows, j))
  {
    hide ValidUtf8, OfferedAt, DocumentsOk, UsesAt;
    forall s | s in UsesAt(flows, j)
      ensures ValidUtf8(s.value) && ValidUtf8(Placeholder(RefOf(s)))
    {
      var i := UseOrigin(flows, j, s);
      assert DocumentsOk(flows[i]);
      OfferedValid(flows, i, s);
    }
  }

  lemma {:induction false} BindBodyValid(text: string, sources: seq<Source>)
    requires ValidUtf8(text) && ValidSources(BodyUses(text, sources))
    ensures ValidUtf8(BindBody(text, sources))
    decreases |sources|
  {
    if sources != [] {
      var s := sources[0];
      var next := BindOne(text, s);
      if Occurs(s, text) {
        assert s == BodyUses(text, sources)[0];
        ReplaceKeepsValid(text, s.value, Placeholder(RefOf(s)));
      }
      assert forall u :: u in BodyUses(next, sources[1..]) ==> u in BodyUses(text, sources);
      BindBodyValid(next, sources[1..]);
    }
  }

  /** A stored body is the rendering of a template that fills like the one the body started from. */
  lemma {:induction false} StoredTemplate(flows: seq<Flow>, j: nat, env: map<Ref, string>) returns (t: Template)
    requires j < |flows| && flows[j].included && PlainInputs(BodyFields(flows[j])) && Decoded(Obj(BodyFields(flows[j])))
    requires KeepApart(UsesAt(flows, j), InputRefs(BodyFields(flows[j]))) && Binds(env, UsesAt(flows, j))
    requires ValidSources(UsesAt(flows, j))
    requires flows[j].request.Some? && BodyStored(flows, j) ==>
      HasInput(BodyFields(flows[j])) || ValidUtf8(flows[j].request.value.text)
    requires Compiled(flows)[j].overrides.Present? && Compiled(flows)[j].overrides.o.body.Some?
    ensures flows[j].request.Some? && BodyStored(flows, j) && Compiled(flows)[j].overrides.o.body == Some(Render(t))
    ensures Fill(t, env) == Fill(StartTemplate(flows[j]), env)
    ensures HolesWithin(t, UsesAt(flows, j), InputRefs(BodyFields(flows[j])))
  {
    hide DraftAfter, Marshal, Sorted, ValidUtf8, Coerced;
    var d, flow := DraftOf(flows, j), flows[j];
    CompiledOverrides(flows, j);
    assert flow.request.Some?;
    StartRenders(flows, j);
    StartHoles(flow);
    t := StartTemplate(flow);
    if UsesAt(flows, j) != [] {
      if BodyInRange(flow) {
        var text := BodyText(d.steps[j], flow);
        LiftAllRenders(t, d.previous, UsesAt(flows, j), InputRefs(BodyFields(flow)), env);
        BindBodyValid(text, d.previous);
        CoercedKeeps(BindBody(text, d.previous));
        t := LiftAll(t, d.previous);
      } else {
        CoercedKeeps(Render(t));
      }
    }
  }

  /** A body that is stored only because some header was bound is stored as captured exactly when it is valid UTF-8.
      */
  lemma {:induction false} RawBodyStoredExactly(flows: seq<Flow>, j: nat)
    requires j < |flows| && flows[j].included && !HasInput(BodyFields(flows[j])) && BodyInRange(flows[j])
    requires UsesAt(flows, j) != [] && BodyUses(flows[j].request.value.text, DraftOf(flows, j).previous) == []
    ensures Compiled(flows)[j].overrides.Present?
    ensures Compiled(flows)[j].overrides.o.body == Some(flows[j].request.value.text)
            <==> ValidUtf8(flows[j].request.value.text)
  {
    hide DraftAfter;
    var text := flows[j].request.value.text;
    CompiledOverrides(flows, j);
    NothingBound(text, DraftOf(flows, j).previous);
    CoercedExactly(text);
  }

  lemma {:induction false} NothingBound(text: string, sources: seq<Source>)
    requires BodyUses(text, sources) == []
    ensures BindBody(text, sources) == text
    decreases |sources|
  {
    if sources != [] { NothingBound(BindOne(text, sources[0]), sources[1..]); }
  }

  lemma {:induction false} QuietChars(s: string)
    requires !Contains(s, "${")
    ensures Quiet(Chars(s))
  {
    forall i | 0 <= i < |s| - 1 && Chars(s)[i] == Char('$')
      ensures Chars(s)[i + 1] != Char('{')
    {
      if s[i + 1] == '{' {
        assert s[i..][..2] == "${";
        ContainsAt(s, "${", i);
      }
    }
  }

  lemma {:induction false} InputsKnown(flows: seq<Flow>, j: nat)
    requires j < |flows| && InputsAgree(flows, flows[j])
    ensures forall f :: f in BodyFields(flows[j]) && IsInput(f) ==>
      Input(f.name) in CapturedEnv(flows, j) && CapturedEnv(flows, j)[Input(f.name)] == f.value.s
  {
  }

  /** The references of a step's templates can be told apart. */
  lemma {:induction false} GoodHolesWithin(flows: seq<Flow>, j: nat, t: Template)
    requires Runnable(flows) && j < |flows| && flows[j].included
    requires HolesWithin(t, UsesAt(flows, j), InputRefs(BodyFields(flows[j])))
    ensures GoodHoles(t)
  {
    assert StepOk(flows, j);
    forall q | Hole(q) in t
      ensures GoodRef(q)
    {
      if q in InputRefs(BodyFields(flows[j])) {
        var f :| f in BodyFields(flows[j]) && IsInput(f) && q == Input(f.name);
        InputHasDefault(flows, j, f);
      } else {
        var u :| u in UsesAt(flows, j) && q == RefOf(u);
        UsedFrom(flows, j, |flows|, u);
      }
    }
  }

  /** A stored body has exactly one expansion: the captured text, or, for a body with inputs, a JSON text that reads
      as the captured object, namely its canonical form. */
  ghost predicate FaithfulBody(flow: Flow, o: Overrides, env: map<Ref, string>)
  {
    o.body.Some? ==>
      flow.request.Some? && (forall r :: Expansion(o.body.value, env, r) <==> r == CanonicalBody(flow)) &&
      SaysTheSame(flow, CanonicalBody(flow))
  }

  ghost predicate SaysTheSame(flow: Flow, sent: string)
    requires flow.request.Some?
  {
    if HasInput(BodyFields(flow)) then Denotes(sent, flow.request.value.document.value)
    else sent == flow.request.value.text
  }

  lemma {:induction false} CanonicalSaysTheSame(flow: Flow)
    requires flow.request.Some? && DocumentsOk(flow)
    ensures SaysTheSame(flow, CanonicalBody(flow))
  {
    hide Denotes, Marshal, DistinctNames, Decoded, IsInput;
    if HasInput(BodyFields(flow)) { MarshalDenotes(Obj(BodyFields(flow))); }
  }

  /** The body with the inputs pasted in. */
  function Pasted(flow: Flow, env: map<Ref, string>): string
    requires flow.request.Some?
  {
    Render(Fill(StartTemplate(flow), env))
  }

  /** Filling all references of the start template leaves ordinary characters only. */
  lemma {:induction false} PastedIsText(flows: seq<Flow>, j: nat, env: map<Ref, string>)
    requires j < |flows| && flows[j].request.Some? && forall k :: k in Defaults(flows) ==> Input(k) in env
    ensures Fill(StartTemplate(flows[j]), env) == Chars(Pasted(flows[j], env))
  {
    hide BodyTemplate, Defaults, StartTemplate, Fill, Render;
    StartHoles(flows[j]);
    forall q | Hole(q) in StartTemplate(flows[j])
      ensures q in env
    {
      var f :| f in BodyFields(flows[j]) && IsInput(f) && q == Input(f.name);
      InputHasDefault(flows, j, f);
    }
    FilledIsText(StartTemplate(flows[j]), env);
  }

  /** The only expansion of a stored body is the body with the inputs pasted in. */
  lemma {:induction false} BodyExpands(flows: seq<Flow>, j: nat)
    requires Resolvable(flows) && j < |flows| && flows[j].included && Compiled(flows)[j].overrides.Present?
    requires Compiled(flows)[j].overrides.o.body.Some?
    requires flows[j].request.Some? ==> !Contains(Pasted(flows[j], CapturedEnv(flows, j)), "${")
    ensures flows[j].request.Some? && BodyStored(flows, j)
    ensures forall r :: Expansion(Compiled(flows)[j].overrides.o.body.value, CapturedEnv(flows, j), r)
                        <==> r == Pasted(flows[j], CapturedEnv(flows, j))
  {
    hide DraftAfter, Compiled, UsesAt, Expansion, BodyStored, KeepApart, PlainInputs, Decoded, Contains;
    var env := CapturedEnv(flows, j);
    assert StepOk(flows, j) && DocumentsOk(flows[j]);
    BoundValues(flows, j);
    UsesValid(flows, j);
    var t := StoredTemplate(flows, j, env);
    GoodHolesWithin(flows, j, t);
    GoodEnv(flows, j);
    PastedIsText(flows, j, env);
    QuietChars(Pasted(flows[j], env));
    RenderExpands(t, env);
    RenderChars(Pasted(flows[j], env));
  }

  /** Where the inputs agree, what is pasted in is what was captured. */
  lemma {:induction false} PastedAsCaptured(flows: seq<Flow>, j: nat)
    requires j < |flows| && flows[j].request.Some? && PlainInputs(BodyFields(flows[j])) && InputsAgree(flows, flows[j])
    ensures Pasted(flows[j], CapturedEnv(flows, j)) == CanonicalBody(flows[j])
  {
    InputsKnown(flows, j);
    StartFills(flows[j], CapturedEnv(flows, j));
    RenderChars(CanonicalBody(flows[j]));
  }

  lemma {:induction false} BodyIsFaithful(flows: seq<Flow>, j: nat)
    requires Replayable(flows) && j < |flows| && flows[j].included && Compiled(flows)[j].overrides.Present?
    ensures FaithfulBody(flows[j], Compiled(flows)[j].overrides.o, CapturedEnv(flows, j))
  {
    hide DraftAfter, Compiled, UsesAt, Expansion, InputsAgree, Pasted, CapturedEnv, Contains, DocumentsOk, SaysTheSame;
    if Compiled(flows)[j].overrides.o.body.Some? {
      StoredNeedsRequest(flows, j);
      assert StepOk(flows, j) && InputsAgree(flows, flows[j]);
      PastedAsCaptured(flows, j);
      BodyExpands(flows, j);
      assert DocumentsOk(flows[j]);
      CanonicalSaysTheSame(flows[j]);
    }
  }

  lemma {:induction false} StoredNeedsRequest(flows: seq<Flow>, j: nat)
    requires j < |flows| && flows[j].included && Compiled(flows)[j].overrides.Present?
    requires Compiled(flows)[j].overrides.o.body.Some?
    ensures flows[j].request.Some? && BodyStored(flows, j)
  {
    hide DraftAfter, Marshal;
    CompiledOverrides(flows, j);
  }

  /** A stored body is replayed as it was captured, byte for byte, exactly when it already had the form that decoding
      and marshalling it again gives; a body without inputs always has. */
  lemma {:induction false} BodyReplayedExactly(flows: seq<Flow>, j: nat)
    requires Replayable(flows) && j < |flows| && flows[j].included && Compiled(flows)[j].overrides.Present?
    requires Compiled(flows)[j].overrides.o.body.Some?
    ensures flows[j].request.Some?
    ensures (forall r :: Expansion(Compiled(flows)[j].overrides.o.body.value, CapturedEnv(flows, j), r)
                         <==> r == flows[j].request.value.text)
            <==> !HasInput(BodyFields(flows[j])) || flows[j].request.value.text == Marshal(Obj(BodyFields(flows[j])))
  {
    hide DraftAfter, Compiled, Expansion, Replayable, CapturedEnv, Marshal, BodyFields, SaysTheSame;
    BodyIsFaithful(flows, j);
    var body, env := Compiled(flows)[j].overrides.o.body.value, CapturedEnv(flows, j);
    assert Expansion(body, env, CanonicalBody(flows[j]));
  }

  lemma {:induction false} PastedDiffers(flows: seq<Flow>, j: nat, f: Field)
    requires j < |flows| && flows[j].request.Some? && PlainInputs(BodyFields(flows[j]))
    requires f in BodyFields(flows[j]) && IsInput(f) && f.name in Defaults(flows)
    requires forall g :: g in BodyFields(flows[j]) && IsInput(g) && g != f ==>
      g.name != f.name && g.name in Defaults(flows) && Defaults(flows)[g.name] == g.value.s
    ensures Pasted(flows[j], CapturedEnv(flows, j)) == CanonicalBody(flows[j]) <==> Defaults(flows)[f.name] == f.value.s
  {
    hide Defaults, CapturedOutputs, Marshal, Sorted, StartTemplate, Fill, Render;
    var flow, env := flows[j], CapturedEnv(flows, j);
    var given := env[Input(f.name) := f.value.s];
    assert forall k :: k in Defaults(flows) ==> Input(k) in env && env[Input(k)] == Defaults(flows)[k];
    PastedIsText(flows, j, env);
    StartFills(flow, given);
    InputIsHole(flow, f);
    FillDiffers(StartTemplate(flow), Input(f.name), env, given);
    RenderChars(Pasted(flow, env));
    RenderChars(CanonicalBody(flow));
  }

  /** When all inputs but one agree with the defaults, the body is replayed faithfully exactly when that one does. */
  lemma {:induction false} InputReplayedExactly(flows: seq<Flow>, j: nat, f: Field)
    requires Resolvable(flows) && j < |flows| && flows[j].included && Compiled(flows)[j].overrides.Present?
    requires Compiled(flows)[j].overrides.o.body.Some? && flows[j].request.Some?
    requires f in BodyFields(flows[j]) && IsInput(f) && f.name in Defaults(flows)
    requires forall g :: g in BodyFields(flows[j]) && IsInput(g) && g != f ==>
      g.name != f.name && g.name in Defaults(flows) && Defaults(flows)[g.name] == g.value.s
    requires !Contains(Pasted(flows[j], CapturedEnv(flows, j)), "${")
    ensures FaithfulBody(flows[j], Compiled(flows)[j].overrides.o, CapturedEnv(flows, j))
            <==> Defaults(flows)[f.name] == f.value.s
  {
    hide DraftAfter, Compiled, Expansion, UsesAt, Contains, Defaults, CapturedEnv, Marshal, Pasted, KeepApart;
    hide BodyFields, SaysTheSame, DocumentsOk;
    var flow, env := flows[j], CapturedEnv(flows, j);
    BodyExpands(flows, j);
    assert DocumentsOk(flow);
    CanonicalSaysTheSame(flow);
    assert StepOk(flows, j);
    PastedDiffers(flows, j, f);
    var body := Compiled(flows)[j].overrides.o.body.value;
    assert Expansion(body, env, Pasted(flow, env));
  }

  lemma {:induction false} InputIsHole(flow: Flow, f: Field)
    requires flow.request.Some? && f in BodyFields(flow) && IsInput(f)
    ensures Hole(Input(f.name)) in StartTemplate(flow)
  {
    hide IsInput;
    var i :| 0 <= i < |BodyFields(flow)| && BodyFields(flow)[i] == f;
    assert HasInput(BodyFields(flow));
    BodyTemplateHasHole(BodyFields(flow), f);
  }

  // ----- headers

  lemma {:induction false} BindHeadersFrom(
      pairs: seq<(string, string)>, previous: seq<Source>, headers: map<string, seq<string>>, name: string)
    requires name in BindHeaders(pairs, previous, headers)
    ensures
      var now := BindHeaders(pairs, previous, headers)[name];
      (name in headers && now == headers[name]) ||
      exists m :: m in HeaderUses(pairs, previous) && (name, m.value) in pairs && now == [Placeholder(RefOf(m))]
  {
    if pairs != [] {
      var m := Matching(previous, pairs[0].1);
      MatchingFinds(previous, pairs[0].1);
      var next := if m.Some? then headers[pairs[0].0 := [Placeholder(RefOf(m.value))]] else headers;
      BindHeadersFrom(pairs[1..], previous, next, name);
      if name == pairs[0].0 && m.Some? {
        assert m.value in HeaderUses(pairs, previous) && (name, m.value.value) in pairs;
      }
    }
  }

  lemma {:induction false} PairWhere(headers: seq<Header>, name: string, value: string) returns (h: Header)
    requires (name, value) in HeaderPairs(headers)
    ensures h in headers && h.name == name && value in h.values
  {
    if (name, value) in ValuePairs(headers[0]) {
      h := headers[0];
    } else {
      h := PairWhere(headers[1..], name, value);
    }
  }

  /** An overridden header was captured under that name and expands to one of its captured values, alone: to all of
      them, if it was captured with a single one. */
  ghost predicate FaithfulHeader(flow: Flow, name: string, texts: seq<string>, env: map<Ref, string>)
  {
    (exists h, v :: CarriesHeader(flow, h, name, v) && |texts| == 1 && forall r :: Expansion(texts[0], env, r) <==>
        r == v) &&
    forall h :: SoleHeader(flow, h) && h.name == name && |h.values| == 1 ==> WholeHeader(texts, env, h.values)
  }

  /** Go's header maps have one entry per name. */
  ghost predicate SoleHeader(flow: Flow, h: Header)
  {
    h in flow.headers && forall g :: g in flow.headers && g.name == h.name ==> g == h
  }

  /** The override of a header expands to all its captured values. */
  ghost predicate WholeHeader(texts: seq<string>, env: map<Ref, string>, values: seq<string>)
  {
    |texts| == |values| && forall i :: 0 <= i < |texts| ==> forall r :: Expansion(texts[i], env, r) <==> r == values[i]
  }

  ghost predicate CarriesHeader(flow: Flow, h: Header, name: string, v: string)
  {
    h in flow.headers && h.name == name && v in h.values
  }

  lemma {:induction false} PlaceholderExpands(m: Source, env: map<Ref, string>)
    requires GoodRef(RefOf(m)) && RefOf(m) in env && env[RefOf(m)] == m.value && '$' !in m.value
    requires forall q :: q in env ==> GoodRef(q)
    ensures forall r :: Expansion(Placeholder(RefOf(m)), env, r) <==> r == m.value
  {
    var t := [Hole(RefOf(m))];
    assert t[1..] == [];
    var empty: Template := [];
    assert Render(empty) == "" && Fill(empty, env) == [];
    assert Render(t) == Placeholder(RefOf(m));
    assert Fill(t, env) == Chars(m.value);
    RenderChars(m.value);
    assert forall i :: 0 <= i < |m.value| ==> m.value[i] in m.value;
    assert Quiet(Fill(t, env));
    RenderExpands(t, env);
  }

  /** The source an overridden header stands for. */
  lemma {:induction false} HeaderSource(flows: seq<Flow>, j: nat, name: string) returns (m: Source)
    requires j < |flows| && flows[j].included && Compiled(flows)[j].overrides.Present?
    requires name in Compiled(flows)[j].overrides.o.headers
    ensures m in UsesAt(flows, j) && (name, m.value) in HeaderPairs(flows[j].headers)
    ensures Compiled(flows)[j].overrides.o.headers[name] == [Placeholder(RefOf(m))]
  {
    hide DraftAfter, BindHeaders, HeaderUses, HeaderPairs;
    var d, pairs := DraftOf(flows, j), HeaderPairs(flows[j].headers);
    CompiledOverrides(flows, j);
    BindHeadersFrom(pairs, d.previous, map[], name);
    m :| m in HeaderUses(pairs, d.previous) && (name, m.value) in pairs &&
      Compiled(flows)[j].overrides.o.headers[name] == [Placeholder(RefOf(m))];
  }

  lemma {:induction false} SourceExpands(flows: seq<Flow>, j: nat, m: Source)
    requires Resolvable(flows) && j < |flows| && flows[j].included && m in UsesAt(flows, j)
    ensures forall r :: Expansion(Placeholder(RefOf(m)), CapturedEnv(flows, j), r) <==> r == m.value
  {
    hide DraftAfter, CapturedOutputs, Env, Expansion, UsesAt;
    UsedFrom(flows, j, |flows|, m);
    BoundValues(flows, j);
    GoodEnv(flows, j);
    assert StepOk(flows, j) && Apart(m.value, RefOf(m));
    PlaceholderExpands(m, CapturedEnv(flows, j));
  }

  lemma {:induction false} HeaderIsFaithful(flows: seq<Flow>, j: nat, name: string)
    requires Resolvable(flows) && j < |flows| && flows[j].included && Compiled(flows)[j].overrides.Present?
    requires name in Compiled(flows)[j].overrides.o.headers
    ensures FaithfulHeader(flows[j], name, Compiled(flows)[j].overrides.o.headers[name], CapturedEnv(flows, j))
  {
    hide Resolvable, Compiled, UsesAt, CapturedEnv, Expansion, HeaderPairs;
    var flow := flows[j];
    var m := HeaderSource(flows, j, name);
    SourceExpands(flows, j, m);
    var h := PairWhere(flow.headers, name, m.value);
    assert CarriesHeader(flow, h, name, m.value);
  }

  predicate MatchedAt(pairs: seq<(string, string)>, previous: seq<Source>, name: string, k: int)
  {
    0 <= k < |pairs| && pairs[k].0 == name && Matching(previous, pairs[k].1).Some?
  }

  ghost predicate LastMatch(pairs: seq<(string, string)>, previous: seq<Source>, name: string, k: int)
  {
    MatchedAt(pairs, previous, name, k) && forall i :: k < i < |pairs| ==> !MatchedAt(pairs, previous, name, i)
  }

  ghost predicate BoundByLast(pairs: seq<(string, string)>, previous: seq<Source>, name: string, texts: seq<string>)
  {
    exists k :: LastMatch(pairs, previous, name, k) &&
        texts == [Placeholder(RefOf(Matching(previous, pairs[k].1).value))]
  }

  /** A header is overridden exactly when one of its captured values was offered before, and then by the source of the
      last such value alone. */
  lemma {:induction false} HeaderBoundExactly(pairs: seq<(string, string)>, previous: seq<Source>, name: string)
    ensures name in BindHeaders(pairs, previous, map[]) <==> exists k :: LastMatch(pairs, previous, name, k)
    ensures name in BindHeaders(pairs, previous, map[])
            ==> BoundByLast(pairs, previous, name, BindHeaders(pairs, previous, map[])[name])
  {
    hide Matching;
    if pairs != [] {
      var n := |pairs| - 1;
      var a, b := pairs[..n], [pairs[n]];
      assert pairs == a + b && b[1..] == [];
      HeaderBoundExactly(a, previous, name);
      BindHeadersAppend(a, b, previous, map[]);
      if MatchedAt(pairs, previous, name, n) {
        assert LastMatch(pairs, previous, name, n);
      } else {
        forall k
          ensures LastMatch(a, previous, name, k) <==> LastMatch(pairs, previous, name, k)
        {
          LastMatchGrows(a, pairs[n], previous, name, k);
        }
      }
    }
  }

  lemma {:induction false} LastMatchGrows(
      a: seq<(string, string)>, p: (string, string), previous: seq<Source>, name: string, k: int)
    requires !MatchedAt(a + [p], previous, name, |a|)
    ensures LastMatch(a, previous, name, k) <==> LastMatch(a + [p], previous, name, k)
  {
    hide Matching;
    assert forall i :: 0 <= i < |a| ==> MatchedAt(a, previous, name, i) == MatchedAt(a + [p], previous, name, i);
  }

  /** An overridden header is replayed as captured exactly when it was captured with a single value. */
  lemma {:induction false} HeaderReplayedExactly(flows: seq<Flow>, j: nat, h: Header)
    requires Resolvable(flows) && j < |flows| && flows[j].included && Compiled(flows)[j].overrides.Present?
    requires SoleHeader(flows[j], h)
    requires h.name in Compiled(flows)[j].overrides.o.headers
    ensures WholeHeader(Compiled(flows)[j].overrides.o.headers[h.name], CapturedEnv(flows, j), h.values) <==>
      |h.values| == 1
  {
    hide Resolvable, Compiled, CapturedEnv, Expansion;
    HeaderIsFaithful(flows, j, h.name);
  }

  // ----- colliding names

  lemma {:induction false} BoundAlike(flows: seq<Flow>, s: Source, t: Source)
    requires s in UsedBefore(flows, |flows|) && t in UsedBefore(flows, |flows|) && RefOf(s) == RefOf(t)
    requires forall j :: 0 <= j < |flows| ==> Binds(CapturedEnv(flows, j), UsesAt(flows, j))
    ensures s.value == t.value
  {
    hide DraftAfter, Compiled, OutputsOf;
    var a := UsedWhere(flows, |flows|, s);
    var b := UsedWhere(flows, |flows|, t);
    var i := UseOrigin(flows, a, s);
    var k := UseOrigin(flows, b, t);
    OneOrigin(flows, i, k, s, t);
    assert Binds(CapturedEnv(flows, a), UsesAt(flows, a)) && Binds(CapturedEnv(flows, b), UsesAt(flows, b));
    KnownOutput(flows, a, i, s.key);
    KnownOutput(flows, b, i, s.key);
  }

  /** What is known of a step's key later on is what that step extracted. */
  lemma {:induction false} KnownOutput(flows: seq<Flow>, j: nat, i: nat, key: string)
    requires i < j <= |flows| && flows[i].included && Output(StepId(i + 1), key) in CapturedEnv(flows, j)
    ensures key in OutputsOf(flows, i) && CapturedEnv(flows, j)[Output(StepId(i + 1), key)] == OutputsOf(flows, i)[key]
    decreases j
  {
    hide WithOutputs, OutputsOf, StepId;
    if OutputsOf(flows, i) != map[] {
      OutputsFixed(flows, j, i);
    } else {
      NeverRecorded(flows, j, i);
    }
  }

  lemma {:induction false} NeverRecorded(flows: seq<Flow>, j: nat, i: nat)
    requires i < |flows| && j <= |flows| && OutputsOf(flows, i) == map[]
    ensures StepId(i + 1) !in CapturedOutputs(flows, j)
    decreases j
  {
    hide StepId, OutputsOf;
    if j > 0 {
      NeverRecorded(flows, j - 1, i);
      StepIdsDiffer(i + 1, j);
    }
  }

  /** In a replay of a capture that meets the other conditions, every request is sent with each of its references
      standing for the captured value if bound sources of one name carry one value; and only then, if the replay gets
      to the end. */
  lemma {:induction false} ResolvableExactly(flows: seq<Flow>, refreshFlow: string, outcomes: nat -> Outcome)
    requires Runnable(flows) && Captured(flows, refreshFlow, outcomes)
    ensures NamesAgree(UsedBefore(flows, |flows|)) ==> SendsResolved(flows, refreshFlow, outcomes)
    ensures AllSucceeded(flows) ==>
      (SendsResolved(flows, refreshFlow, outcomes) <==> NamesAgree(UsedBefore(flows, |flows|)))
  {
    hide DraftAfter, Runnable, Captured, Run, Compiled, Binds, Env;
    var params := Params(Defaults(flows), false, refreshFlow);
    ReplaySends(flows, params, outcomes);
    if NamesAgree(UsedBefore(flows, |flows|)) {
      forall send | send in Run(Compiled(flows), params, outcomes).sends
        ensures send.step < |flows| && Binds(Env(Defaults(flows), send.outputs), UsesAt(flows, send.step))
      {
        BoundValues(flows, send.step);
      }
    }
    if AllSucceeded(flows) && SendsResolved(flows, refreshFlow, outcomes) {
      forall j | 0 <= j < |flows|
        ensures Binds(CapturedEnv(flows, j), UsesAt(flows, j))
      {
        if flows[j].included {
          assert Send(j, CapturedOutputs(flows, j)) in Run(Compiled(flows), params, outcomes).sends;
        } else {
          ExcludedUsesNothing(flows, j, CapturedEnv(flows, j));
        }
      }
      forall s, t | s in UsedBefore(flows, |flows|) && t in UsedBefore(flows, |flows|) && RefOf(s) == RefOf(t)
        ensures s.value == t.value
      {
        BoundAlike(flows, s, t);
      }
    }
  }

  /** In every request that leaves, each reference to an output stands for the captured value. */
  ghost predicate SendsResolved(flows: seq<Flow>, refreshFlow: string, outcomes: nat -> Outcome)
  {
    forall send :: send in Run(Compiled(flows), Params(Defaults(flows), false, refreshFlow), outcomes).sends ==>
      send.step < |flows| && Binds(Env(Defaults(flows), send.outputs), UsesAt(flows, send.step))
  }

  lemma {:induction false} ExcludedUsesNothing(flows: seq<Flow>, j: nat, env: map<Ref, string>)
    requires j < |flows| && !flows[j].included
    ensures Binds(env, UsesAt(flows, j))
  {
    hide DraftAfter;
    CompiledTables(flows);
    InvariantHolds(flows, j);
    IdentifiedIds(flows, DraftOf(flows, j).steps);
  }

  // ----- the main theorem

  /** What leaves for a step is what was captured. */
  ghost predicate FaithfulSend(flows: seq<Flow>, send: Send)
  {
    send.step < |flows| && flows[send.step].included &&
    var stored, env := Compiled(flows)[send.step].overrides, Env(Defaults(flows), send.outputs);
    !stored.Garbled? &&
    (stored.Present? ==>
       FaithfulBody(flows[send.step], stored.o, env) &&
       forall name :: name in stored.o.headers ==> FaithfulHeader(flows[send.step], name, stored.o.headers[name], env))
  }

  /** Compile a capture and run it with its default inputs against a server that answers as captured: the run succeeds
      exactly when every included step was captured with a success, and otherwise stops at the first that was not.
      Every included step up to there is sent, and every body and header the compiler rewrote in it expands, in
      whatever order the runner's maps are visited, to what was captured: a body in its canonical form, a header to
      one of its values, all of them if there was one. */
  lemma {:induction false} CaptureReplay(flows: seq<Flow>, refreshFlow: string, outcomes: nat -> Outcome)
    requires Replayable(flows) && Captured(flows, refreshFlow, outcomes)
    ensures
      var r := Run(Compiled(flows), Params(Defaults(flows), false, refreshFlow), outcomes);
      (r.ok <==> AllSucceeded(flows)) &&
      (forall j :: 0 <= j < |flows| && flows[j].included ==>
         (Send(j, CapturedOutputs(flows, j)) in r.sends <==> GotTo(flows, j))) &&
      (forall send :: send in r.sends ==> FaithfulSend(flows, send))
  {
    hide DraftAfter, Runnable, Captured, Run, Compiled, FaithfulSend, CapturedOutputs;
    var params := Params(Defaults(flows), false, refreshFlow);
    ReplayRuns(flows, params, outcomes);
    ReplaySends(flows, params, outcomes);
    forall send | send in Run(Compiled(flows), params, outcomes).sends
      ensures FaithfulSend(flows, send)
    {
      FaithfulStep(flows, send.step);
      assert send == Send(send.step, CapturedOutputs(flows, send.step));
    }
  }

  lemma {:induction false} FaithfulStep(flows: seq<Flow>, j: nat)
    requires Replayable(flows) && j < |flows| && flows[j].included
    ensures FaithfulSend(flows, Send(j, CapturedOutputs(flows, j)))
  {
    var stored := Compiled(flows)[j].overrides;
    CompiledOverrides(flows, j);
    if stored.Present? {
      BodyIsFaithful(flows, j);
      forall name | name in stored.o.headers
        ensures FaithfulHeader(flows[j], name, stored.o.headers[name], CapturedEnv(flows, j))
      {
        HeaderIsFaithful(flows, j, name);
      }
    }
  }
}
