/** Drafting a workflow from captured flows: input templates, then bindings from responses to later requests. */
module Compiler {
  import opened Text
  import opened Options
  import opened Json
  import opened Templates
  import opened Sources
  import opened JsonText
  import opened Utf8

  const MAX_SOURCES := 1000
  const MAX_BODY := 262144
  const MIN_VALUE := 4
  const MAX_VALUE := 512

  datatype Header = Header(name: string, values: seq<string>)

  /** A stored body: its bytes, and what they decode to as JSON, if they do. */
  datatype Message = Message(text: string, document: Option<Json>)

  /** A captured exchange; `included` is the verdict of `classify`. Headers are listed in the order they are visited.
      */
  datatype Flow = Flow(id: string, included: bool, status: int, headers: seq<Header>,
                       request: Option<Message>, response: Option<Message>)

  datatype Overrides = Overrides(headers: map<string, seq<string>>, query: map<string, string>, body: Option<string>)

  /** The JSON column holding a step's overrides. */
  datatype Stored = Absent | Present(o: Overrides) | Garbled

  function CoercedBody(body: Option<string>): Option<string>
  {
    if body.Some? then Some(Coerced(body.value)) else None
  }

  /** Writing and reading the column. Only a body can hold invalid bytes: header names come out of JSON, and the texts
      stored for headers are placeholders. */
  function Column(o: Overrides): Stored { Present(o.(body := CoercedBody(o.body))) }

  datatype WorkflowStep = WorkflowStep(
    id: string, flowId: string, included: bool,
    statuses: seq<int>, headerNames: seq<string>, needles: seq<string>, jsonPaths: seq<string>,
    overrides: Stored, extract: map<string, string>)

  // ----- drafting each step on its own

  function StepId(n: nat): string
  {
    "step_" + (if n < 10 then "0" else "") + Decimal(n)
  }

  function ExpectedStatuses(status: int): seq<int>
  {
    if 200 <= status < 400 then [status] else [200, 201, 202, 204]
  }

  /** The members of a request body that is a JSON object. */
  function BodyFields(flow: Flow): seq<Field>
  {
    if flow.request.Some? && flow.request.value.document.Some? && flow.request.value.document.value.Obj?
    then flow.request.value.document.value.fields else []
  }

  function DraftStep(flow: Flow, index: nat): WorkflowStep
  {
    var fields := BodyFields(flow);
    var stored := if flow.included && HasInput(fields)
                  then Column(Overrides(map[], map[], Some(BodyTemplateText(fields)))) else Absent;
    WorkflowStep(StepId(index + 1), flow.id, flow.included, ExpectedStatuses(flow.status), [], [], [], stored, map[])
  }

  function DraftSteps(flows: seq<Flow>): (steps: seq<WorkflowStep>)
    ensures |steps| == |flows|
    ensures forall i :: 0 <= i < |flows| ==> steps[i] == DraftStep(flows[i], i)
  {
    seq(|flows|, i requires 0 <= i < |flows| => DraftStep(flows[i], i))
  }

  /** The default of every input; a later member overwrites an earlier one of the same name. */
  function FieldDefaults(fields: seq<Field>, m: map<string, string>): map<string, string>
  {
    if fields == [] then m
    else FieldDefaults(fields[1..], if IsInput(fields[0]) then m[fields[0].name := fields[0].value.s] else m)
  }

  function Defaults(flows: seq<Flow>): map<string, string>
  {
    if flows == [] then map[]
    else FieldDefaults(BodyFields(flows[|flows| - 1]), Defaults(flows[..|flows| - 1]))
  }

  // ----- binding requests to earlier responses

  function RefOf(s: Source): Ref { Output(s.step, s.key) }

  /** `bindingValueUseful`. */
  predicate Useful(value: string)
  {
    MIN_VALUE <= |value| <= MAX_VALUE && '\n' !in value && '\0' !in value
  }

  /** `matchingSource`: the linear search. */
  function Matching(sources: seq<Source>, value: string): Option<Source>
  {
    if value == "" || sources == [] then None
    else if sources[0].value == value then Some(sources[0])
    else Matching(sources[1..], value)
  }

  function HeaderPairs(headers: seq<Header>): seq<(string, string)>
  {
    if headers == [] then []
    else ValuePairs(headers[0]) + HeaderPairs(headers[1..])
  }

  /** The sources header values are bound to, in visiting order. */
  function HeaderUses(pairs: seq<(string, string)>, previous: seq<Source>): seq<Source>
  {
    if pairs == [] then []
    else
      var m := Matching(previous, pairs[0].1);
      (if m.Some? then [m.value] else []) + HeaderUses(pairs[1..], previous)
  }

  function BindHeaders(pairs: seq<(string, string)>, previous: seq<Source>, headers: map<string, seq<string>>)
    : map<string, seq<string>>
  {
    if pairs == [] then headers
    else
      var m := Matching(previous, pairs[0].1);
      BindHeaders(pairs[1..], previous,
                  if m.Some? then headers[pairs[0].0 := [Placeholder(RefOf(m.value))]] else headers)
  }

  predicate Occurs(s: Source, text: string) { s.value != "" && Contains(text, s.value) }

  function BindBody(text: string, sources: seq<Source>): string
    decreases |sources|
  {
    if sources == [] then text
    else BindBody(BindOne(text, sources[0]), sources[1..])
  }

  function BindOne(text: string, s: Source): string
  {
    if Occurs(s, text) then ReplaceAll(text, s.value, Placeholder(RefOf(s))) else text
  }

  function BodyUses(text: string, sources: seq<Source>): seq<Source>
    decreases |sources|
  {
    if sources == [] then []
    else (if Occurs(sources[0], text) then [sources[0]] else []) + BodyUses(BindOne(text, sources[0]), sources[1..])
  }

  function Base(step: WorkflowStep): Overrides
  {
    if step.overrides.Present? then step.overrides.o else Overrides(map[], map[], None)
  }

  predicate BodyInRange(flow: Flow)
  {
    flow.request.Some? && 0 < |flow.request.value.text| <= MAX_BODY
  }

  /** The body text the binder starts from. */
  function BodyText(step: WorkflowStep, flow: Flow): string
    requires flow.request.Some?
  {
    if Base(step).body.Some? then Base(step).body.value else flow.request.value.text
  }

  /** Every source bound into a step, in the order `ensureExtraction` is called. */
  function Uses(step: WorkflowStep, flow: Flow, previous: seq<Source>): seq<Source>
  {
    if !step.included || previous == [] then []
    else
      HeaderUses(HeaderPairs(flow.headers), previous)
      + if BodyInRange(flow) then BodyUses(BodyText(step, flow), previous) else []
  }

  function BoundOverrides(step: WorkflowStep, flow: Flow, previous: seq<Source>): Stored
  {
    if Uses(step, flow, previous) == [] then step.overrides
    else
      var base := Base(step);
      Column(Overrides(BindHeaders(HeaderPairs(flow.headers), previous, base.headers), base.query,
                       if BodyInRange(flow) then Some(BindBody(BodyText(step, flow), previous)) else base.body))
  }

  /** `ensureExtraction`: the first step with the source's id learns to extract it. */
  function Ensure(steps: seq<WorkflowStep>, s: Source): (r: seq<WorkflowStep>)
    ensures |r| == |steps|
  {
    if steps == [] then []
    else if steps[0].id == s.step then [steps[0].(extract := steps[0].extract[s.key := s.path])] + steps[1..]
    else [steps[0]] + Ensure(steps[1..], s)
  }

  function EnsureAll(steps: seq<WorkflowStep>, uses: seq<Source>): (r: seq<WorkflowStep>)
    ensures |r| == |steps|
    decreases |uses|
  {
    if uses == [] then steps else EnsureAll(Ensure(steps, uses[0]), uses[1..])
  }

  /** What a step's captured response offers. */
  function Offered(step: WorkflowStep, flow: Flow): seq<Source>
  {
    if step.included && flow.response.Some? && |flow.response.value.text| <= MAX_BODY &&
        flow.response.value.document.Some?
    then PrimitiveSources(step.id, flow.response.value.document.value) else []
  }

  /** Useful values not seen before, up to the limit. */
  function Collect(previous: seq<Source>, offered: seq<Source>): seq<Source>
    decreases |offered|
  {
    if offered == [] || |previous| >= MAX_SOURCES then previous
    else if !Useful(offered[0].value) || Matching(previous, offered[0].value).Some? then Collect(previous, offered[1..])
    else Collect(previous + [offered[0]], offered[1..])
  }

  datatype Draft = Draft(steps: seq<WorkflowStep>, previous: seq<Source>)

  /** One round of `inferCrossStepBindings`. */
  function Round(d: Draft, flow: Flow, j: nat): (r: Draft)
    requires j < |d.steps|
    ensures |r.steps| == |d.steps|
  {
    var step := d.steps[j];
    var bound := d.steps[j := step.(overrides := BoundOverrides(step, flow, d.previous))];
    Draft(EnsureAll(bound, Uses(step, flow, d.previous)), Collect(d.previous, Offered(step, flow)))
  }

  /** The draft after the first `j` rounds. */
  function DraftAfter(steps: seq<WorkflowStep>, flows: seq<Flow>, j: nat): (r: Draft)
    requires |steps| == |flows| && j <= |steps|
    ensures |r.steps| == |steps|
  {
    if j == 0 then Draft(steps, []) else Round(DraftAfter(steps, flows, j - 1), flows[j - 1], j - 1)
  }

  /** The compiled workflow of a capture. */
  function Compiled(flows: seq<Flow>): (steps: seq<WorkflowStep>)
    ensures |steps| == |flows|
  {
    DraftAfter(DraftSteps(flows), flows, |flows|).steps
  }

  // ----- the imperative form

  lemma {:induction false} EnsureNowhere(steps: seq<WorkflowStep>, s: Source)
    requires forall k :: 0 <= k < |steps| ==> steps[k].id != s.step
    ensures Ensure(steps, s) == steps
  {
    if steps != [] {
      EnsureNowhere(steps[1..], s);
      assert steps == [steps[0]] + steps[1..];
    }
  }

  /** Only the first step with the source's id changes. */
  lemma {:induction false} EnsureHere(steps: seq<WorkflowStep>, s: Source, i: nat)
    requires i < |steps| && steps[i].id == s.step
    requires forall k :: 0 <= k < i ==> steps[k].id != s.step
    ensures Ensure(steps, s) == steps[i := steps[i].(extract := steps[i].extract[s.key := s.path])]
  {
    if i > 0 {
      EnsureHere(steps[1..], s, i - 1);
      var now := steps[i].(extract := steps[i].extract[s.key := s.path]);
      assert steps[i := now] == [steps[0]] + steps[1..][i - 1 := now];
    }
  }

  method EnsureExtraction(steps: array<WorkflowStep>, source: Source)
    modifies steps
    ensures steps[..] == Ensure(old(steps[..]), source)
  {
    hide Ensure;
    for i := 0 to steps.Length
      invariant steps[..] == old(steps[..])
      invariant forall k :: 0 <= k < i ==> steps[..][k].id != source.step
    {
      if steps[i].id == source.step {
        EnsureHere(steps[..], source, i);
        steps[i] := steps[i].(extract := steps[i].extract[source.key := source.path]);
        return;
      }
    }
    EnsureNowhere(steps[..], source);
  }

  /** The value index answers like the linear search. */
  ghost predicate Indexes(index: map<string, Source>, previous: seq<Source>)
  {
    forall v :: Matching(previous, v) == if v in index then Some(index[v]) else None
  }

  lemma {:induction false} MatchingSnoc(previous: seq<Source>, s: Source, v: string)
    ensures Matching(previous + [s], v)
         == if Matching(previous, v).Some? then Matching(previous, v)
            else if v != "" && s.value == v then Some(s) else None
  {
    if previous == [] {
      assert previous + [s] == [s] && [s][1..] == [];
    } else {
      assert (previous + [s])[0] == previous[0] && (previous + [s])[1..] == previous[1..] + [s];
      MatchingSnoc(previous[1..], s, v);
    }
  }

  lemma {:induction false} IndexGrows(index: map<string, Source>, previous: seq<Source>, s: Source)
    requires Indexes(index, previous) && s.value != "" && s.value !in index
    ensures Indexes(index[s.value := s], previous + [s])
  {
    forall v
      ensures Matching(previous + [s], v) == if v in index[s.value := s] then Some(index[s.value := s][v]) else None
    {
      MatchingSnoc(previous, s, v);
    }
  }

  lemma {:induction false} EnsureAllSnoc(steps: seq<WorkflowStep>, uses: seq<Source>, s: Source)
    ensures EnsureAll(steps, uses + [s]) == Ensure(EnsureAll(steps, uses), s)
    decreases |uses|
  {
    if uses == [] {
      assert uses + [s] == [s] && [s][1..] == [];
    } else {
      assert (uses + [s])[0] == uses[0] && (uses + [s])[1..] == uses[1..] + [s];
      EnsureAllSnoc(Ensure(steps, uses[0]), uses[1..], s);
    }
  }

  function ValuePairs(h: Header): seq<(string, string)>
  {
    seq(|h.values|, i requires 0 <= i < |h.values| => (h.name, h.values[i]))
  }

  lemma {:induction false} HeaderUsesAppend(a: seq<(string, string)>, b: seq<(string, string)>, previous: seq<Source>)
    ensures HeaderUses(a + b, previous) == HeaderUses(a, previous) + HeaderUses(b, previous)
  {
    hide Matching;
    if a == [] {
      assert a + b == b;
    } else {
      assert (a + b)[0] == a[0] && (a + b)[1..] == a[1..] + b;
      HeaderUsesAppend(a[1..], b, previous);
      var m := Matching(previous, a[0].1);
      var here := if m.Some? then [m.value] else [];
      assert here + (HeaderUses(a[1..], previous) + HeaderUses(b, previous))
          == (here + HeaderUses(a[1..], previous)) + HeaderUses(b, previous);
    }
  }

  lemma {:induction false} BindHeadersAppend(a: seq<(string, string)>, b: seq<(string, string)>, previous: seq<Source>,
                                             headers: map<string, seq<string>>)
    ensures BindHeaders(a + b, previous, headers) == BindHeaders(b, previous, BindHeaders(a, previous, headers))
  {
    if a == [] {
      assert a + b == b;
    } else {
      assert (a + b)[0] == a[0] && (a + b)[1..] == a[1..] + b;
      var m := Matching(previous, a[0].1);
      BindHeadersAppend(a[1..], b, previous,
                        if m.Some? then headers[a[0].0 := [Placeholder(RefOf(m.value))]] else headers);
    }
  }

  method BindValues(steps: array<WorkflowStep>, h: Header, index: map<string, Source>,
                    ghost previous: seq<Source>, start: map<string, seq<string>>)
    returns (headers: map<string, seq<string>>, changed: bool, ghost uses: seq<Source>)
    requires Indexes(index, previous)
    modifies steps
    ensures headers == BindHeaders(ValuePairs(h), previous, start)
    ensures uses == HeaderUses(ValuePairs(h), previous)
    ensures changed <==> uses != []
    ensures steps[..] == EnsureAll(old(steps[..]), uses)
  {
    headers, changed, uses := start, false, [];
    ghost var before, pairs := steps[..], ValuePairs(h);
    for i := 0 to |h.values|
      invariant BindHeaders(pairs[i..], previous, headers) == BindHeaders(pairs, previous, start)
      invariant uses + HeaderUses(pairs[i..], previous) == HeaderUses(pairs, previous)
      invariant changed <==> uses != []
      invariant steps[..] == EnsureAll(before, uses)
    {
      var value := h.values[i];
      assert pairs[i..][0] == (h.name, value) && pairs[i..][1..] == pairs[i + 1..];
      assert Matching(previous, value) == if value in index then Some(index[value]) else None;
      if value in index {
        var source := index[value];
        ghost var rest := HeaderUses(pairs[i + 1..], previous);
        headers := headers[h.name := [Placeholder(RefOf(source))]];
        EnsureExtraction(steps, source);
        EnsureAllSnoc(before, uses, source);
        assert uses + ([source] + rest) == (uses + [source]) + rest;
        uses := uses + [source];
        changed := true;
      } else {
        assert HeaderUses(pairs[i..], previous) == HeaderUses(pairs[i + 1..], previous);
      }
    }
    assert pairs[|h.values|..] == [];
  }

  lemma {:induction false} NothingToBind(
      steps: seq<WorkflowStep>, previous: seq<Source>, headers: map<string, seq<string>>)
    ensures HeaderPairs([]) == [] && BindHeaders([], previous, headers) == headers && HeaderUses([], previous) == []
    ensures EnsureAll(steps, []) == steps
  {
  }

  method BindHeaderValues(steps: array<WorkflowStep>, all: seq<Header>, index: map<string, Source>,
                          ghost previous: seq<Source>, start: map<string, seq<string>>)
    returns (headers: map<string, seq<string>>, changed: bool, ghost uses: seq<Source>)
    requires Indexes(index, previous)
    modifies steps
    ensures headers == BindHeaders(HeaderPairs(all), previous, start)
    ensures uses == HeaderUses(HeaderPairs(all), previous)
    ensures changed <==> uses != []
    ensures steps[..] == EnsureAll(old(steps[..]), uses)
  {
    hide Indexes, Matching, EnsureAll, BindHeaders, HeaderUses;
    headers, changed, uses := start, false, [];
    NothingToBind(steps[..], previous, start);
    ghost var before := steps[..];
    for k := 0 to |all|
      invariant BindHeaders(HeaderPairs(all[k..]), previous, headers) == BindHeaders(HeaderPairs(all), previous, start)
      invariant uses + HeaderUses(HeaderPairs(all[k..]), previous) == HeaderUses(HeaderPairs(all), previous)
      invariant changed <==> uses != []
      invariant steps[..] == EnsureAll(before, uses)
    {
      ghost var rest := HeaderPairs(all[k + 1..]);
      assert HeaderPairs(all[k..]) == ValuePairs(all[k]) + rest by {
        assert all[k..][1..] == all[k + 1..];
      }
      HeaderUsesAppend(ValuePairs(all[k]), rest, previous);
      BindHeadersAppend(ValuePairs(all[k]), rest, previous, headers);
      var bound, more, here := BindValues(steps, all[k], index, previous, headers);
      EnsureAllAppend(before, uses, here);
      assert uses + (here + HeaderUses(rest, previous)) == (uses + here) + HeaderUses(rest, previous);
      headers, changed, uses := bound, changed || more, uses + here;
    }
    assert all[|all|..] == [];
    NothingToBind(before, previous, headers);
  }

  method BindBodyText(steps: array<WorkflowStep>, start: string, previous: seq<Source>)
    returns (text: string, changed: bool, ghost uses: seq<Source>)
    modifies steps
    ensures text == BindBody(start, previous)
    ensures uses == BodyUses(start, previous)
    ensures changed <==> uses != []
    ensures steps[..] == EnsureAll(old(steps[..]), uses)
  {
    text, changed, uses := start, false, [];
    ghost var before := steps[..];
    for k := 0 to |previous|
      invariant BindBody(text, previous[k..]) == BindBody(start, previous)
      invariant uses + BodyUses(text, previous[k..]) == BodyUses(start, previous)
      invariant changed <==> uses != []
      invariant steps[..] == EnsureAll(before, uses)
    {
      var source := previous[k];
      assert previous[k..][0] == source && previous[k..][1..] == previous[k + 1..];
      if source.value != "" && Contains(text, source.value) {
        ghost var more := BodyUses(BindOne(text, source), previous[k + 1..]);
        assert uses + ([source] + more) == (uses + [source]) + more;
        text := ReplaceAll(text, source.value, Placeholder(RefOf(source)));
        EnsureExtraction(steps, source);
        EnsureAllSnoc(before, uses, source);
        uses := uses + [source];
        changed := true;
      } else {
        assert BodyUses(text, previous[k..]) == BodyUses(text, previous[k + 1..]);
      }
    }
    assert previous[|previous|..] == [];
  }

  method CollectSources(start: seq<Source>, startIndex: map<string, Source>, offered: seq<Source>)
    returns (previous: seq<Source>, index: map<string, Source>)
    requires Indexes(startIndex, start)
    ensures previous == Collect(start, offered) && Indexes(index, previous)
  {
    previous, index := start, startIndex;
    for k := 0 to |offered|
      invariant Collect(previous, offered[k..]) == Collect(start, offered)
      invariant Indexes(index, previous)
    {
      var source := offered[k];
      assert offered[k..][0] == source && offered[k..][1..] == offered[k + 1..];
      if |previous| >= MAX_SOURCES { break; }
      assert Matching(previous, source.value) == if source.value in index then Some(index[source.value]) else None;
      if Useful(source.value) && source.value !in index {
        IndexGrows(index, previous, source);
        previous := previous + [source];
        index := index[source.value := source];
      }
    }
  }

  lemma {:induction false} EnsureAllAppend(steps: seq<WorkflowStep>, a: seq<Source>, b: seq<Source>)
    ensures EnsureAll(steps, a + b) == EnsureAll(EnsureAll(steps, a), b)
    decreases |a|
  {
    if a == [] {
      assert a + b == b;
    } else {
      assert (a + b)[0] == a[0] && (a + b)[1..] == a[1..] + b;
      EnsureAllAppend(Ensure(steps, a[0]), a[1..], b);
    }
  }

  /** Extractions and overrides are different columns: the order of writing them does not matter. */
  lemma {:induction false} EnsureKeepsOverrides(steps: seq<WorkflowStep>, j: nat, o: Stored, s: Source)
    requires j < |steps|
    ensures Ensure(steps, s)[j].overrides == steps[j].overrides
    ensures Ensure(steps[j := steps[j].(overrides := o)], s)
      == Ensure(steps, s)[j := Ensure(steps, s)[j].(overrides := o)]
  {
    var other := steps[j := steps[j].(overrides := o)];
    if steps[0].id == s.step {
      if j > 0 { assert other[1..] == steps[1..][j - 1 := other[j]]; }
    } else if j > 0 {
      assert other[1..] == steps[1..][j - 1 := steps[1..][j - 1].(overrides := o)];
      EnsureKeepsOverrides(steps[1..], j - 1, o, s);
    } else {
      assert other[1..] == steps[1..];
    }
  }

  lemma {:induction false} EnsureAllKeepsOverrides(steps: seq<WorkflowStep>, j: nat, o: Stored, uses: seq<Source>)
    requires j < |steps|
    ensures EnsureAll(steps, uses)[j].overrides == steps[j].overrides
    ensures EnsureAll(steps[j := steps[j].(overrides := o)], uses)
         == EnsureAll(steps, uses)[j := EnsureAll(steps, uses)[j].(overrides := o)]
    decreases |uses|
  {
    if uses != [] {
      EnsureKeepsOverrides(steps, j, o, uses[0]);
      EnsureAllKeepsOverrides(Ensure(steps, uses[0]), j, o, uses[1..]);
    }
  }

  /** Binding one step to what came before it. */
  method BindStep(steps: array<WorkflowStep>, j: nat, flow: Flow, previous: seq<Source>, index: map<string, Source>)
    requires j < steps.Length && Indexes(index, previous)
    requires !steps[j].overrides.Garbled?
    modifies steps
    ensures steps[..] == Round(Draft(old(steps[..]), previous), flow, j).steps
  {
    ghost var was, step := steps[..], steps[j];
    if !steps[j].included || |previous| == 0 {
      assert was[j := step] == was;
      return;
    }
    var overrides := Base(steps[j]);
    var headers, changed, uses := BindHeaderValues(steps, flow.headers, index, previous, overrides.headers);
    var body := overrides.body;
    if flow.request.Some? && 0 < |flow.request.value.text| <= MAX_BODY {
      var text := if body.Some? then body.value else flow.request.value.text;
      var bound, more, bodyUses := BindBodyText(steps, text, previous);
      EnsureAllAppend(was, uses, bodyUses);
      uses := uses + bodyUses;
      changed := changed || more;
      if changed { body := Some(bound); }
    } else {
      assert uses + [] == uses;
    }
    assert uses == Uses(step, flow, previous);
    EnsureAllKeepsOverrides(was, j, BoundOverrides(step, flow, previous), uses);
    if changed {
      steps[j] := steps[j].(overrides := Column(Overrides(headers, overrides.query, body)));
    } else {
      assert was[j := step] == was;
    }
  }

  /** Collecting what one captured response offers. */
  method Harvest(step: WorkflowStep, flow: Flow, start: seq<Source>, startIndex: map<string, Source>)
    returns (previous: seq<Source>, index: map<string, Source>)
    requires Indexes(startIndex, start)
    ensures previous == Collect(start, Offered(step, flow)) && Indexes(index, previous)
  {
    previous, index := start, startIndex;
    if step.included && flow.response.Some? {
      var body := flow.response.value;
      if |body.text| <= MAX_BODY && body.document.Some? {
        var offered := JsonPrimitiveSources(step.id, body.document.value);
        previous, index := CollectSources(previous, index, offered);
      }
    }
  }

  /** `inferCrossStepBindings` on the step slice. `Suggest`, its only caller, stores no malformed overrides. */
  method InferCrossStepBindings(steps: array<WorkflowStep>, flows: seq<Flow>)
    requires steps.Length == |flows|
    requires forall i :: 0 <= i < steps.Length ==> !steps[i].overrides.Garbled?
    modifies steps
    ensures steps[..] == DraftAfter(old(steps[..]), flows, |flows|).steps
  {
    ghost var init := steps[..];
    var previous: seq<Source> := [];
    var index: map<string, Source> := map[];
    for j := 0 to steps.Length
      invariant steps[..] == DraftAfter(init, flows, j).steps
      invariant previous == DraftAfter(init, flows, j).previous
      invariant Indexes(index, previous)
      invariant forall i :: j <= i < steps.Length ==> steps[i].overrides == init[i].overrides
    {
      var step := steps[j];
      RoundKeepsLater(DraftAfter(init, flows, j), flows[j], j);
      BindStep(steps, j, flows[j], previous, index);
      previous, index := Harvest(step, flows[j], previous, index);
    }
  }

  lemma {:induction false} RoundKeepsLater(d: Draft, flow: Flow, j: nat)
    requires j < |d.steps|
    ensures forall i :: 0 <= i < |d.steps| && i != j ==> Round(d, flow, j).steps[i].overrides == d.steps[i].overrides
  {
    var step := d.steps[j];
    var bound := d.steps[j := step.(overrides := BoundOverrides(step, flow, d.previous))];
    forall i | 0 <= i < |d.steps| && i != j
      ensures Round(d, flow, j).steps[i].overrides == d.steps[i].overrides
    {
      EnsureAllKeepsOverrides(bound, i, Absent, Uses(step, flow, d.previous));
    }
  }

  /** The drafted steps, copied to a slice and bound in place. */
  method BindAll(steps: seq<WorkflowStep>, flows: seq<Flow>) returns (bound: seq<WorkflowStep>)
    requires steps == DraftSteps(flows)
    ensures bound == Compiled(flows)
  {
    var slice := new WorkflowStep[|steps|](i requires 0 <= i < |steps| => steps[i]);
    assert slice[..] == steps;
    InferCrossStepBindings(slice, flows);
    bound := slice[..];
  }

  ghost predicate AllFetched(fetched: seq<Option<Flow>>, flows: seq<Flow>)
  {
    |flows| == |fetched| && forall k :: 0 <= k < |flows| ==> fetched[k] == Some(flows[k])
  }

  /** `Suggest`: fetch every flow, draft its step, then bind. Fails on an empty request and on a missing flow. */
  method Suggest(fetched: seq<Option<Flow>>) returns (workflow: Option<(seq<WorkflowStep>, map<string, string>)>)
    ensures workflow.None? <==> fetched == [] || None in fetched
    ensures workflow.Some? ==>
      exists flows :: AllFetched(fetched, flows) && workflow.value == (Compiled(flows), Defaults(flows))
  {
    hide DraftStep, FieldDefaults, BodyFields, Compiled;
    if |fetched| == 0 { return None; }
    var flows: seq<Flow> := [];
    var steps: seq<WorkflowStep> := [];
    var defaults: map<string, string> := map[];
    for i := 0 to |fetched|
      invariant AllFetched(fetched[..i], flows)
      invariant None !in fetched[..i]
      invariant steps == DraftSteps(flows)
      invariant defaults == Defaults(flows)
    {
      if fetched[i].None? { return None; }
      var flow := fetched[i].value;
      defaults := FieldDefaults(BodyFields(flow), defaults);
      steps := steps + [DraftStep(flow, i)];
      assert (flows + [flow])[..i] == flows;
      assert fetched[..i + 1] == fetched[..i] + [fetched[i]];
      flows := flows + [flow];
    }
    assert fetched[..|fetched|] == fetched;
    var bound := BindAll(steps, flows);
    workflow := Some((bound, defaults));
  }
}
