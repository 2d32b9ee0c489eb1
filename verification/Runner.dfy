/** Running a workflow: replay each included step, refresh authentication at most once per step, extract outputs. */
module Runner {
  import opened Options
  import opened Json
  import opened Text
  import opened Paths
  import opened Templates
  import opened Compiler

  // ----- the replay engine, seen from the runner

  datatype Response = Response(text: string, document: Option<Json>, headers: map<string, string>)

  /** Loading the stored response of a replay may fail; assertions and extraction load it separately. */
  datatype Fetch = Missing(error: string) | Got(response: Response)

  datatype Replay = Replay(ok: bool, status: int, error: string, asserted: Fetch, extracted: Fetch)

  /** What one call of the engine yields. A run is driven by an arbitrary sequence of these. */
  datatype Outcome = Refused(error: string) | Replied(replay: Replay)

  datatype Params = Params(inputs: map<string, string>, dryRun: bool, refreshFlow: string)

  datatype Failure =
    | NoFailure
    | BadOverrides
    | EngineError(error: string)
    | ReplayError(error: string)
    | StatusNotAllowed(status: int)
    | ResponseUnavailable(error: string)
    | MissingHeader(name: string)
    | MissingText(needle: string)
    | MissingPath(path: string)

  datatype StepRun = StepRun(stepId: string, flowId: string, ok: bool, status: int, failure: Failure)

  datatype RunError =
    | NoError
    | StepError(failure: Failure)
    | RefreshFailed(failure: Failure)
    | AssertionFailed(stepId: string, failure: Failure)
    | ExtractionFailed(stepId: string)

  // ----- one step

  predicate StatusAllowed(status: int, allowed: seq<int>)
  {
    if allowed == [] then 200 <= status < 400 else status in allowed
  }

  function FromError(error: string): Failure { if error == "" then NoFailure else ReplayError(error) }

  function FirstMissingHeader(names: seq<string>, headers: map<string, string>): Failure
  {
    if names == [] then NoFailure
    else if names[0] in headers && headers[names[0]] != "" then FirstMissingHeader(names[1..], headers)
    else MissingHeader(names[0])
  }

  function FirstMissingText(needles: seq<string>, text: string): Failure
  {
    if needles == [] then NoFailure
    else if Contains(text, needles[0]) then FirstMissingText(needles[1..], text)
    else MissingText(needles[0])
  }

  function ReadBody(response: Response, path: string): Option<Json>
  {
    if response.document.Some? then ReadPath(response.document.value, path) else None
  }

  function FirstMissingPath(paths: seq<string>, response: Response): Failure
  {
    if paths == [] then NoFailure
    else if ReadBody(response, paths[0]).Some? then FirstMissingPath(paths[1..], response)
    else MissingPath(paths[0])
  }

  /** `assertStep`: verdict and message. */
  function AssertStep(replay: Replay, step: WorkflowStep, dryRun: bool): (bool, Failure)
  {
    if dryRun then (true, NoFailure)
    else if !StatusAllowed(replay.status, step.statuses) then (false, StatusNotAllowed(replay.status))
    else if step.jsonPaths == [] && step.headerNames == [] && step.needles == [] then
      (replay.ok, FromError(replay.error))
    else
      match replay.asserted
      case Missing(e) => (false, ResponseUnavailable(e))
      case Got(response) =>
        var h := FirstMissingHeader(step.headerNames, response.headers);
        var t := FirstMissingText(step.needles, response.text);
        var p := FirstMissingPath(step.jsonPaths, response);
        if h != NoFailure then (false, h)
        else if t != NoFailure then (false, t)
        else if p != NoFailure then (false, p)
        else (replay.ok, FromError(replay.error))
  }

  /** A dry run prepares the request and stores no response. */
  function Executed(outcome: Outcome, dryRun: bool): Outcome
  {
    if dryRun && outcome.Replied? then Replied(Replay(true, 0, "", Missing("unavailable"), Missing("unavailable")))
    else outcome
  }

  datatype Attempt = Attempt(run: StepRun, failed: bool, stored: Fetch, calls: nat)

  /** `runStep`: overrides that do not decode fail before the engine is called. */
  function Try(step: WorkflowStep, params: Params, outcomes: nat -> Outcome, calls: nat): Attempt
  {
    if step.overrides.Garbled? then
      Attempt(StepRun(step.id, step.flowId, false, 0, BadOverrides), true, Missing("not run"), calls)
    else
      match Executed(outcomes(calls), params.dryRun)
      case Refused(e) =>
        Attempt(StepRun(step.id, step.flowId, false, 0, EngineError(e)), true, Missing("not run"), calls + 1)
      case Replied(replay) =>
        var (ok, failure) := AssertStep(replay, step, params.dryRun);
        var message := if replay.error != "" && failure == NoFailure then ReplayError(replay.error) else failure;
        Attempt(StepRun(step.id, step.flowId, ok, replay.status, message), false, replay.extracted, calls + 1)
  }

  predicate AuthFailure(status: int) { status == 401 || status == 403 || status == 419 || status == 440 }

  predicate Refreshable(params: Params) { !params.dryRun && params.refreshFlow != "" }

  /** The replay inside `tryAuthRefresh`. */
  function Refresh(params: Params, outcome: Outcome): StepRun
  {
    match outcome
    case Refused(e) => StepRun("auth_refresh", params.refreshFlow, false, 0, EngineError(e))
    case Replied(replay) =>
      StepRun("auth_refresh", params.refreshFlow, replay.ok, replay.status, FromError(replay.error))
  }

  /** The records one step contributes, and whether the run may go on. */
  datatype Block = Block(runs: seq<StepRun>, stop: RunError, stored: Fetch, calls: nat)

  function Verdict(step: WorkflowStep, before: seq<StepRun>, a: Attempt): Block
  {
    var stop :=
      if a.failed then StepError(a.run.failure)
      else if !a.run.ok then AssertionFailed(step.id, a.run.failure)
      else NoError;
    Block(before + [a.run], stop, a.stored, a.calls)
  }

  function RunStep(step: WorkflowStep, params: Params, outcomes: nat -> Outcome, calls: nat): Block
  {
    var first := Try(step, params, outcomes, calls);
    if !first.failed && !first.run.ok && Refreshable(params) && AuthFailure(first.run.status) then
      var refresh := Refresh(params, outcomes(first.calls));
      if refresh.ok then
        Verdict(step, [first.run, refresh], Try(step, params, outcomes, first.calls + 1))
      else
        Block([first.run, refresh], RefreshFailed(refresh.failure), first.stored, first.calls + 1)
    else
      Verdict(step, [], first)
  }

  predicate AllReadable(paths: set<string>, response: Response)
  {
    forall path :: path in paths ==> ReadBody(response, path).Some?
  }

  /** `extractStepOutputs`: all paths or nothing. */
  function Extracted(step: WorkflowStep, stored: Fetch): Option<map<string, string>>
  {
    if step.extract == map[] then Some(map[])
    else if stored.Missing? then None
    else if AllReadable(step.extract.Values, stored.response) then
      Some(map key | key in step.extract ::
             assert step.extract[key] in step.extract.Values;
             Sprint(ReadBody(stored.response, step.extract[key]).value))
    else None
  }

  method ExtractStepOutputs(step: WorkflowStep, stored: Fetch) returns (r: Option<map<string, string>>)
    ensures r == Extracted(step, stored)
  {
    if step.extract == map[] { return Some(map[]); }
    if stored.Missing? { return None; }
    var out: map<string, string> := map[];
    var keys := step.extract.Keys;
    while keys != {}
      invariant keys <= step.extract.Keys
      invariant out.Keys == step.extract.Keys - keys
      invariant forall key :: key in out ==>
        ReadBody(stored.response, step.extract[key]).Some? &&
        out[key] == Sprint(ReadBody(stored.response, step.extract[key]).value)
    {
      var key :| key in keys;
      var value := ReadBody(stored.response, step.extract[key]);
      if value.None? {
        assert step.extract[key] in step.extract.Values;
        return None;
      }
      out := out[key := Sprint(value.value)];
      keys := keys - {key};
    }
    forall path | path in step.extract.Values
      ensures ReadBody(stored.response, path).Some?
    {
      var key :| key in step.extract && step.extract[key] == path;
      assert key in out;
    }
    assert out == Extracted(step, stored).value;
    r := Some(out);
  }

  // ----- the whole run

  /** A request leaving for step `step`, with the step outputs known at that moment. */
  datatype Send = Send(step: nat, outputs: Outputs)

  datatype State = State(trace: seq<StepRun>, outputs: Outputs, calls: nat, sends: seq<Send>)

  datatype Result = Result(trace: seq<StepRun>, ok: bool, error: RunError, sends: seq<Send>)

  const START := State([], map[], 0, [])

  function Record(s: State, i: nat, block: Block): State
  {
    State(s.trace + block.runs, s.outputs, block.calls, s.sends + [Send(i, s.outputs)])
  }

  function WithOutputs(outputs: Outputs, id: string, more: map<string, string>): Outputs
  {
    if more == map[] then outputs else outputs[id := more]
  }

  /** The run from step `i` on. */
  function RunFrom(steps: seq<WorkflowStep>, i: nat, s: State, params: Params, outcomes: nat -> Outcome): Result
    requires i <= |steps|
    decreases |steps| - i
  {
    if i == |steps| then Result(s.trace, true, NoError, s.sends)
    else if !steps[i].included then RunFrom(steps, i + 1, s, params, outcomes)
    else
      var block := RunStep(steps[i], params, outcomes, s.calls);
      var next := Record(s, i, block);
      if block.stop != NoError then Result(next.trace, false, block.stop, next.sends)
      else
        match Extracted(steps[i], block.stored)
        case None => Result(next.trace, false, ExtractionFailed(steps[i].id), next.sends)
        case Some(more) =>
          RunFrom(steps, i + 1, next.(outputs := WithOutputs(s.outputs, steps[i].id, more)), params, outcomes)
  }

  function Run(steps: seq<WorkflowStep>, params: Params, outcomes: nat -> Outcome): Result
  {
    RunFrom(steps, 0, START, params, outcomes)
  }

  /** The loop of `Run`. */
  method RunWorkflow(steps: seq<WorkflowStep>, params: Params, outcomes: nat -> Outcome)
    returns (trace: seq<StepRun>, ok: bool, error: RunError, ghost sends: seq<Send>)
    ensures trace == Run(steps, params, outcomes).trace
    ensures ok == Run(steps, params, outcomes).ok && error == Run(steps, params, outcomes).error
    ensures sends == Run(steps, params, outcomes).sends
  {
    hide Try, Refresh, Extracted;
    trace, ok, error, sends := [], true, NoError, [];
    var outputs: Outputs := map[];
    var calls := 0;
    for i := 0 to |steps|
      invariant ok && error == NoError
      invariant RunFrom(steps, i, State(trace, outputs, calls, sends), params, outcomes) == Run(steps, params, outcomes)
    {
      var step := steps[i];
      if !step.included { continue; }
      ghost var before := State(trace, outputs, calls, sends);
      ghost var block := RunStep(step, params, outcomes, calls);
      sends := sends + [Send(i, outputs)];
      var attempt := Try(step, params, outcomes, calls);
      calls := attempt.calls;
      if attempt.failed {
        ok, error, trace := false, StepError(attempt.run.failure), trace + [attempt.run];
        return;
      }
      if !attempt.run.ok && Refreshable(params) && AuthFailure(attempt.run.status) {
        var refresh := Refresh(params, outcomes(calls));
        calls := calls + 1;
        trace := trace + [attempt.run] + [refresh];
        assert trace == before.trace + [attempt.run, refresh];
        if !refresh.ok {
          ok, error := false, RefreshFailed(refresh.failure);
          return;
        }
        ghost var records := [attempt.run, refresh];
        attempt := Try(step, params, outcomes, calls);
        calls := attempt.calls;
        assert trace + [attempt.run] == before.trace + (records + [attempt.run]);
        if attempt.failed {
          ok, error, trace := false, StepError(attempt.run.failure), trace + [attempt.run];
          return;
        }
      } else {
        assert trace + [attempt.run] == before.trace + ([] + [attempt.run]);
      }
      trace := trace + [attempt.run];
      assert trace == before.trace + block.runs && calls == block.calls;
      if !attempt.run.ok {
        ok, error := false, AssertionFailed(step.id, attempt.run.failure);
        return;
      }
      var extracted := ExtractStepOutputs(step, attempt.stored);
      if extracted.None? {
        ok, error := false, ExtractionFailed(step.id);
        return;
      }
      if |extracted.value| > 0 {
        outputs := outputs[step.id := extracted.value];
      }
    }
  }

  // ----- a run all of whose steps pass

  /** Step `i`, started with `calls[i]` engine calls and `outs[i]` made, passes and leaves `calls[i + 1]` and
      `outs[i + 1]`. */
  ghost predicate Passes(
      steps: seq<WorkflowStep>, i: nat, calls: seq<nat>, outs: seq<Outputs>, params: Params, outcomes: nat -> Outcome)
    requires i < |steps| && |calls| == |outs| == |steps| + 1
  {
    if steps[i].included then
      var block := RunStep(steps[i], params, outcomes, calls[i]);
      var extracted := Extracted(steps[i], block.stored);
      block.stop == NoError && block.calls == calls[i + 1] && extracted.Some? &&
      outs[i + 1] == WithOutputs(outs[i], steps[i].id, extracted.value)
    else calls[i + 1] == calls[i] && outs[i + 1] == outs[i]
  }

  /** One request for each included step from `i` up to, not including, `m`. */
  function SendsBetween(steps: seq<WorkflowStep>, outs: seq<Outputs>, i: nat, m: nat): seq<Send>
    requires i <= m <= |steps| < |outs|
    decreases m - i
  {
    if i == m then [] else SendOf(steps, outs, i) + SendsBetween(steps, outs, i + 1, m)
  }

  function SendOf(steps: seq<WorkflowStep>, outs: seq<Outputs>, i: nat): seq<Send>
    requires i < |steps| < |outs|
  {
    if steps[i].included then [Send(i, outs[i])] else []
  }

  /** The state after a passing step. */
  function PassedState(steps: seq<WorkflowStep>, i: nat, s: State, outs: seq<Outputs>, params: Params,
                       outcomes: nat -> Outcome): State
    requires i < |steps| < |outs|
  {
    if steps[i].included then Record(s, i, RunStep(steps[i], params, outcomes, s.calls)).(outputs := outs[i + 1]) else s
  }

  /** A run whose steps pass up to `n` goes on from there, with one request sent for each included one of them. */
  lemma {:induction false} PassingRun(
      steps: seq<WorkflowStep>, i: nat, n: nat, s: State, calls: seq<nat>, outs: seq<Outputs>, params: Params,
      outcomes: nat -> Outcome) returns (at: State)
    requires i <= n <= |steps| && |calls| == |outs| == |steps| + 1
    requires forall k :: i <= k < n ==> Passes(steps, k, calls, outs, params, outcomes)
    requires s.calls == calls[i] && s.outputs == outs[i]
    ensures RunFrom(steps, i, s, params, outcomes) == RunFrom(steps, n, at, params, outcomes)
    ensures at.calls == calls[n] && at.outputs == outs[n] && at.sends == s.sends + SendsBetween(steps, outs, i, n)
    decreases n - i
  {
    hide RunStep, Extracted, WithOutputs;
    if i < n {
      assert Passes(steps, i, calls, outs, params, outcomes);
      var next := PassedState(steps, i, s, outs, params, outcomes);
      at := PassingRun(steps, i + 1, n, next, calls, outs, params, outcomes);
      var here := SendOf(steps, outs, i);
      assert (s.sends + here) + SendsBetween(steps, outs, i + 1, n)
        == s.sends + (here + SendsBetween(steps, outs, i + 1, n));
      assert s.sends + here == next.sends;
    } else {
      at := s;
      assert s.sends + [] == s.sends;
    }
  }

  /** When all steps pass, the run is ok and has sent every included step. */
  lemma {:induction false} CompleteRun(
      steps: seq<WorkflowStep>, calls: seq<nat>, outs: seq<Outputs>, params: Params, outcomes: nat -> Outcome)
    requires |calls| == |outs| == |steps| + 1 && calls[0] == 0 && outs[0] == map[]
    requires forall k :: 0 <= k < |steps| ==> Passes(steps, k, calls, outs, params, outcomes)
    ensures
      var r := Run(steps, params, outcomes);
      r.ok && r.error == NoError && r.sends == SendsBetween(steps, outs, 0, |steps|)
  {
    hide RunStep, Extracted, WithOutputs;
    var at := PassingRun(steps, 0, |steps|, START, calls, outs, params, outcomes);
    assert [] + SendsBetween(steps, outs, 0, |steps|) == SendsBetween(steps, outs, 0, |steps|);
  }

  /** When the steps before `n` pass and step `n` is stopped, the run fails, having sent the included ones up to it.
      */
  lemma {:induction false} StoppedRun(
      steps: seq<WorkflowStep>, n: nat, calls: seq<nat>, outs: seq<Outputs>, params: Params, outcomes: nat -> Outcome)
    requires n < |steps| && |calls| == |outs| == |steps| + 1 && calls[0] == 0 && outs[0] == map[]
    requires forall k :: 0 <= k < n ==> Passes(steps, k, calls, outs, params, outcomes)
    requires steps[n].included && RunStep(steps[n], params, outcomes, calls[n]).stop != NoError
    ensures
      var r := Run(steps, params, outcomes);
      !r.ok && r.sends == SendsBetween(steps, outs, 0, n + 1)
  {
    hide RunStep, Extracted, WithOutputs;
    var at := PassingRun(steps, 0, n, START, calls, outs, params, outcomes);
    SendsSnoc(steps, outs, 0, n);
    assert [] + SendsBetween(steps, outs, 0, n) == SendsBetween(steps, outs, 0, n);
  }

  lemma {:induction false} SendsSnoc(steps: seq<WorkflowStep>, outs: seq<Outputs>, i: nat, n: nat)
    requires i <= n < |steps| < |outs|
    ensures SendsBetween(steps, outs, i, n + 1) == SendsBetween(steps, outs, i, n) + SendOf(steps, outs, n)
    decreases n - i
  {
    hide SendOf;
    var here, last := SendOf(steps, outs, i), SendOf(steps, outs, n);
    if i < n {
      SendsSnoc(steps, outs, i + 1, n);
      assert here + (SendsBetween(steps, outs, i + 1, n) + last) == (here + SendsBetween(steps, outs, i + 1, n)) + last;
    } else {
      assert SendsBetween(steps, outs, n + 1, n + 1) == [] && last + [] == [] + last;
    }
  }

  lemma {:induction false} SendsBetweenAt(steps: seq<WorkflowStep>, outs: seq<Outputs>, i: nat, m: nat)
    requires i <= m <= |steps| < |outs|
    ensures forall send :: send in SendsBetween(steps, outs, i, m) <==>
      i <= send.step < m && steps[send.step].included && send.outputs == outs[send.step]
    decreases m - i
  {
    if i < m { SendsBetweenAt(steps, outs, i + 1, m); }
  }

  // ----- the shape of a trace

  /** The records of a run from step `i` on: one passing record, or an authentication failure, a passing refresh and
      a passing retry, for every included step in order; the last block may fail, and nothing follows a failure. */
  predicate Accepts(trace: seq<StepRun>, steps: seq<WorkflowStep>, i: nat, params: Params, ok: bool, error: RunError)
    requires i <= |steps|
    decreases |steps| - i
  {
    if i == |steps| then trace == [] && ok && error == NoError
    else if !steps[i].included then Accepts(trace, steps, i + 1, params, ok, error)
    else
      trace != [] && trace[0].stepId == steps[i].id && trace[0].flowId == steps[i].flowId &&
      if trace[0].ok then Goes(trace, 1, steps, i, params, ok, error)
      else if !(Refreshable(params) && AuthFailure(trace[0].status)) then
        |trace| == 1 && !ok && (error.StepError? || error == AssertionFailed(steps[i].id, trace[0].failure))
      else
        |trace| >= 2 && trace[1].stepId == "auth_refresh" && trace[1].flowId == params.refreshFlow &&
        if !trace[1].ok then |trace| == 2 && !ok && error == RefreshFailed(trace[1].failure)
        else
          |trace| >= 3 && trace[2].stepId == steps[i].id && trace[2].flowId == steps[i].flowId &&
          if trace[2].ok then Goes(trace, 3, steps, i, params, ok, error)
          else |trace| == 3 && !ok && (error.StepError? || error == AssertionFailed(steps[i].id, trace[2].failure))
  }

  /** After a passing block of `n` records: its extraction fails and the run ends, or the run goes on. */
  predicate Goes(
      trace: seq<StepRun>, n: nat, steps: seq<WorkflowStep>, i: nat, params: Params, ok: bool, error: RunError)
    requires i < |steps| && n <= |trace|
    decreases |steps| - i, 0
  {
    (|trace| == n && !ok && error == ExtractionFailed(steps[i].id)) ||
    Accepts(trace[n..], steps, i + 1, params, ok, error)
  }

  lemma {:induction false} TryRecords(step: WorkflowStep, params: Params, outcomes: nat -> Outcome, calls: nat)
    ensures
      var a := Try(step, params, outcomes, calls);
      a.run.stepId == step.id && a.run.flowId == step.flowId && (a.failed ==> !a.run.ok && a.run.status == 0) &&
      (!a.failed ==> a.calls == calls + 1)
  {
  }

  lemma {:induction false} PartAfter(before: seq<StepRun>, part: seq<StepRun>, all: seq<StepRun>)
    requires before + part <= all
    ensures all[|before|..][..|part|] == part && all[|before|..][|part|..] == all[|before + part|..]
  {
    var n := |before + part|;
    assert all[..n] == before + part && all[|before|..][..|part|] == all[..n][|before|..];
  }

  /** Every run's trace has that shape, for all engine behaviours. */
  lemma {:induction false} TraceGrammar(
      steps: seq<WorkflowStep>, i: nat, s: State, params: Params, outcomes: nat -> Outcome)
    requires i <= |steps|
    ensures
      var r := RunFrom(steps, i, s, params, outcomes);
      s.trace <= r.trace && Accepts(r.trace[|s.trace|..], steps, i, params, r.ok, r.error)
    decreases |steps| - i
  {
    hide Extracted, WithOutputs, Try;
    if i < |steps| {
      if !steps[i].included {
        TraceGrammar(steps, i + 1, s, params, outcomes);
      } else {
        TryRecords(steps[i], params, outcomes, s.calls);
        TryRecords(steps[i], params, outcomes, s.calls + 2);
        var block := RunStep(steps[i], params, outcomes, s.calls);
        var next := Record(s, i, block);
        var r := RunFrom(steps, i, s, params, outcomes);
        assert next.trace[|s.trace|..] == block.runs;
        if block.stop == NoError && Extracted(steps[i], block.stored).Some? {
          var on := next.(outputs := WithOutputs(s.outputs, steps[i].id, Extracted(steps[i], block.stored).value));
          TraceGrammar(steps, i + 1, on, params, outcomes);
          var rest := r.trace[|s.trace|..];
          PartAfter(s.trace, block.runs, r.trace);
          assert |block.runs| == 1 || |block.runs| == 3;
        }
      }
    }
  }

  /** When authentication is refreshed, in numbers: the records of an included step whose first reply is not ok go on
      with the refresh exactly in a live run with a refresh flow, when the status is 401, 403, 419 or 440; after a
      passing refresh the step is tried again, and otherwise its failure ends the run. */
  lemma {:induction false} RefreshExactly(
      steps: seq<WorkflowStep>, i: nat, s: State, params: Params, outcomes: nat -> Outcome)
    requires i < |steps| && steps[i].included && !steps[i].overrides.Garbled?
    requires
      var first := Try(steps[i], params, outcomes, s.calls);
      !first.failed && !first.run.ok
    ensures
      var first, n := Try(steps[i], params, outcomes, s.calls), s.calls + 1;
      var trace := RunFrom(steps, i, s, params, outcomes).trace;
      s.trace <= trace &&
      var records := trace[|s.trace|..];
      records != [] && records[0] == first.run &&
      if !params.dryRun && params.refreshFlow != "" && first.run.status in {401, 403, 419, 440} then
        |records| >= 2 && records[1].stepId == "auth_refresh" && records[1].flowId == params.refreshFlow &&
        (records[1].ok <==> outcomes(n).Replied? && outcomes(n).replay.ok) &&
        if records[1].ok then |records| >= 3 && records[2] == Try(steps[i], params, outcomes, n + 1).run
        else |records| == 2
      else |records| == 1
  {
    hide Try, Extracted, WithOutputs;
    TraceGrammar(steps, i, s, params, outcomes);
    TryRecords(steps[i], params, outcomes, s.calls);
    var block := RunStep(steps[i], params, outcomes, s.calls);
    var next := Record(s, i, block);
    assert next.trace[|s.trace|..] == block.runs;
    if block.stop == NoError && Extracted(steps[i], block.stored).Some? {
      var outputs := WithOutputs(s.outputs, steps[i].id, Extracted(steps[i], block.stored).value);
      TraceGrammar(steps, i + 1, next.(outputs := outputs), params, outcomes);
    }
  }

  /** A step's verdict: a live reply passes exactly when its status is allowed, every asserted header is present and
      not empty, every asserted text stands in the body, every asserted path leads somewhere, and the engine calls it
      ok. */
  lemma {:induction false} AssertsExactly(replay: Replay, step: WorkflowStep)
    ensures AssertStep(replay, step, false).0 <==>
      (if step.statuses == [] then 200 <= replay.status < 400 else replay.status in step.statuses) && replay.ok &&
      (step.headerNames != [] || step.needles != [] || step.jsonPaths != [] ==> replay.asserted.Got?) &&
      (forall name :: name in step.headerNames ==> HasHeader(replay, name)) &&
      (forall needle :: needle in step.needles ==> HasText(replay, needle)) &&
      (forall path :: path in step.jsonPaths ==> HasPath(replay, path))
    ensures AssertStep(replay, step, true) == (true, NoFailure)
  {
    if replay.asserted.Got? {
      var response := replay.asserted.response;
      HeadersExactly(step.headerNames, response.headers);
      NeedlesExactly(step.needles, response.text);
      PathsExactly(step.jsonPaths, response);
    } else {
      assert step.headerNames != [] ==> step.headerNames[0] in step.headerNames;
      assert step.needles != [] ==> step.needles[0] in step.needles;
      assert step.jsonPaths != [] ==> step.jsonPaths[0] in step.jsonPaths;
    }
  }

  /** `x` is the first of the list that fails the test. */
  ghost predicate FirstWithout(list: seq<string>, x: string, has: string -> bool)
  {
    exists k :: StandsFirst(list, x, has, k)
  }

  ghost predicate StandsFirst(list: seq<string>, x: string, has: string -> bool, k: int)
  {
    0 <= k < |list| && list[k] == x && !has(x) && forall i :: 0 <= i < k ==> has(list[i])
  }

  lemma {:induction false} FirstAfter(list: seq<string>, x: string, has: string -> bool)
    requires list != [] && has(list[0]) && FirstWithout(list[1..], x, has)
    ensures FirstWithout(list, x, has)
  {
    var k :| StandsFirst(list[1..], x, has, k);
    assert StandsFirst(list, x, has, k + 1);
  }

  lemma {:induction false} HeaderTold(names: seq<string>, headers: map<string, string>, has: string -> bool)
    requires forall name :: has(name) <==> name in headers && headers[name] != ""
    ensures
      var f := FirstMissingHeader(names, headers);
      f == NoFailure || (f.MissingHeader? && FirstWithout(names, f.name, has))
  {
    if names != [] {
      HeaderTold(names[1..], headers, has);
      var f := FirstMissingHeader(names, headers);
      if !has(names[0]) {
        assert StandsFirst(names, names[0], has, 0);
      } else if f != NoFailure {
        FirstAfter(names, f.name, has);
      }
    }
  }

  lemma {:induction false} TextTold(needles: seq<string>, text: string, has: string -> bool)
    requires forall needle :: has(needle) <==> Contains(text, needle)
    ensures
      var f := FirstMissingText(needles, text);
      f == NoFailure || (f.MissingText? && FirstWithout(needles, f.needle, has))
  {
    if needles != [] {
      TextTold(needles[1..], text, has);
      var f := FirstMissingText(needles, text);
      if !has(needles[0]) {
        assert StandsFirst(needles, needles[0], has, 0);
      } else if f != NoFailure {
        FirstAfter(needles, f.needle, has);
      }
    }
  }

  lemma {:induction false} PathTold(paths: seq<string>, response: Response, has: string -> bool)
    requires forall path :: has(path) <==> ReadBody(response, path).Some?
    ensures
      var f := FirstMissingPath(paths, response);
      f == NoFailure || (f.MissingPath? && FirstWithout(paths, f.path, has))
  {
    if paths != [] {
      PathTold(paths[1..], response, has);
      var f := FirstMissingPath(paths, response);
      if !has(paths[0]) {
        assert StandsFirst(paths, paths[0], has, 0);
      } else if f != NoFailure {
        FirstAfter(paths, f.path, has);
      }
    }
  }

  /** What a failed step reports: its status if that is not allowed, then an unavailable response, then the first
      missing header, then the first missing text, then the first missing path, and the engine's own error if there is
      none of these. */
  lemma {:induction false} FailureTells(replay: Replay, step: WorkflowStep)
    requires !AssertStep(replay, step, false).0
    ensures
      var f := AssertStep(replay, step, false).1;
      var headers := forall name :: name in step.headerNames ==> HasHeader(replay, name);
      var texts := forall needle :: needle in step.needles ==> HasText(replay, needle);
      var paths := forall path :: path in step.jsonPaths ==> HasPath(replay, path);
      if !(if step.statuses == [] then 200 <= replay.status < 400 else replay.status in step.statuses) then
        f == StatusNotAllowed(replay.status)
      else if replay.asserted.Missing? && (step.headerNames != [] || step.needles != [] || step.jsonPaths != []) then
        f == ResponseUnavailable(replay.asserted.error)
      else if !headers then
        f.MissingHeader? && FirstWithout(step.headerNames, f.name, name => HasHeader(replay, name))
      else if !texts then
        f.MissingText? && FirstWithout(step.needles, f.needle, needle => HasText(replay, needle))
      else if !paths then
        f.MissingPath? && FirstWithout(step.jsonPaths, f.path, path => HasPath(replay, path))
      else f == if replay.error == "" then NoFailure else ReplayError(replay.error)
  {
    hide FirstWithout;
    if replay.asserted.Got? {
      var response := replay.asserted.response;
      HeadersExactly(step.headerNames, response.headers);
      NeedlesExactly(step.needles, response.text);
      PathsExactly(step.jsonPaths, response);
      HeaderTold(step.headerNames, response.headers, name => HasHeader(replay, name));
      TextTold(step.needles, response.text, needle => HasText(replay, needle));
      PathTold(step.jsonPaths, response, path => HasPath(replay, path));
    }
  }

  predicate HasHeader(replay: Replay, name: string)
  {
    replay.asserted.Got? && name in replay.asserted.response.headers && replay.asserted.response.headers[name] != ""
  }

  predicate HasText(replay: Replay, needle: string)
  {
    replay.asserted.Got? && Contains(replay.asserted.response.text, needle)
  }

  predicate HasPath(replay: Replay, path: string)
  {
    replay.asserted.Got? && replay.asserted.response.document.Some? &&
    ReadPath(replay.asserted.response.document.value, path).Some?
  }

  lemma {:induction false} HeadersExactly(names: seq<string>, headers: map<string, string>)
    ensures FirstMissingHeader(names, headers) == NoFailure
            <==> forall name :: name in names ==> name in headers && headers[name] != ""
  {
    if names != [] { HeadersExactly(names[1..], headers); }
  }

  lemma {:induction false} NeedlesExactly(needles: seq<string>, text: string)
    ensures FirstMissingText(needles, text) == NoFailure
            <==> forall needle :: needle in needles ==> Contains(text, needle)
  {
    hide Contains;
    if needles != [] {
      NeedlesExactly(needles[1..], text);
      assert needles[0] in needles;
      assert forall needle :: needle in needles <==> needle == needles[0] || needle in needles[1..];
    }
  }

  lemma {:induction false} PathsExactly(paths: seq<string>, response: Response)
    ensures FirstMissingPath(paths, response) == NoFailure
            <==> forall path :: path in paths ==> ReadBody(response, path).Some?
  {
    if paths != [] { PathsExactly(paths[1..], response); }
  }

  function IncludedFrom(steps: seq<WorkflowStep>, i: nat): nat
    requires i <= |steps|
    decreases |steps| - i
  {
    if i == |steps| then 0 else (if steps[i].included then 1 else 0) + IncludedFrom(steps, i + 1)
  }

  /** Consequences of the shape: the length is bounded, refreshes need a refresh flow and a live run, and the run is
      reported ok exactly when it records no error. */
  lemma {:induction false} AcceptedTrace(
      trace: seq<StepRun>, steps: seq<WorkflowStep>, i: nat, params: Params, ok: bool, error: RunError)
    requires i <= |steps| && Accepts(trace, steps, i, params, ok, error)
    ensures |trace| <= 3 * IncludedFrom(steps, i)
    ensures !Refreshable(params) ==> |trace| <= IncludedFrom(steps, i)
    ensures ok <==> error == NoError
    ensures ok ==> |trace| >= IncludedFrom(steps, i) && (trace != [] ==> trace[|trace| - 1].ok)
    decreases |steps| - i
  {
    if i < |steps| {
      if !steps[i].included {
        AcceptedTrace(trace, steps, i + 1, params, ok, error);
      } else if trace[0].ok && Accepts(trace[1..], steps, i + 1, params, ok, error) {
        AcceptedTrace(trace[1..], steps, i + 1, params, ok, error);
      } else if !trace[0].ok && |trace| >= 3 && Accepts(trace[3..], steps, i + 1, params, ok, error) {
        AcceptedTrace(trace[3..], steps, i + 1, params, ok, error);
      }
    }
  }

  // ----- dry runs

  function IncludedBefore(steps: seq<WorkflowStep>, k: nat): nat
    requires k <= |steps|
  {
    if k == 0 then 0 else IncludedBefore(steps, k - 1) + if steps[k - 1].included then 1 else 0
  }

  /** A step a dry run gets past: its overrides decode, its request can be prepared, and nothing is extracted from it.
      */
  predicate DrySafe(steps: seq<WorkflowStep>, k: nat, outcomes: nat -> Outcome)
    requires k < |steps|
  {
    !steps[k].overrides.Garbled? && outcomes(IncludedBefore(steps, k)).Replied? && steps[k].extract == map[]
  }

  /** A dry run of a workflow with extractions fails: it is ok exactly when every included step is safe. */
  lemma {:induction false} DryRunExactly(
      steps: seq<WorkflowStep>, i: nat, s: State, params: Params, outcomes: nat -> Outcome)
    requires i <= |steps| && params.dryRun && s.calls == IncludedBefore(steps, i)
    ensures RunFrom(steps, i, s, params, outcomes).ok
            <==> forall k :: i <= k < |steps| && steps[k].included ==> DrySafe(steps, k, outcomes)
    decreases |steps| - i
  {
    if i < |steps| {
      if !steps[i].included {
        DryRunExactly(steps, i + 1, s, params, outcomes);
      } else if DrySafe(steps, i, outcomes) {
        var block := RunStep(steps[i], params, outcomes, s.calls);
        assert block.stop == NoError && block.calls == s.calls + 1 && Extracted(steps[i], block.stored) == Some(map[]);
        var next := Record(s, i, block).(outputs := WithOutputs(s.outputs, steps[i].id, map[]));
        DryRunExactly(steps, i + 1, next, params, outcomes);
      }
    }
  }

  // ----- what a request can rely on

  /** The outputs hold every key that included steps before `i` extract. */
  ghost predicate Provides(steps: seq<WorkflowStep>, i: nat, outputs: Outputs)
    requires i <= |steps|
  {
    forall a, k :: 0 <= a < i && steps[a].included && k in steps[a].extract ==>
      steps[a].id in outputs && k in outputs[steps[a].id]
  }

  ghost predicate SendOk(steps: seq<WorkflowStep>, send: Send)
  {
    send.step < |steps| && steps[send.step].included && Provides(steps, send.step, send.outputs)
  }

  ghost predicate SendsOk(steps: seq<WorkflowStep>, sends: seq<Send>)
  {
    forall n :: 0 <= n < |sends| ==> SendOk(steps, sends[n])
  }

  lemma {:induction false} ExtractedKeys(step: WorkflowStep, stored: Fetch)
    ensures Extracted(step, stored).Some? ==> Extracted(step, stored).value.Keys == step.extract.Keys
  {
  }

  lemma {:induction false} SendsProvided(
      steps: seq<WorkflowStep>, i: nat, s: State, params: Params, outcomes: nat -> Outcome)
    requires i <= |steps| && Provides(steps, i, s.outputs)
    requires forall a, b :: 0 <= a < b < |steps| ==> steps[a].id != steps[b].id
    requires SendsOk(steps, s.sends)
    ensures SendsOk(steps, RunFrom(steps, i, s, params, outcomes).sends)
    decreases |steps| - i
  {
    hide RunStep, Extracted;
    if i < |steps| {
      if !steps[i].included {
        SendsProvided(steps, i + 1, s, params, outcomes);
      } else {
        var block := RunStep(steps[i], params, outcomes, s.calls);
        var next := Record(s, i, block);
        assert SendOk(steps, Send(i, s.outputs));
        var extracted := Extracted(steps[i], block.stored);
        if block.stop == NoError && extracted.Some? {
          var outputs := WithOutputs(s.outputs, steps[i].id, extracted.value);
          ExtractedKeys(steps[i], block.stored);
          SendsProvided(steps, i + 1, next.(outputs := outputs), params, outcomes);
        }
      }
    }
  }
}
