/** The replay engine's attempt loop, for arbitrary adapter and store failures. */
module Retry {
  import opened Options

  /** What attempt `k` meets: no reply, a reply that could not be stored, or a reply stored under an id. */
  datatype Attempt =
    | NoReply(error: string)
    | NotStored(status: int, error: string)
    | StoredAs(status: int, id: string)

  /** Local state of the loop, and the flow table. */
  datatype State = State(lastError: Option<string>, status: int, flowId: string, used: nat, flows: map<string, int>)

  datatype ReplayRun = ReplayRun(flowId: string, ok: bool, status: int, attempts: nat, error: string)

  function Attempts(retries: int): (n: nat)
    ensures n >= 1
  {
    if retries + 1 <= 0 then 1 else retries + 1
  }

  function Step(s: State, a: Attempt): State
  {
    var t := s.(used := s.used + 1);
    match a
    case NoReply(e) => t.(lastError := Some(e))
    case NotStored(status, e) => t.(status := status, flowId := "", lastError := Some(e))
    case StoredAs(status, id) => t.(status := status, flowId := id, flows := t.flows[id := status])
  }

  predicate Done(a: Attempt) { a.StoredAs? && a.status < 500 }

  /** The loop from attempt `k` (counting from 1) on. */
  function Loop(world: nat -> Attempt, attempts: nat, k: nat, s: State): State
    decreases attempts + 1 - k
  {
    if k > attempts then s
    else
      var next := Step(s, world(k));
      if Done(world(k)) then next else Loop(world, attempts, k + 1, next)
  }

  function Start(flows: map<string, int>): State { State(None, 0, "", 0, flows) }

  function Report(s: State): ReplayRun
  {
    ReplayRun(s.flowId, s.flowId != "" && 200 <= s.status < 400, s.status, s.used,
              if s.lastError.Some? && s.flowId == "" then s.lastError.value else "")
  }

  /** The engine with its flow table; a fresh id is never empty and never in use. */
  class Engine {
    var flows: map<string, int>

    method Run(world: nat -> Attempt, retries: int) returns (run: ReplayRun)
      modifies this
      ensures run == Report(Loop(world, Attempts(retries), 1, Start(old(flows))))
      ensures flows == Loop(world, Attempts(retries), 1, Start(old(flows))).flows
    {
      var attempts := retries + 1;
      if attempts <= 0 { attempts := 1; }
      var lastError: Option<string> := None;
      var status, flowId, used := 0, "", 0;
      ghost var goal := Loop(world, attempts, 1, Start(flows));
      var attempt := 1;
      while attempt <= attempts
        invariant 1 <= attempt == used + 1 <= attempts + 1
        invariant Loop(world, attempts, attempt, State(lastError, status, flowId, used, flows)) == goal
        decreases attempts - attempt
      {
        used := attempt;
        match world(attempt) {
          case NoReply(e) =>
            lastError := Some(e);
          case NotStored(replied, e) =>
            status, flowId, lastError := replied, "", Some(e);
          case StoredAs(replied, id) =>
            status, flowId := replied, id;
            flows := flows[id := replied];
            if status < 500 { break; }
        }
        attempt := attempt + 1;
      }
      assert State(lastError, status, flowId, used, flows) == goal;
      run := ReplayRun(flowId, flowId != "" && 200 <= status < 400, status, used,
                       if lastError.Some? && flowId == "" then lastError.value else "");
    }
  }

  // ----- what a finished loop says

  /** Ids handed out by the store are new and not empty. */
  ghost predicate FreshIds(world: nat -> Attempt, attempts: nat, flows: map<string, int>)
  {
    (forall k :: 1 <= k <= attempts && world(k).StoredAs? ==> world(k).id != "" && world(k).id !in flows) &&
    (forall j, k :: 1 <= j < k <= attempts && world(j).StoredAs? && world(k).StoredAs? ==> world(j).id != world(k).id)
  }

  /** The last attempt up to `n` that was replied to; 0 if none. */
  function LastReply(world: nat -> Attempt, n: nat): (k: nat)
    ensures k <= n
    ensures k > 0 ==> !world(k).NoReply?
    ensures forall j :: k < j <= n ==> world(j).NoReply?
  {
    if n == 0 then 0 else if !world(n).NoReply? then n else LastReply(world, n - 1)
  }

  /** Status and flow id are those of the last attempt that was replied to. */
  ghost predicate ReplyOk(world: nat -> Attempt, s: State)
  {
    var k := LastReply(world, s.used);
    s.status == (if k == 0 then 0 else world(k).status) &&
    s.flowId == (if k > 0 && world(k).StoredAs? then world(k).id else "")
  }

  ghost predicate ErrorOk(world: nat -> Attempt, s: State)
  {
    if s.lastError.None? then forall j :: 1 <= j <= s.used ==> world(j).StoredAs?
    else exists j :: 1 <= j <= s.used && !world(j).StoredAs? && s.lastError == Some(world(j).error)
  }

  ghost predicate StoredBy(world: nat -> Attempt, n: nat, id: string)
  {
    exists j :: 1 <= j <= n && world(j).StoredAs? && world(j).id == id
  }

  /** The table holds the old flows and the stored replies, each with its status. */
  ghost predicate TableOk(world: nat -> Attempt, before: map<string, int>, n: nat, flows: map<string, int>)
  {
    (forall id :: id in flows <==> id in before || StoredBy(world, n, id)) &&
    (forall id :: id in before ==> id in flows && flows[id] == before[id]) &&
    (forall j :: 1 <= j <= n && world(j).StoredAs? ==> world(j).id in flows && flows[world(j).id] == world(j).status)
  }

  /** The state speaks of exactly the attempts made. */
  ghost predicate Faithful(world: nat -> Attempt, before: map<string, int>, s: State)
  {
    ReplyOk(world, s) && ErrorOk(world, s) && TableOk(world, before, s.used, s.flows)
  }

  lemma {:induction false} StepReply(world: nat -> Attempt, s: State)
    requires ReplyOk(world, s)
    ensures ReplyOk(world, Step(s, world(s.used + 1)))
  {
  }

  lemma {:induction false} StepError(world: nat -> Attempt, s: State)
    requires ErrorOk(world, s)
    ensures ErrorOk(world, Step(s, world(s.used + 1)))
  {
    var k := s.used + 1;
    var next := Step(s, world(k));
    if !world(k).StoredAs? {
      assert 1 <= k <= next.used && next.lastError == Some(world(k).error);
    } else if s.lastError.Some? {
      var j :| 1 <= j <= s.used && !world(j).StoredAs? && s.lastError == Some(world(j).error);
      assert j <= next.used;
    }
  }

  lemma {:induction false} StoredOneMore(world: nat -> Attempt, n: nat, id: string)
    ensures StoredBy(world, n + 1, id) <==> StoredBy(world, n, id) || (world(n + 1).StoredAs? && world(n + 1).id == id)
  {
    if StoredBy(world, n, id) {
      var j :| 1 <= j <= n && world(j).StoredAs? && world(j).id == id;
      assert j <= n + 1;
    }
  }

  lemma {:induction false} StepTable(
      world: nat -> Attempt, attempts: nat, before: map<string, int>, n: nat, flows: map<string, int>)
    requires FreshIds(world, attempts, before) && n < attempts && TableOk(world, before, n, flows)
    ensures
      var a := world(n + 1);
      TableOk(world, before, n + 1, if a.StoredAs? then flows[a.id := a.status] else flows)
  {
    forall id { StoredOneMore(world, n, id); }
  }

  lemma {:induction false} StepFaithful(world: nat -> Attempt, attempts: nat, before: map<string, int>, s: State)
    requires FreshIds(world, attempts, before) && s.used < attempts && Faithful(world, before, s)
    ensures Faithful(world, before, Step(s, world(s.used + 1)))
  {
    hide ReplyOk, ErrorOk, TableOk, FreshIds;
    StepReply(world, s);
    StepError(world, s);
    StepTable(world, attempts, before, s.used, s.flows);
  }

  lemma {:induction false} LoopFaithful(
      world: nat -> Attempt, attempts: nat, before: map<string, int>, k: nat, s: State)
    requires FreshIds(world, attempts, before) && Faithful(world, before, s) && k == s.used + 1
    ensures Faithful(world, before, Loop(world, attempts, k, s))
    decreases attempts + 1 - k
  {
    hide Faithful, FreshIds;
    if k <= attempts {
      StepFaithful(world, attempts, before, s);
      if !Done(world(k)) { LoopFaithful(world, attempts, before, k + 1, Step(s, world(k))); }
    }
  }

  /** Only the last attempt made can have been stored with a status below 500, and stopping early needs that. */
  lemma {:induction false} LoopBounds(world: nat -> Attempt, attempts: nat, k: nat, s: State)
    requires 1 <= k == s.used + 1 <= attempts + 1
    requires forall j :: 1 <= j < k ==> !Done(world(j))
    ensures
      var r := Loop(world, attempts, k, s);
      s.used <= r.used <= attempts && (k <= attempts ==> r.used >= k) &&
      (forall j :: 1 <= j < r.used ==> !Done(world(j))) &&
      (r.used < attempts ==> r.used >= 1 && Done(world(r.used)))
    decreases attempts + 1 - k
  {
    if k <= attempts && !Done(world(k)) {
      LoopBounds(world, attempts, k + 1, Step(s, world(k)));
    }
  }

  lemma {:induction false} ReportedId(world: nat -> Attempt, before: map<string, int>, s: State)
    requires Faithful(world, before, s)
    ensures s.flowId != "" ==> s.flowId in s.flows && s.flows[s.flowId] == s.status && StoredBy(world, s.used, s.flowId)
  {
    var k := LastReply(world, s.used);
    if s.flowId != "" { assert world(k).StoredAs? && 1 <= k <= s.used; }
  }

  /** The error is that of one of the first `n` attempts, which was not stored. */
  ghost predicate FailedWith(world: nat -> Attempt, n: nat, error: Option<string>)
  {
    exists j :: 1 <= j <= n && !world(j).StoredAs? && error == Some(world(j).error)
  }

  /** For every pattern of adapter and store failures: between one and max(1, retries + 1) attempts are made, and
      fewer than that only after a stored reply below 500; every earlier stored reply is 500 or above; a reported flow
      id names a flow this run stored, with the reported status; without one an error was recorded and is reported;
      and the flow table gains exactly the replies that were stored. */
  lemma {:induction false} RunOutcome(world: nat -> Attempt, retries: int, before: map<string, int>)
    requires FreshIds(world, Attempts(retries), before)
    ensures
      var s := Loop(world, Attempts(retries), 1, Start(before));
      var run := Report(s);
      1 <= run.attempts <= (if retries > 0 then retries + 1 else 1) &&
      (run.attempts < retries + 1 ==> world(run.attempts).StoredAs? && world(run.attempts).status < 500) &&
      (forall j :: 1 <= j < run.attempts && world(j).StoredAs? ==> world(j).status >= 500) &&
      (run.flowId != "" ==> run.flowId !in before && run.flowId in s.flows && s.flows[run.flowId] == run.status) &&
      (run.flowId != "" ==> run.error == "") &&
      (run.flowId == "" ==> !run.ok && FailedWith(world, run.attempts, s.lastError)) &&
      (run.ok <==> run.flowId != "" && 200 <= run.status < 400) &&
      Faithful(world, before, s)
  {
    var attempts := Attempts(retries);
    LoopFaithful(world, attempts, before, 1, Start(before));
    LoopBounds(world, attempts, 1, Start(before));
    var s := Loop(world, attempts, 1, Start(before));
    assert world(s.used).StoredAs? ==> LastReply(world, s.used) == s.used && world(s.used).id != "";
    ReportedId(world, before, s);
  }

  /** The number of attempts is that of the first one stored with a status below 500, or as many as allowed. */
  lemma {:induction false} AttemptsExactly(world: nat -> Attempt, retries: int, before: map<string, int>, n: nat)
    requires 1 <= n <= (if retries > 0 then retries + 1 else 1)
    requires forall j :: 1 <= j < n ==> !(world(j).StoredAs? && world(j).status < 500)
    requires (world(n).StoredAs? && world(n).status < 500) || n >= retries + 1
    ensures Report(Loop(world, Attempts(retries), 1, Start(before))).attempts == n
  {
    LoopBounds(world, Attempts(retries), 1, Start(before));
  }
}
