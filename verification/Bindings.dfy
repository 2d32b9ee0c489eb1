/** What the compiler's bindings look like after every round: sources, extractions, and who refers to whom. */
module Bindings {
  import opened Text
  import opened Sources
  import opened Compiler

  // ----- step ids

  lemma {:induction false} StepIdShape(n: nat)
    ensures forall c :: c in StepId(n) ==> c == '_' || IsDigit(c) || 'a' <= c <= 'z'
  {
    var pad, d := (if n < 10 then "0" else ""), Decimal(n);
    assert forall c :: c in "step_" ==> c == '_' || 'a' <= c <= 'z';
    assert forall c :: c in pad ==> IsDigit(c);
    assert forall c :: c in "step_" + pad + d ==> c in "step_" || c in pad || c in d;
  }

  /** Step numbers are told apart by their ids. */
  lemma {:induction false} StepIdsDiffer(m: nat, n: nat)
    ensures StepId(m) == StepId(n) <==> m == n
  {
    hide Decimal, Value;
    if StepId(m) == StepId(n) {
      var a := (if m < 10 then "0" else "") + Decimal(m);
      var b := (if n < 10 then "0" else "") + Decimal(n);
      assert StepId(m) == "step_" + a && StepId(n) == "step_" + b;
      assert ("step_" + a)[5..] == a && ("step_" + b)[5..] == b;
      ValueOfDecimal(m);
      ValueOfDecimal(n);
      PaddedValue(Decimal(m));
      PaddedValue(Decimal(n));
      assert "" + Decimal(m) == Decimal(m) && "" + Decimal(n) == Decimal(n);
      assert Value(a) == m && Value(b) == n;
    }
  }

  // ----- one extraction entry

  predicate SameIdentity(a: WorkflowStep, b: WorkflowStep)
  {
    a.(overrides := Absent, extract := map[]) == b.(overrides := Absent, extract := map[])
  }

  ghost predicate DistinctIds(steps: seq<WorkflowStep>)
  {
    forall i, j :: 0 <= i < j < |steps| ==> steps[i].id != steps[j].id
  }

  lemma {:induction false} EnsureAt(steps: seq<WorkflowStep>, s: Source, i: nat)
    requires DistinctIds(steps) && i < |steps|
    ensures Ensure(steps, s)[i]
         == if steps[i].id == s.step then steps[i].(extract := steps[i].extract[s.key := s.path]) else steps[i]
  {
    if i > 0 {
      assert forall k :: 0 <= k < |steps[1..]| ==> steps[1..][k] == steps[k + 1];
      EnsureAt(steps[1..], s, i - 1);
    }
  }

  /** After all extractions a step's table holds its old entries and, for every used source, some used source's path.
      */
  lemma {:induction false} EnsureAllAt(steps: seq<WorkflowStep>, uses: seq<Source>, i: nat)
    requires DistinctIds(steps) && i < |steps|
    ensures SameIdentity(EnsureAll(steps, uses)[i], steps[i])
    ensures forall k :: k in steps[i].extract ==> k in EnsureAll(steps, uses)[i].extract
    ensures forall s :: s in uses && s.step == steps[i].id ==> s.key in EnsureAll(steps, uses)[i].extract
    ensures forall k :: k in EnsureAll(steps, uses)[i].extract ==>
      (k in steps[i].extract && steps[i].extract[k] == EnsureAll(steps, uses)[i].extract[k]) ||
      (exists s :: s in uses && s.step == steps[i].id && s.key == k && s.path == EnsureAll(steps, uses)[i].extract[k])
    decreases |uses|
  {
    if uses != [] {
      var next := Ensure(steps, uses[0]);
      forall a | 0 <= a < |steps|
        ensures next[a].id == steps[a].id
      {
        EnsureAt(steps, uses[0], a);
      }
      EnsureAt(steps, uses[0], i);
      EnsureAllAt(next, uses[1..], i);
      assert forall s :: s in uses <==> s == uses[0] || s in uses[1..];
    }
  }

  // ----- sources

  lemma {:induction false} MatchingFinds(sources: seq<Source>, value: string)
    ensures Matching(sources, value).Some? ==>
      Matching(sources, value).value in sources && Matching(sources, value).value.value == value
    ensures Matching(sources, value).None? && value != "" ==> forall s :: s in sources ==> s.value != value
  {
    if sources != [] { MatchingFinds(sources[1..], value); }
  }

  lemma {:induction false} HeaderUsesOld(pairs: seq<(string, string)>, previous: seq<Source>)
    ensures forall s :: s in HeaderUses(pairs, previous) ==> s in previous
  {
    if pairs != [] {
      MatchingFinds(previous, pairs[0].1);
      HeaderUsesOld(pairs[1..], previous);
    }
  }

  lemma {:induction false} BodyUsesOld(text: string, sources: seq<Source>)
    ensures forall s :: s in BodyUses(text, sources) ==> s in sources
    decreases |sources|
  {
    if sources != [] { BodyUsesOld(BindOne(text, sources[0]), sources[1..]); }
  }

  lemma {:induction false} UsesOld(step: WorkflowStep, flow: Flow, previous: seq<Source>)
    ensures forall s :: s in Uses(step, flow, previous) ==> s in previous
  {
    HeaderUsesOld(HeaderPairs(flow.headers), previous);
    if BodyInRange(flow) { BodyUsesOld(BodyText(step, flow), previous); }
  }

  ghost predicate DistinctValues(sources: seq<Source>)
  {
    forall a, b :: 0 <= a < b < |sources| ==> sources[a].value != sources[b].value
  }

  lemma {:induction false} CollectKeeps(previous: seq<Source>, offered: seq<Source>)
    requires DistinctValues(previous) && |previous| <= MAX_SOURCES && forall s :: s in previous ==> Useful(s.value)
    ensures
      var r := Collect(previous, offered);
      DistinctValues(r) && |r| <= MAX_SOURCES && (forall s :: s in r ==> Useful(s.value)) &&
      previous <= r && (forall s :: s in r ==> s in previous || s in offered)
    decreases |offered|
  {
    if offered == [] || |previous| >= MAX_SOURCES {
    } else {
      var s := offered[0];
      MatchingFinds(previous, s.value);
      if Useful(s.value) && Matching(previous, s.value).None? {
        CollectKeeps(previous + [s], offered[1..]);
      } else {
        CollectKeeps(previous, offered[1..]);
      }
    }
  }

  // ----- the invariant of the rounds

  /** `s` was offered by the captured response of an included step before `j`. */
  ghost predicate From(flows: seq<Flow>, j: nat, s: Source)
  {
    exists i :: 0 <= i < j && OfferedAt(flows, i, s)
  }

  ghost predicate OfferedAt(flows: seq<Flow>, i: nat, s: Source)
  {
    i < |flows| && flows[i].included && s.step == StepId(i + 1) && s in Offered(DraftStep(flows[i], i), flows[i])
  }

  ghost predicate Listed(previous: seq<Source>, step: string, key: string, path: string)
  {
    exists s :: s in previous && s.step == step && s.key == key && s.path == path
  }

  /** The draft after `j` rounds. */
  function DraftOf(flows: seq<Flow>, j: nat): (d: Draft)
    requires j <= |flows|
    ensures |d.steps| == |flows|
  {
    DraftAfter(DraftSteps(flows), flows, j)
  }

  /** The sources bound into step `j`. */
  function UsesAt(flows: seq<Flow>, j: nat): seq<Source>
    requires j < |flows|
  {
    var d := DraftOf(flows, j);
    Uses(d.steps[j], flows[j], d.previous)
  }

  /** The sources bound into the steps before `j`. */
  function UsedBefore(flows: seq<Flow>, j: nat): seq<Source>
    requires j <= |flows|
  {
    if j == 0 then [] else UsedBefore(flows, j - 1) + UsesAt(flows, j - 1)
  }

  ghost predicate Identified(flows: seq<Flow>, steps: seq<WorkflowStep>)
    requires |steps| == |flows|
  {
    forall i :: 0 <= i < |flows| ==> SameIdentity(steps[i], DraftStep(flows[i], i))
  }

  ghost predicate SourcesOk(flows: seq<Flow>, j: nat, previous: seq<Source>)
  {
    DistinctValues(previous) && |previous| <= MAX_SOURCES &&
    forall s :: s in previous ==> Useful(s.value) && From(flows, j, s)
  }

  ghost predicate TableOk(step: WorkflowStep, previous: seq<Source>)
  {
    forall k :: k in step.extract ==> Listed(previous, step.id, k, step.extract[k])
  }

  ghost predicate TablesOk(steps: seq<WorkflowStep>, previous: seq<Source>)
  {
    forall i :: 0 <= i < |steps| ==> TableOk(steps[i], previous)
  }

  /** Steps keep their identity; sources are distinct, useful and from earlier included steps; every extraction entry
      belongs to a bound source of that step. */
  ghost predicate Invariant(flows: seq<Flow>, j: nat)
    requires j <= |flows|
  {
    var d := DraftOf(flows, j);
    Identified(flows, d.steps) && SourcesOk(flows, j, d.previous) && TablesOk(d.steps, UsedBefore(flows, j))
  }

  lemma {:induction false} DraftIdsDistinct(flows: seq<Flow>)
    ensures DistinctIds(DraftSteps(flows))
  {
    forall i, j | 0 <= i < j < |flows|
      ensures DraftSteps(flows)[i].id != DraftSteps(flows)[j].id
    {
      StepIdsDiffer(i + 1, j + 1);
    }
  }

  lemma {:induction false} OfferedIsOwn(step: WorkflowStep, flow: Flow, s: Source)
    requires s in Offered(step, flow)
    ensures s.step == step.id && step.included
  {
    var found := Walk(flow.response.value.document.value, []);
    var k :| 0 <= k < |Offered(step, flow)| && Offered(step, flow)[k] == s;
    SourceAt(step.id, found, k);
  }

  lemma {:induction false} OfferedByIdentity(a: WorkflowStep, b: WorkflowStep, flow: Flow)
    requires SameIdentity(a, b)
    ensures Offered(a, flow) == Offered(b, flow)
  {
    assert a.(overrides := Absent, extract := map[]).id == a.id;
    assert b.(overrides := Absent, extract := map[]).included == b.included;
  }

  /** The bound slice of round `j`, before extractions are added. */
  function BoundSlice(d: Draft, flow: Flow, j: nat): seq<WorkflowStep>
    requires j < |d.steps|
  {
    d.steps[j := d.steps[j].(overrides := BoundOverrides(d.steps[j], flow, d.previous))]
  }

  lemma {:induction false} IdentifiedIds(flows: seq<Flow>, steps: seq<WorkflowStep>)
    requires |steps| == |flows| && Identified(flows, steps)
    ensures DistinctIds(steps)
    ensures forall i :: 0 <= i < |flows| ==> steps[i].id == StepId(i + 1) && steps[i].included == flows[i].included
  {
    DraftIdsDistinct(flows);
    forall i | 0 <= i < |flows|
      ensures steps[i].id == StepId(i + 1) && steps[i].included == flows[i].included
    {
      assert SameIdentity(steps[i], DraftStep(flows[i], i));
    }
    forall i, j | 0 <= i < j < |flows|
      ensures steps[i].id != steps[j].id
    {
      StepIdsDiffer(i + 1, j + 1);
    }
  }

  lemma {:induction false} CollectFrom(flows: seq<Flow>, j: nat, previous: seq<Source>)
    requires j < |flows| && SourcesOk(flows, j, previous)
    ensures
      var r := Collect(previous, Offered(DraftStep(flows[j], j), flows[j]));
      previous <= r && SourcesOk(flows, j + 1, r)
  {
    var offered := Offered(DraftStep(flows[j], j), flows[j]);
    CollectKeeps(previous, offered);
    forall s | s in Collect(previous, offered)
      ensures From(flows, j + 1, s)
    {
      if s in offered {
        OfferedIsOwn(DraftStep(flows[j], j), flows[j], s);
        assert OfferedAt(flows, j, s);
      } else {
        assert From(flows, j, s);
      }
    }
  }

  lemma {:induction false} RoundSources(flows: seq<Flow>, j: nat)
    requires j < |flows| && Invariant(flows, j)
    ensures DraftOf(flows, j).previous <= DraftOf(flows, j + 1).previous
    ensures SourcesOk(flows, j + 1, DraftOf(flows, j + 1).previous)
  {
    var step := DraftOf(flows, j).steps[j];
    assert SameIdentity(step, DraftStep(flows[j], j));
    OfferedByIdentity(step, DraftStep(flows[j], j), flows[j]);
    CollectFrom(flows, j, DraftOf(flows, j).previous);
  }

  lemma {:induction false} BoundSliceKeeps(d: Draft, flow: Flow, j: nat)
    requires j < |d.steps| && DistinctIds(d.steps)
    ensures DistinctIds(BoundSlice(d, flow, j))
    ensures forall i :: 0 <= i < |d.steps| ==>
      BoundSlice(d, flow, j)[i].id == d.steps[i].id && BoundSlice(d, flow, j)[i].extract == d.steps[i].extract &&
      SameIdentity(BoundSlice(d, flow, j)[i], d.steps[i])
  {
  }

  lemma {:induction false} TableOkLonger(step: WorkflowStep, a: seq<Source>, b: seq<Source>)
    requires TableOk(step, a) && a <= b
    ensures TableOk(step, b)
  {
    forall k | k in step.extract
      ensures Listed(b, step.id, k, step.extract[k])
    {
      var s :| s in a && s.step == step.id && s.key == k && s.path == step.extract[k];
      assert s in b;
    }
  }

  lemma {:induction false} RoundTable(d: Draft, flow: Flow, j: nat, i: nat, used: seq<Source>)
    requires j < |d.steps| && i < |d.steps| && DistinctIds(d.steps) && TableOk(d.steps[i], used)
    ensures
      var now := Round(d, flow, j).steps[i];
      SameIdentity(now, d.steps[i]) && now.id == d.steps[i].id &&
      (forall k :: k in d.steps[i].extract ==> k in now.extract) &&
      (forall s :: s in Uses(d.steps[j], flow, d.previous) && s.step == d.steps[i].id ==> s.key in now.extract) &&
      TableOk(now, used + Uses(d.steps[j], flow, d.previous))
  {
    var uses, bound := Uses(d.steps[j], flow, d.previous), BoundSlice(d, flow, j);
    BoundSliceKeeps(d, flow, j);
    EnsureAllAt(bound, uses, i);
    SameIdentityId(EnsureAll(bound, uses)[i], bound[i]);
    TableOkLonger(d.steps[i], used, used + uses);
    var now := EnsureAll(bound, uses)[i];
    forall k | k in now.extract
      ensures Listed(used + uses, now.id, k, now.extract[k])
    {
      if !(k in d.steps[i].extract && d.steps[i].extract[k] == now.extract[k]) {
        var s :| s in uses && s.step == bound[i].id && s.key == k && s.path == now.extract[k];
        assert s in used + uses;
      }
    }
  }

  lemma {:induction false} RoundStep(flows: seq<Flow>, j: nat, i: nat)
    requires j < |flows| && Invariant(flows, j) && i < |flows|
    ensures
      var d, now := DraftOf(flows, j), DraftOf(flows, j + 1).steps[i];
      SameIdentity(now, d.steps[i]) && now.id == d.steps[i].id &&
      (forall k :: k in d.steps[i].extract ==> k in now.extract) &&
      (forall s :: s in UsesAt(flows, j) && s.step == d.steps[i].id ==> s.key in now.extract) &&
      TableOk(now, UsedBefore(flows, j + 1))
  {
    var d := DraftOf(flows, j);
    IdentifiedIds(flows, d.steps);
    RoundTable(d, flows[j], j, i, UsedBefore(flows, j));
  }

  lemma {:induction false} SameIdentityId(a: WorkflowStep, b: WorkflowStep)
    requires SameIdentity(a, b)
    ensures a.id == b.id && a.included == b.included
  {
    assert a.(overrides := Absent, extract := map[]).id == a.id;
    assert b.(overrides := Absent, extract := map[]).included == b.included;
  }

  lemma {:induction false} RoundOverrides(flows: seq<Flow>, j: nat, i: nat)
    requires j < |flows| && i < |flows|
    ensures
      var d := DraftOf(flows, j);
      DraftOf(flows, j + 1).steps[i].overrides
        == if i == j then BoundOverrides(d.steps[j], flows[j], d.previous) else d.steps[i].overrides
  {
    var d := DraftOf(flows, j);
    EnsureAllKeepsOverrides(BoundSlice(d, flows[j], j), i, Absent, Uses(d.steps[j], flows[j], d.previous));
  }

  lemma {:induction false} InvariantStart(flows: seq<Flow>)
    ensures Invariant(flows, 0)
  {
    var d := DraftOf(flows, 0);
    forall i | 0 <= i < |flows|
      ensures SameIdentity(d.steps[i], DraftStep(flows[i], i)) && TableOk(d.steps[i], [])
    {
      assert d.steps[i] == DraftStep(flows[i], i);
    }
  }

  lemma {:induction false} InvariantHolds(flows: seq<Flow>, j: nat)
    requires j <= |flows|
    ensures Invariant(flows, j)
  {
    hide DraftAfter, DraftStep, TableOk;
    if j == 0 {
      InvariantStart(flows);
    } else {
      InvariantHolds(flows, j - 1);
      RoundSources(flows, j - 1);
      var d, d' := DraftOf(flows, j - 1), DraftOf(flows, j);
      forall i | 0 <= i < |flows|
        ensures SameIdentity(d'.steps[i], DraftStep(flows[i], i)) && TableOk(d'.steps[i], UsedBefore(flows, j))
      {
        RoundStep(flows, j - 1, i);
        assert SameIdentity(d.steps[i], DraftStep(flows[i], i));
      }
    }
  }

  // ----- what the compiled workflow promises

  lemma {:induction false} ExtractionsStay(flows: seq<Flow>, j: nat, n: nat, i: nat, key: string)
    requires j <= n <= |flows| && i < |flows|
    requires key in DraftOf(flows, j).steps[i].extract
    ensures key in DraftOf(flows, n).steps[i].extract
    decreases n - j
  {
    hide DraftAfter;
    if j < n {
      InvariantHolds(flows, j);
      RoundStep(flows, j, i);
      ExtractionsStay(flows, j + 1, n, i, key);
    }
  }

  /** A used source comes from an included earlier step. */
  lemma {:induction false} UseOrigin(flows: seq<Flow>, j: nat, s: Source) returns (i: nat)
    requires j < |flows| && s in UsesAt(flows, j)
    ensures i < j && flows[j].included && OfferedAt(flows, i, s)
  {
    var d := DraftOf(flows, j);
    InvariantHolds(flows, j);
    IdentifiedIds(flows, d.steps);
    UsesOld(d.steps[j], flows[j], d.previous);
    assert From(flows, j, s);
    i :| 0 <= i < j && OfferedAt(flows, i, s);
  }

  /** Bindings form a forward graph, and every one of them is extracted: a source bound into step `j` belongs to an
      included step before `j`, was offered by that step's captured response, and its key is in that step's table. */
  lemma {:induction false} BindingsPointBack(flows: seq<Flow>, j: nat, s: Source) returns (i: nat)
    requires j < |flows| && s in UsesAt(flows, j)
    ensures i < j && flows[j].included && OfferedAt(flows, i, s)
    ensures Compiled(flows)[i].id == s.step && Compiled(flows)[i].included && s.key in Compiled(flows)[i].extract
  {
    i := UseOrigin(flows, j, s);
    UseExtracted(flows, j, i, s);
    ExtractionsStay(flows, j + 1, |flows|, i, s.key);
    InvariantHolds(flows, |flows|);
    IdentifiedIds(flows, DraftOf(flows, |flows|).steps);
  }

  lemma {:induction false} UseExtracted(flows: seq<Flow>, j: nat, i: nat, s: Source)
    requires j < |flows| && s in UsesAt(flows, j) && i < |flows| && s.step == StepId(i + 1)
    ensures s.key in DraftOf(flows, j + 1).steps[i].extract
  {
    InvariantHolds(flows, j);
    IdentifiedIds(flows, DraftOf(flows, j).steps);
    RoundStep(flows, j, i);
  }

  lemma {:induction false} OverridesStay(flows: seq<Flow>, j: nat, n: nat)
    requires j < n <= |flows|
    ensures
      var d := DraftOf(flows, j);
      DraftOf(flows, n).steps[j].overrides == BoundOverrides(d.steps[j], flows[j], d.previous)
    decreases n
  {
    hide DraftAfter;
    RoundOverrides(flows, n - 1, j);
    if j < n - 1 { OverridesStay(flows, j, n - 1); }
  }

  /** A step's own overrides are untouched until its round. */
  lemma {:induction false} OverridesWait(flows: seq<Flow>, j: nat, n: nat)
    requires n <= j < |flows|
    ensures DraftOf(flows, n).steps[j].overrides == DraftStep(flows[j], j).overrides
  {
    if n > 0 {
      OverridesWait(flows, j, n - 1);
      RoundOverrides(flows, n - 1, j);
    }
  }

  lemma {:induction false} UsedFrom(flows: seq<Flow>, j: nat, n: nat, s: Source)
    requires j < n <= |flows| && s in UsesAt(flows, j)
    ensures s in UsedBefore(flows, n)
    decreases n
  {
    hide UsesAt;
    if j < n - 1 { UsedFrom(flows, j, n - 1, s); }
  }

  lemma {:induction false} UsedWhere(flows: seq<Flow>, n: nat, s: Source) returns (j: nat)
    requires n <= |flows| && s in UsedBefore(flows, n)
    ensures j < n && s in UsesAt(flows, j)
  {
    hide UsesAt;
    if s in UsesAt(flows, n - 1) { j := n - 1; } else { j := UsedWhere(flows, n - 1, s); }
  }
}
