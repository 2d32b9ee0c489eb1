/** What the compiled extraction tables say about the sources that were bound. */
module Extraction {
  import opened Options
  import opened Json
  import opened Sources
  import opened Compiler
  import opened Bindings
  import opened Keys

  function ResponseDocument(flow: Flow): Option<Json>
  {
    if flow.response.Some? then flow.response.value.document else None
  }

  /** Two bound sources with one name carry one value. */
  ghost predicate NamesAgree(used: seq<Source>)
  {
    forall s, t :: s in used && t in used && RefOf(s) == RefOf(t) ==> s.value == t.value
  }

  /** Two bound sources with one name have one path. */
  ghost predicate PathsAgree(used: seq<Source>)
  {
    forall s, t :: s in used && t in used && RefOf(s) == RefOf(t) ==> s.path == t.path
  }

  /** At the end of the pass, `s`'s step extracts `s`'s key from `s`'s own path. */
  ghost predicate PathKept(flows: seq<Flow>, s: Source)
  {
    exists i :: 0 <= i < |flows| && Compiled(flows)[i].id == s.step && flows[i].included && OfferedAt(flows, i, s) &&
      s.key in Compiled(flows)[i].extract && Compiled(flows)[i].extract[s.key] == s.path
  }

  /** Ids and tables of the compiled steps. */
  lemma {:induction false} CompiledTables(flows: seq<Flow>)
    ensures DistinctIds(Compiled(flows))
    ensures forall i :: 0 <= i < |flows| ==>
      Compiled(flows)[i].id == StepId(i + 1) && Compiled(flows)[i].included == flows[i].included &&
      SameIdentity(Compiled(flows)[i], DraftStep(flows[i], i)) &&
          TableOk(Compiled(flows)[i], UsedBefore(flows, |flows|))
  {
    InvariantHolds(flows, |flows|);
    IdentifiedIds(flows, DraftOf(flows, |flows|).steps);
  }

  /** A used source's entry exists, under its step and key; its path is that of some used source of that name. */
  lemma {:induction false} EntryOf(flows: seq<Flow>, s: Source) returns (i: nat, t: Source)
    requires s in UsedBefore(flows, |flows|)
    ensures i < |flows| && flows[i].included && OfferedAt(flows, i, s) && Compiled(flows)[i].id == s.step
    ensures s.key in Compiled(flows)[i].extract && Compiled(flows)[i].extract[s.key] == t.path
    ensures t in UsedBefore(flows, |flows|) && RefOf(t) == RefOf(s)
  {
    hide DraftAfter;
    var j := UsedWhere(flows, |flows|, s);
    i := BindingsPointBack(flows, j, s);
    CompiledTables(flows);
    var own := Compiled(flows)[i];
    assert TableOk(own, UsedBefore(flows, |flows|));
    t :| t in UsedBefore(flows, |flows|) && t.step == own.id && t.key == s.key && t.path == own.extract[s.key];
  }

  /** Every binding's entry still maps to its own path at the end of the pass exactly when bound sources of one name
      have one path. */
  lemma {:induction false} PathsKeptExactly(flows: seq<Flow>)
    ensures (forall s :: s in UsedBefore(flows, |flows|) ==> PathKept(flows, s)) <==>
      PathsAgree(UsedBefore(flows, |flows|))
  {
    hide DraftAfter, UsedBefore, OfferedAt, Compiled, RefOf;
    var used := UsedBefore(flows, |flows|);
    forall s | s in used
      ensures PathsAgree(used) ==> PathKept(flows, s)
    {
      var i, t := EntryOf(flows, s);
    }
    if forall s :: s in used ==> PathKept(flows, s) {
      forall s, t | s in used && t in used && RefOf(s) == RefOf(t)
        ensures s.path == t.path
      {
        KeptAlike(flows, s, t);
      }
    }
  }

  lemma {:induction false} KeptAlike(flows: seq<Flow>, s: Source, t: Source)
    requires PathKept(flows, s) && PathKept(flows, t) && RefOf(s) == RefOf(t)
    ensures s.path == t.path
  {
    hide Compiled, OfferedAt, UsedBefore;
    CompiledTables(flows);
    var i :| 0 <= i < |flows| && Compiled(flows)[i].id == s.step && s.key in Compiled(flows)[i].extract &&
      Compiled(flows)[i].extract[s.key] == s.path;
    var j :| 0 <= j < |flows| && Compiled(flows)[j].id == t.step && t.key in Compiled(flows)[j].extract &&
      Compiled(flows)[j].extract[t.key] == t.path;
    assert i == j;
  }

  /** The `k`-th source offered by a response is `s`; its place is clean and nothing in its path sensitive. */
  ghost predicate SourceAtCleanPlace(flow: Flow, s: Source, k: nat)
  {
    ResponseDocument(flow).Some? &&
    var root := ResponseDocument(flow).value;
    k < |PrimitiveSources(s.step, root)| && PrimitiveSources(s.step, root)[k] == s &&
    k < |Walk(root, [])| && Clean(Walk(root, [])[k].at) && !Sensitive(Normal(s.path))
  }

  ghost predicate AtCleanPlace(flows: seq<Flow>, s: Source)
  {
    forall i :: 0 <= i < |flows| && OfferedAt(flows, i, s) ==> exists k :: SourceAtCleanPlace(flows[i], s, k)
  }

  lemma {:induction false} CleanSourcesAgree(flow: Flow, s: Source, t: Source, k: nat, l: nat)
    requires SourceAtCleanPlace(flow, s, k) && SourceAtCleanPlace(flow, t, l) &&
      DistinctNames(ResponseDocument(flow).value)
    requires RefOf(s) == RefOf(t)
    ensures s.path == t.path && s.value == t.value
  {
    var root := ResponseDocument(flow).value;
    SourceReadsBack(s.step, root, k);
    SourceReadsBack(t.step, root, l);
    WalkSound(root, root, [], k);
    WalkSound(root, root, [], l);
    KeysInjective(Walk(root, [])[k].at, Walk(root, [])[l].at);
  }

  lemma {:induction false} OneOrigin(flows: seq<Flow>, i: nat, j: nat, s: Source, t: Source)
    requires OfferedAt(flows, i, s) && OfferedAt(flows, j, t) && s.step == t.step
    ensures i == j
  {
    StepIdsDiffer(i + 1, j + 1);
  }

  /** When every bound source sits at a clean place with no sensitive name, every binding's entry still maps to its
      own path at the end of the pass, and sources of one name carry one value. */
  lemma {:induction false} CleanPathsKept(flows: seq<Flow>)
    requires forall i :: 0 <= i < |flows| && ResponseDocument(flows[i]).Some? ==>
      DistinctNames(ResponseDocument(flows[i]).value)
    requires forall s :: s in UsedBefore(flows, |flows|) ==> AtCleanPlace(flows, s)
    ensures forall s :: s in UsedBefore(flows, |flows|) ==> PathKept(flows, s)
    ensures NamesAgree(UsedBefore(flows, |flows|))
  {
    hide DraftAfter, UsedBefore, OfferedAt, Compiled, SourceAtCleanPlace, PathKept;
    var used := UsedBefore(flows, |flows|);
    forall s, t | s in used && t in used && RefOf(s) == RefOf(t)
      ensures s.path == t.path && s.value == t.value
    {
      var i, _ := EntryOf(flows, s);
      var j, _ := EntryOf(flows, t);
      OneOrigin(flows, i, j, s, t);
      assert AtCleanPlace(flows, s) && AtCleanPlace(flows, t);
      var k :| SourceAtCleanPlace(flows[i], s, k);
      var l :| SourceAtCleanPlace(flows[i], t, l);
      DocumentOf(flows[i], s, k);
      CleanSourcesAgree(flows[i], s, t, k, l);
    }
    PathsKeptExactly(flows);
  }

  lemma {:induction false} DocumentOf(flow: Flow, s: Source, k: nat)
    requires SourceAtCleanPlace(flow, s, k)
    ensures ResponseDocument(flow).Some?
  {
  }
}
