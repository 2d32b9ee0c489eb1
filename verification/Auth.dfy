/** The auth tracer: tokens seen in captured flows, who handed them out, who used them, and the CSRF links. */
module Auth {
  import opened Options
  import opened Text

  /** One token sighting: `kind` is the artifact type, `location` says where in the message it stood. */
  datatype Observed = Observed(kind: string, name: string, value: string, location: string)

  /** A captured flow in processing order; 0 is Go's zero time. */
  datatype Flow = Flow(id: string, at: int, answers: seq<Observed>, uses: seq<Observed>)

  /** The index key: artifacts with the same type, name and value fingerprint are one artifact. */
  datatype Key = Key(kind: string, name: string, value: string)

  datatype Artifact = Artifact(first: int, last: int, source: string, users: seq<string>, locations: seq<string>)

  datatype Link = Link(token: string, source: string, user: string, from: string, usage: string)

  /** A sighting with its flow's position, id and time, and whether the response carried it. */
  datatype Sighting = Sighting(flow: nat, id: string, at: int, what: Observed, answer: bool)

  function KeyOf(o: Observed): Key { Key(o.kind, o.name, o.value) }

  predicate CsrfName(name: string)
  {
    Contains(Lower(name), "csrf") || Contains(Lower(name), "xsrf")
  }

  // ----- the pass as a list of sightings

  function SightingsOf(flow: nat, f: Flow, seen: seq<Observed>, answer: bool): (r: seq<Sighting>)
    ensures |r| == |seen|
    ensures forall i :: 0 <= i < |r| ==> r[i] == Sighting(flow, f.id, f.at, seen[i], answer)
  {
    seq(|seen|, i requires 0 <= i < |seen| => Sighting(flow, f.id, f.at, seen[i], answer))
  }

  /** Everything the pass sees, in order: each flow's response before its request. */
  function Sightings(flows: seq<Flow>): seq<Sighting>
  {
    if flows == [] then [] else
      var n := |flows| - 1;
      Sightings(flows[..n]) + SightingsOf(n, flows[n], flows[n].answers, true)
          + SightingsOf(n, flows[n], flows[n].uses, false)
  }

  // ----- one update

  function Added(list: seq<string>, x: string): seq<string>
  {
    if x in list then list else list + [x]
  }

  /** `upsert` on the artifact found under the sighting's key, if any. */
  function Upserted(old_: Option<Artifact>, s: Sighting): Artifact
  {
    var a := if old_.Some? then old_.value else Artifact(s.at, s.at, "", [], []);
    Artifact(
      if s.at < a.first || a.first == 0 then s.at else a.first,
      if s.at > a.last then s.at else a.last,
      if s.answer && a.source == "" then s.id else a.source,
      a.users,
      if s.what.location != "" then Added(a.locations, s.what.location) else a.locations)
  }

  /** The upsert with the caller's update of the users. */
  function Updated(old_: Option<Artifact>, s: Sighting): Artifact
  {
    var a := Upserted(old_, s);
    if s.answer then a else a.(users := Added(a.users, s.id))
  }

  function Lookup(table: map<Key, Artifact>, k: Key): Option<Artifact>
  {
    if k in table then Some(table[k]) else None
  }

  function Step(table: map<Key, Artifact>, s: Sighting): map<Key, Artifact>
  {
    var k := KeyOf(s.what);
    table[k := Updated(Lookup(table, k), s)]
  }

  /** The index after a list of sightings. */
  function Table(seen: seq<Sighting>): map<Key, Artifact>
  {
    if seen == [] then map[] else Step(Table(seen[..|seen| - 1]), seen[|seen| - 1])
  }

  // ----- what the index holds

  predicate Sees(s: Sighting, k: Key) { KeyOf(s.what) == k }

  predicate Hands(s: Sighting, k: Key) { s.answer && Sees(s, k) }

  predicate Takes(s: Sighting, k: Key) { !s.answer && Sees(s, k) }

  ghost predicate Distinct<T>(list: seq<T>)
  {
    forall i, j :: 0 <= i < j < |list| ==> list[i] != list[j]
  }

  lemma {:induction false} Last(seen: seq<Sighting>)
    requires seen != []
    ensures Table(seen) == Step(Table(seen[..|seen| - 1]), seen[|seen| - 1])
    ensures forall j :: 0 <= j < |seen| - 1 ==> seen[..|seen| - 1][j] == seen[j]
  {
  }

  /** A sighting changes the artifact under its own key and no other. */
  lemma {:induction false} EntryAfter(seen: seq<Sighting>, k: Key)
    requires seen != []
    ensures var before, s := Table(seen[..|seen| - 1]), seen[|seen| - 1];
            Lookup(Table(seen), k) == if Sees(s, k) then Some(Updated(Lookup(before, k), s)) else Lookup(before, k)
  {
  }

  /** One artifact for each observed type, name and value, and none besides. */
  lemma {:induction false} OneArtifactPerToken(seen: seq<Sighting>, k: Key)
    ensures k in Table(seen) <==> exists j :: 0 <= j < |seen| && Sees(seen[j], k)
  {
    if seen != [] {
      var n := |seen| - 1;
      Last(seen);
      OneArtifactPerToken(seen[..n], k);
      if Sees(seen[n], k) {
        assert k in Table(seen);
      } else if k in Table(seen) {
        var j :| 0 <= j < n && Sees(seen[..n][j], k);
        assert Sees(seen[j], k);
      } else {
        forall j | 0 <= j < |seen|
          ensures !Sees(seen[j], k)
        {
          if j < n { assert seen[..n][j] == seen[j]; }
        }
      }
    }
  }

  /** `id` is what the first response with a non-empty flow id handed out the token under. */
  ghost predicate FirstHandedOut(seen: seq<Sighting>, k: Key, id: string)
  {
    if id == "" then forall j :: 0 <= j < |seen| && Hands(seen[j], k) ==> seen[j].id == ""
    else exists j :: HandedOutAt(seen, k, id, j)
  }

  ghost predicate HandedOutAt(seen: seq<Sighting>, k: Key, id: string, j: int)
  {
    && 0 <= j < |seen| && Hands(seen[j], k) && seen[j].id == id
    && forall i :: 0 <= i < j && Hands(seen[i], k) ==> seen[i].id == ""
  }

  lemma {:induction false} SourceIsFirstAnswer(seen: seq<Sighting>, k: Key)
    requires k in Table(seen)
    ensures FirstHandedOut(seen, k, Table(seen)[k].source)
  {
    var n := |seen| - 1;
    Last(seen);
    var before := seen[..n];
    var id := Table(seen)[k].source;
    if k in Table(before) {
      SourceIsFirstAnswer(before, k);
      if Table(before)[k].source != "" {
        var j :| HandedOutAt(before, k, id, j);
        assert HandedOutAt(seen, k, id, j);
      } else if Hands(seen[n], k) && id != "" {
        assert HandedOutAt(seen, k, id, n);
      }
    } else {
      Unseen(before, k);
      if Hands(seen[n], k) && id != "" { assert HandedOutAt(seen, k, id, n); }
    }
  }

  lemma {:induction false} Unseen(seen: seq<Sighting>, k: Key)
    requires k !in Table(seen)
    ensures forall j :: 0 <= j < |seen| ==> !Sees(seen[j], k)
  {
    OneArtifactPerToken(seen, k);
  }

  lemma {:induction false} AddedOnce(list: seq<string>, x: string)
    requires Distinct(list)
    ensures Distinct(Added(list, x))
    ensures forall y :: y in Added(list, x) <==> y in list || y == x
  {
    if x !in list {
      var r := list + [x];
      assert r[|list|] == x;
      assert forall y :: y in list ==> y in r;
      assert forall y :: y in r ==> y in list || y == x;
    }
  }

  ghost predicate UsedBy(seen: seq<Sighting>, k: Key, id: string)
  {
    exists j :: 0 <= j < |seen| && Takes(seen[j], k) && seen[j].id == id
  }

  ghost predicate FoundAt(seen: seq<Sighting>, k: Key, at: string)
  {
    exists j :: 0 <= j < |seen| && Sees(seen[j], k) && seen[j].what.location == at
  }

  lemma {:induction false} UsedBySnoc(before: seq<Sighting>, s: Sighting, k: Key, id: string)
    ensures UsedBy(before + [s], k, id) <==> UsedBy(before, k, id) || (Takes(s, k) && s.id == id)
  {
    var seen := before + [s];
    if UsedBy(before, k, id) {
      var j :| 0 <= j < |before| && Takes(before[j], k) && before[j].id == id;
      assert Takes(seen[j], k);
    }
    if Takes(s, k) && s.id == id { assert Takes(seen[|before|], k); }
  }

  lemma {:induction false} FoundAtSnoc(before: seq<Sighting>, s: Sighting, k: Key, at: string)
    ensures FoundAt(before + [s], k, at) <==> FoundAt(before, k, at) || (Sees(s, k) && s.what.location == at)
  {
    var seen := before + [s];
    if FoundAt(before, k, at) {
      var j :| 0 <= j < |before| && Sees(before[j], k) && before[j].what.location == at;
      assert Sees(seen[j], k);
    }
    if Sees(s, k) && s.what.location == at { assert Sees(seen[|before|], k); }
  }

  function UsersIn(entry: Option<Artifact>): seq<string>
  {
    if entry.Some? then entry.value.users else []
  }

  lemma {:induction false} UsersFollow(seen: seq<Sighting>, k: Key)
    ensures Distinct(UsersIn(Lookup(Table(seen), k)))
    ensures forall id :: id in UsersIn(Lookup(Table(seen), k)) <==> UsedBy(seen, k, id)
  {
    if seen != [] {
      var n := |seen| - 1;
      var before, s := seen[..n], seen[n];
      UsersFollow(before, k);
      EntryAfter(seen, k);
      var users := UsersIn(Lookup(Table(before), k));
      AddedOnce(users, s.id);
      assert seen == before + [s];
      assert UsersIn(Lookup(Table(seen), k)) == if Takes(s, k) then Added(users, s.id) else users;
      forall id
        ensures id in UsersIn(Lookup(Table(seen), k)) <==> UsedBy(seen, k, id)
      {
        UsedBySnoc(before, s, k, id);
      }
    }
  }

  /** The users are exactly the flows whose requests carried the token, each once. */
  lemma {:induction false} UsersAreExactly(seen: seq<Sighting>, k: Key)
    requires k in Table(seen)
    ensures Distinct(Table(seen)[k].users)
    ensures forall id :: id in Table(seen)[k].users <==> UsedBy(seen, k, id)
  {
    UsersFollow(seen, k);
  }

  /** The locations are exactly the non-empty ones seen, each once. */
  lemma {:induction false} LocationsAreExactly(seen: seq<Sighting>, k: Key)
    requires k in Table(seen)
    ensures Distinct(Table(seen)[k].locations)
    ensures forall at :: at in Table(seen)[k].locations <==> at != "" && FoundAt(seen, k, at)
  {
    var n := |seen| - 1;
    var before, s := seen[..n], seen[n];
    var found := if k in Table(before) then Table(before)[k].locations else [];
    if k in Table(before) { LocationsAreExactly(before, k); } else { Unseen(before, k); }
    AddedOnce(found, s.what.location);
    assert seen == before + [s];
    forall at
      ensures at in Table(seen)[k].locations <==> at != "" && FoundAt(seen, k, at)
    {
      FoundAtSnoc(before, s, k, at);
    }
  }

  /** `t` is one of the token's times, and none of the others is beyond it. */
  ghost predicate Latest(seen: seq<Sighting>, k: Key, t: int)
  {
    && (exists j :: 0 <= j < |seen| && Sees(seen[j], k) && seen[j].at == t)
    && forall j :: 0 <= j < |seen| && Sees(seen[j], k) ==> seen[j].at <= t
  }

  lemma {:induction false} LastSeenIsLatest(seen: seq<Sighting>, k: Key)
    requires k in Table(seen)
    ensures Latest(seen, k, Table(seen)[k].last)
  {
    hide KeyOf;
    var n := |seen| - 1;
    Last(seen);
    var before := seen[..n];
    if k in Table(before) {
      LastSeenIsLatest(before, k);
      var j :| 0 <= j < n && Sees(before[j], k) && before[j].at == Table(before)[k].last;
      assert Sees(seen[j], k);
    } else {
      Unseen(before, k);
    }
    if Sees(seen[n], k) { assert Sees(seen[n], k) && seen[n].at <= Table(seen)[k].last; }
  }

  /** The times at which a token was seen, in processing order. */
  function Times(seen: seq<Sighting>, k: Key): seq<int>
  {
    if seen == [] then [] else
      var n := |seen| - 1;
      Times(seen[..n], k) + if Sees(seen[n], k) then [seen[n].at] else []
  }

  /** What `FirstSeen` ends as: a later time replaces the zero time. */
  function Kept(times: seq<int>): int
    requires times != []
  {
    var n := |times| - 1;
    if n == 0 then times[0] else
      var f := Kept(times[..n]);
      if times[n] < f || f == 0 then times[n] else f
  }

  ghost predicate AtMostAll(t: int, times: seq<int>)
  {
    forall i :: 0 <= i < |times| ==> t <= times[i]
  }

  ghost predicate SomeBeforeZero(times: seq<int>)
  {
    exists i :: 0 <= i < |times| && times[i] < 0
  }

  lemma {:induction false} KeptCases(times: seq<int>)
    requires times != []
    ensures SomeBeforeZero(times) ==> Kept(times) < 0 && AtMostAll(Kept(times), times)
    ensures !SomeBeforeZero(times) && 0 !in times ==> Kept(times) > 0 && AtMostAll(Kept(times), times)
    ensures !SomeBeforeZero(times) && times[|times| - 1] == 0 ==> Kept(times) == 0
    ensures !SomeBeforeZero(times) && times[|times| - 1] != 0 ==> Kept(times) > 0
  {
    var n := |times| - 1;
    if n > 0 {
      var before := times[..n];
      KeptCases(before);
      assert times == before + [times[n]];
      if SomeBeforeZero(before) {
        var i :| 0 <= i < n && before[i] < 0;
        assert times[i] < 0;
      } else if times[n] >= 0 {
        assert forall i :: 0 <= i < |times| ==> times[i] >= 0 by {
          assert forall i :: 0 <= i < n ==> before[i] == times[i];
        }
      } else {
        assert AtMostAll(times[n], times) by { assert forall i :: 0 <= i < n ==> before[i] == times[i]; }
      }
    }
  }

  lemma {:induction false} KeptSnoc(times: seq<int>, t: int)
    ensures Kept(times + [t]) == if times == [] || t < Kept(times) || Kept(times) == 0 then t else Kept(times)
  {
    assert (times + [t])[..|times|] == times;
  }

  lemma {:induction false} FirstIsKept(seen: seq<Sighting>, k: Key)
    ensures Lookup(Table(seen), k).Some? <==> Times(seen, k) != []
    ensures Lookup(Table(seen), k).Some? ==> Lookup(Table(seen), k).value.first == Kept(Times(seen, k))
  {
    if seen != [] {
      var n := |seen| - 1;
      FirstIsKept(seen[..n], k);
      EntryAfter(seen, k);
      var before := Times(seen[..n], k);
      if Sees(seen[n], k) {
        KeptSnoc(before, seen[n].at);
        assert Times(seen, k) == before + [seen[n].at];
      } else {
        assert Times(seen, k) == before + [];
        assert before + [] == before;
      }
    }
  }

  lemma {:induction false} KeptOccurs(times: seq<int>)
    requires times != []
    ensures Kept(times) in times
  {
    var n := |times| - 1;
    if n > 0 {
      KeptOccurs(times[..n]);
      assert times[..n] <= times;
    }
  }

  lemma {:induction false} TimesSeen(seen: seq<Sighting>, k: Key, t: int)
    ensures t in Times(seen, k) <==> exists j :: 0 <= j < |seen| && Sees(seen[j], k) && seen[j].at == t
  {
    hide Sees;
    if seen != [] {
      var n := |seen| - 1;
      TimesSeen(seen[..n], k, t);
      if j :| 0 <= j < n && Sees(seen[..n][j], k) && seen[..n][j].at == t {
        assert Sees(seen[j], k);
      }
      if j :| 0 <= j < |seen| && Sees(seen[j], k) && seen[j].at == t {
        assert j < n ==> Sees(seen[..n][j], k);
      }
    }
  }

  /** `t` is one of the token's times, and none of the others is before it. */
  ghost predicate Earliest(seen: seq<Sighting>, k: Key, t: int)
  {
    && (exists j :: 0 <= j < |seen| && Sees(seen[j], k) && seen[j].at == t)
    && forall j :: 0 <= j < |seen| && Sees(seen[j], k) ==> t <= seen[j].at
  }

  /** Stored flows have a time, so `FirstSeen` is the earliest one seen. */
  lemma {:induction false} FirstSeenIsEarliest(seen: seq<Sighting>, k: Key)
    requires k in Table(seen) && forall j :: 0 <= j < |seen| ==> seen[j].at != 0
    ensures Earliest(seen, k, Table(seen)[k].first)
  {
    hide Sees, Table;
    FirstIsKept(seen, k);
    var times := Times(seen, k);
    KeptOccurs(times);
    TimesSeen(seen, k, Kept(times));
    TimesSeen(seen, k, 0);
    KeptCases(times);
    forall j | 0 <= j < |seen| && Sees(seen[j], k)
      ensures Kept(times) <= seen[j].at
    {
      TimesSeen(seen, k, seen[j].at);
      assert exists i :: 0 <= i < |times| && times[i] == seen[j].at;
    }
  }

  // ----- CSRF links

  /** What a search by value may return: an artifact with the value that a response handed out as a CSRF token. */
  predicate Candidate(table: map<Key, Artifact>, k: Key, value: string)
  {
    k in table && k.value == value && table[k].source != "" && (k.kind == "csrf_token" || CsrfName(k.name))
  }

  function LinkTo(a: Artifact, s: Sighting): Option<Link>
  {
    if a.source != "" && a.source != s.id then
      Some(Link(s.what.name, a.source, s.id, if a.locations == [] then "" else a.locations[0], s.what.location))
    else None
  }

  /** The links one sighting may give rise to: a search among several candidates may return any of them. */
  ghost predicate Allowed(table: map<Key, Artifact>, s: Sighting, link: Option<Link>)
  {
    if s.answer || !CsrfName(s.what.name) then link == None
    else if KeyOf(s.what) in table && table[KeyOf(s.what)].source != "" then link == LinkTo(table[KeyOf(s.what)], s)
    else if exists k :: Candidate(table, k, s.what.value) then
      exists k :: Candidate(table, k, s.what.value) && link == LinkTo(table[k], s)
    else link == None
  }

  /** What each sighting gave rise to, judged by the index right after it. */
  ghost predicate Traced(seen: seq<Sighting>, made: seq<Option<Link>>)
  {
    |made| == |seen| && forall i :: 0 <= i < |seen| ==> Allowed(Table(seen[..i + 1]), seen[i], made[i])
  }

  function Somes(made: seq<Option<Link>>): seq<Link>
  {
    if made == [] then [] else
      var n := |made| - 1;
      Somes(made[..n]) + if made[n].Some? then [made[n].value] else []
  }

  /** A sighting tells the truth about its flow. */
  predicate Reports(flows: seq<Flow>, s: Sighting)
  {
    && s.flow < |flows| && s.id == flows[s.flow].id && s.at == flows[s.flow].at
    && s.what in if s.answer then flows[s.flow].answers else flows[s.flow].uses
  }

  lemma {:induction false} SightingsReport(flows: seq<Flow>)
    ensures forall i :: 0 <= i < |Sightings(flows)| ==> Reports(flows, Sightings(flows)[i])
    ensures forall i, j :: 0 <= i <= j < |Sightings(flows)| ==> Sightings(flows)[i].flow <= Sightings(flows)[j].flow
  {
    if flows != [] {
      var n := |flows| - 1;
      SightingsReport(flows[..n]);
      var before := Sightings(flows[..n]);
      var seen := Sightings(flows);
      assert forall i :: 0 <= i < |before| ==> seen[i] == before[i] && Reports(flows[..n], before[i]);
      assert forall i :: |before| <= i < |seen| ==> seen[i].flow == n;
    }
  }

  /** Within a flow the response is seen before the request. */
  lemma {:induction false} AnswersComeFirst(flows: seq<Flow>, x: nat, y: nat)
    requires x < |Sightings(flows)| && y < |Sightings(flows)| && Sightings(flows)[x].flow == Sightings(flows)[y].flow
    requires Sightings(flows)[x].answer && !Sightings(flows)[y].answer
    ensures x < y
  {
    if flows != [] {
      var n := |flows| - 1;
      var before := Sightings(flows[..n]);
      var seen := Sightings(flows);
      SightingsReport(flows[..n]);
      assert forall i :: 0 <= i < |before| ==> seen[i] == before[i] && Reports(flows[..n], before[i]);
      if x < |before| && y < |before| { AnswersComeFirst(flows[..n], x, y); }
    }
  }

  /** Whether a response carries a token under this id and value. */
  ghost predicate AnsweredWith(f: Flow, id: string, value: string)
  {
    f.id == id && exists o :: o in f.answers && o.value == value
  }

  /** Every link leads from a response of a strictly earlier flow, which carried the same value, to a request that
      carried it under a CSRF name. */
  lemma {:induction false} LinksPointBack(flows: seq<Flow>, made: seq<Option<Link>>, i: nat)
    requires Traced(Sightings(flows), made) && i < |made| && made[i].Some?
    ensures var s := Sightings(flows)[i];
            && Reports(flows, s) && !s.answer && CsrfName(s.what.name)
            && made[i].value.token == s.what.name && made[i].value.user == s.id &&
                made[i].value.usage == s.what.location
    ensures var s := Sightings(flows)[i];
            exists j :: 0 <= j < s.flow < |flows| && AnsweredWith(flows[j], made[i].value.source, s.what.value)
  {
    var seen := Sightings(flows);
    var s := seen[i];
    SightingsReport(flows);
    var table := Table(seen[..i + 1]);
    assert Allowed(table, s, made[i]);
    var k := if table[KeyOf(s.what)].source != "" then KeyOf(s.what)
      else var k :| Candidate(table, k, s.what.value) && made[i] == LinkTo(table[k], s); k;
    SourceIsFirstAnswer(seen[..i + 1], k);
    var j :| HandedOutAt(seen[..i + 1], k, table[k].source, j);
    assert seen[..i + 1][j] == seen[j];
    assert seen[j].flow != s.flow;
    assert AnsweredWith(flows[seen[j].flow], made[i].value.source, s.what.value);
  }

  ghost predicate NoneFrom(table: map<Key, Artifact>, value: string, id: string)
  {
    forall k :: Candidate(table, k, value) ==> table[k].source != id
  }

  /** A request with a CSRF token that some other flow's response handed out is linked to it. */
  lemma {:induction false} UsesAreLinked(seen: seq<Sighting>, made: seq<Option<Link>>, i: nat, k: Key)
    requires Traced(seen, made) && i < |seen| && !seen[i].answer && CsrfName(seen[i].what.name)
    requires Candidate(Table(seen[..i + 1]), k, seen[i].what.value)
    requires NoneFrom(Table(seen[..i + 1]), seen[i].what.value, seen[i].id)
    ensures made[i].Some?
  {
    var s := seen[i];
    var table := Table(seen[..i + 1]);
    assert Allowed(table, s, made[i]);
    if KeyOf(s.what) in table && table[KeyOf(s.what)].source != "" {
      assert Candidate(table, KeyOf(s.what), s.what.value);
    }
  }

  // ----- the index in terms of the flows

  predicate Answers(f: Flow, k: Key) { exists o :: o in f.answers && KeyOf(o) == k }

  predicate Uses(f: Flow, k: Key) { exists o :: o in f.uses && KeyOf(o) == k }

  predicate Carries(f: Flow, k: Key) { Answers(f, k) || Uses(f, k) }

  /** Every token of every flow is sighted. */
  lemma {:induction false} SightingsComplete(flows: seq<Flow>, i: nat, o: Observed, answer: bool) returns (j: nat)
    requires i < |flows| && o in if answer then flows[i].answers else flows[i].uses
    ensures j < |Sightings(flows)| && Sightings(flows)[j] == Sighting(i, flows[i].id, flows[i].at, o, answer)
  {
    var n := |flows| - 1;
    var before := Sightings(flows[..n]);
    if i < n {
      j := SightingsComplete(flows[..n], i, o, answer);
      assert Sightings(flows)[j] == before[j];
    } else {
      var list := if answer then flows[n].answers else flows[n].uses;
      var x :| 0 <= x < |list| && list[x] == o;
      j := |before| + (if answer then 0 else |flows[n].answers|) + x;
    }
  }

  /** A sighting of `k` in a flow, as seen from both sides. */
  lemma {:induction false} SightedIn(flows: seq<Flow>, i: nat, k: Key)
    requires i < |flows|
    ensures Answers(flows[i], k) <==> exists j :: AnswerSightedAt(flows, i, k, j)
    ensures Uses(flows[i], k) <==> exists j :: UseSightedAt(flows, i, k, j)
  {
    SightingsReport(flows);
    if o :| o in flows[i].answers && KeyOf(o) == k {
      var j := SightingsComplete(flows, i, o, true);
      assert AnswerSightedAt(flows, i, k, j);
    }
    if o :| o in flows[i].uses && KeyOf(o) == k {
      var j := SightingsComplete(flows, i, o, false);
      assert UseSightedAt(flows, i, k, j);
    }
    if j :| AnswerSightedAt(flows, i, k, j) { assert Reports(flows, Sightings(flows)[j]); }
    if j :| UseSightedAt(flows, i, k, j) { assert Reports(flows, Sightings(flows)[j]); }
  }

  ghost predicate AnswerSightedAt(flows: seq<Flow>, i: nat, k: Key, j: int)
  {
    0 <= j < |Sightings(flows)| && Sightings(flows)[j].flow == i && Hands(Sightings(flows)[j], k)
  }

  ghost predicate UseSightedAt(flows: seq<Flow>, i: nat, k: Key, j: int)
  {
    0 <= j < |Sightings(flows)| && Sightings(flows)[j].flow == i && Takes(Sightings(flows)[j], k)
  }

  /** What is sighted belongs to a flow that carries it. */
  lemma {:induction false} SightingCarried(flows: seq<Flow>, k: Key, j: nat)
    requires j < |Sightings(flows)| && Sees(Sightings(flows)[j], k)
    ensures
      var s := Sightings(flows)[j];
      s.flow < |flows| && s.id == flows[s.flow].id && s.at == flows[s.flow].at && Carries(flows[s.flow], k) &&
      (s.answer ==> Answers(flows[s.flow], k)) && (!s.answer ==> Uses(flows[s.flow], k))
  {
    SightingsReport(flows);
    assert Reports(flows, Sightings(flows)[j]);
  }

  lemma {:induction false} CarriedSighted(flows: seq<Flow>, k: Key, i: nat) returns (j: nat)
    requires i < |flows| && Carries(flows[i], k)
    ensures j < |Sightings(flows)| && Sees(Sightings(flows)[j], k) && Sightings(flows)[j].flow == i &&
      Sightings(flows)[j].at == flows[i].at
  {
    var o :| (o in flows[i].answers || o in flows[i].uses) && KeyOf(o) == k;
    j := SightingsComplete(flows, i, o, o in flows[i].answers);
  }

  /** One artifact for each type, name and value that some flow carried, and none besides. */
  lemma {:induction false} ArtifactsExactly(flows: seq<Flow>, k: Key)
    ensures k in Table(Sightings(flows)) <==> exists i :: 0 <= i < |flows| && Carries(flows[i], k)
  {
    hide Carries, Table, Sightings;
    var seen := Sightings(flows);
    OneArtifactPerToken(seen, k);
    if j :| 0 <= j < |seen| && Sees(seen[j], k) { SightingCarried(flows, k, j); }
    if i :| 0 <= i < |flows| && Carries(flows[i], k) {
      var j := CarriedSighted(flows, k, i);
    }
  }

  /** Flow `i` is the first with an id whose response carried the token. */
  ghost predicate FirstAnswering(flows: seq<Flow>, k: Key, i: int)
  {
    && 0 <= i < |flows| && flows[i].id != "" && Answers(flows[i], k)
    && forall e :: 0 <= e < i && Answers(flows[e], k) ==> flows[e].id == ""
  }

  /** The source is the first flow in processing order, among those with an id, whose response carried the token;
      there is none exactly when no response of such a flow carried it. */
  lemma {:induction false} SourceExactly(flows: seq<Flow>, k: Key)
    requires k in Table(Sightings(flows))
    ensures
      var id := Table(Sightings(flows))[k].source;
      if id == "" then forall i :: 0 <= i < |flows| && Answers(flows[i], k) ==> flows[i].id == ""
      else exists i :: FirstAnswering(flows, k, i) && flows[i].id == id
  {
    hide Answers, Uses, Table, Sightings;
    var seen := Sightings(flows);
    var id := Table(seen)[k].source;
    SourceIsFirstAnswer(seen, k);
    if id == "" {
      forall i | 0 <= i < |flows| && Answers(flows[i], k)
        ensures flows[i].id == ""
      {
        SightedIn(flows, i, k);
        var j :| AnswerSightedAt(flows, i, k, j);
        SightingCarried(flows, k, j);
      }
    } else {
      var j :| HandedOutAt(seen, k, id, j);
      SightingCarried(flows, k, j);
      EarlierAnswers(flows, k, id, j);
      assert FirstAnswering(flows, k, seen[j].flow);
    }
  }

  lemma {:induction false} EarlierAnswers(flows: seq<Flow>, k: Key, id: string, j: int)
    requires HandedOutAt(Sightings(flows), k, id, j)
    ensures forall e :: 0 <= e < Sightings(flows)[j].flow && e < |flows| && Answers(flows[e], k) ==> flows[e].id == ""
  {
    hide Answers, Uses, Sightings;
    SightingsReport(flows);
    forall e | 0 <= e < Sightings(flows)[j].flow && e < |flows| && Answers(flows[e], k)
      ensures flows[e].id == ""
    {
      SightedIn(flows, e, k);
      var x :| AnswerSightedAt(flows, e, k, x);
      SightingCarried(flows, k, x);
      assert x < j;
    }
  }

  /** The users are exactly the ids of the flows whose requests carried the token, each once. */
  lemma {:induction false} UsersExactly(flows: seq<Flow>, k: Key)
    requires k in Table(Sightings(flows))
    ensures Distinct(Table(Sightings(flows))[k].users)
    ensures forall id :: id in Table(Sightings(flows))[k].users
                         <==> exists i :: 0 <= i < |flows| && Uses(flows[i], k) && flows[i].id == id
  {
    hide Answers, Uses, Table, Sightings;
    var seen := Sightings(flows);
    UsersAreExactly(seen, k);
    forall id
      ensures UsedBy(seen, k, id) <==> exists i :: 0 <= i < |flows| && Uses(flows[i], k) && flows[i].id == id
    {
      if UsedBy(seen, k, id) {
        var j :| 0 <= j < |seen| && Takes(seen[j], k) && seen[j].id == id;
        SightingCarried(flows, k, j);
      }
      if i :| 0 <= i < |flows| && Uses(flows[i], k) && flows[i].id == id {
        SightedIn(flows, i, k);
        var j :| UseSightedAt(flows, i, k, j);
        SightingCarried(flows, k, j);
      }
    }
  }

  /** `t` is the time of a flow that carried the token, and bounds those of all that did. */
  ghost predicate LatestOf(flows: seq<Flow>, k: Key, t: int)
  {
    && (exists i :: 0 <= i < |flows| && Carries(flows[i], k) && flows[i].at == t)
    && forall i :: 0 <= i < |flows| && Carries(flows[i], k) ==> flows[i].at <= t
  }

  ghost predicate EarliestOf(flows: seq<Flow>, k: Key, t: int)
  {
    && (exists i :: 0 <= i < |flows| && Carries(flows[i], k) && flows[i].at == t)
    && forall i :: 0 <= i < |flows| && Carries(flows[i], k) ==> t <= flows[i].at
  }

  /** `FirstSeen` and `LastSeen` are the earliest and the latest time of a flow that carried the token; the store
      gives every flow a time. */
  lemma {:induction false} SeenExactly(flows: seq<Flow>, k: Key)
    requires k in Table(Sightings(flows)) && forall i :: 0 <= i < |flows| ==> flows[i].at != 0
    ensures EarliestOf(flows, k, Table(Sightings(flows))[k].first)
    ensures LatestOf(flows, k, Table(Sightings(flows))[k].last)
  {
    hide Carries, Table, Sightings, Sees;
    var seen := Sightings(flows);
    var first, last := Table(seen)[k].first, Table(seen)[k].last;
    SightingsReport(flows);
    assert forall j :: 0 <= j < |seen| ==> Reports(flows, seen[j]);
    FirstSeenIsEarliest(seen, k);
    LastSeenIsLatest(seen, k);
    var a :| 0 <= a < |seen| && Sees(seen[a], k) && seen[a].at == first;
    var b :| 0 <= b < |seen| && Sees(seen[b], k) && seen[b].at == last;
    SightingCarried(flows, k, a);
    SightingCarried(flows, k, b);
    forall i | 0 <= i < |flows| && Carries(flows[i], k)
      ensures first <= flows[i].at <= last
    {
      var j := CarriedSighted(flows, k, i);
    }
  }

  ghost predicate PlacedIn(f: Flow, k: Key, at: string)
  {
    exists o :: (o in f.answers || o in f.uses) && KeyOf(o) == k && o.location == at
  }

  /** The locations are exactly the non-empty ones at which some flow carried the token, each once. */
  lemma {:induction false} LocationsExactly(flows: seq<Flow>, k: Key)
    requires k in Table(Sightings(flows))
    ensures Distinct(Table(Sightings(flows))[k].locations)
    ensures forall at :: at in Table(Sightings(flows))[k].locations
                         <==> at != "" && exists i :: 0 <= i < |flows| && PlacedIn(flows[i], k, at)
  {
    hide Table, Sightings;
    var seen := Sightings(flows);
    LocationsAreExactly(seen, k);
    SightingsReport(flows);
    forall at
      ensures FoundAt(seen, k, at) <==> exists i :: 0 <= i < |flows| && PlacedIn(flows[i], k, at)
    {
      if FoundAt(seen, k, at) {
        var j :| 0 <= j < |seen| && Sees(seen[j], k) && seen[j].what.location == at;
        assert Reports(flows, seen[j]) && PlacedIn(flows[seen[j].flow], k, at);
      }
      if i :| 0 <= i < |flows| && PlacedIn(flows[i], k, at) {
        var o :| (o in flows[i].answers || o in flows[i].uses) && KeyOf(o) == k && o.location == at;
        var j := SightingsComplete(flows, i, o, o in flows[i].answers);
        assert Sees(seen[j], k);
      }
    }
  }

  // ----- repeated links

  predicate SameLink(a: Link, b: Link)
  {
    a.token == b.token && a.source == b.source && a.user == b.user
  }

  /** Keeps the first link of each (token, source, user). */
  function Unique(links: seq<Link>): seq<Link>
  {
    if links == [] then [] else
      var n := |links| - 1;
      if exists i :: 0 <= i < n && SameLink(links[i], links[n]) then Unique(links[..n])
      else Unique(links[..n]) + [links[n]]
  }

  /** No two kept links agree, each kept link was made, and each link made agrees with a kept one. */
  lemma {:induction false} UniqueKeepsOneOfEach(links: seq<Link>)
    ensures forall i, j :: 0 <= i < j < |Unique(links)| ==> !SameLink(Unique(links)[i], Unique(links)[j])
    ensures forall l :: l in Unique(links) ==> l in links
    ensures forall l :: l in links ==> Represented(Unique(links), l)
  {
    if links != [] {
      var n := |links| - 1;
      UniqueKeepsOneOfEach(links[..n]);
      var kept := Unique(links[..n]);
      assert links == links[..n] + [links[n]];
      if i :| 0 <= i < n && SameLink(links[i], links[n]) {
        assert links[i] in links[..n];
        assert Represented(kept, links[i]);
      } else {
        assert forall l :: l in kept ==> l in links[..n] && !SameLink(l, links[n]);
        assert (kept + [links[n]])[|kept|] == links[n];
        forall l | Represented(kept, l)
          ensures Represented(kept + [links[n]], l)
        {
          var j :| 0 <= j < |kept| && SameLink(kept[j], l);
          assert (kept + [links[n]])[j] == kept[j];
        }
      }
    }
  }

  ghost predicate Represented(kept: seq<Link>, l: Link)
  {
    exists j :: 0 <= j < |kept| && SameLink(kept[j], l)
  }

  ghost predicate Keyed(links: seq<Link>, key: (string, string, string))
  {
    exists i :: 0 <= i < |links| && (links[i].token, links[i].source, links[i].user) == key
  }

  lemma {:induction false} KeyedSnoc(links: seq<Link>, l: Link)
    ensures forall key :: Keyed(links + [l], key) <==> Keyed(links, key) || key == (l.token, l.source, l.user)
    ensures Unique(links + [l]) == if Keyed(links, (l.token, l.source, l.user)) then Unique(links)
      else Unique(links) + [l]
  {
    var all := links + [l];
    assert all[..|links|] == links && all[|links|] == l;
    forall key
      ensures Keyed(all, key) <==> Keyed(links, key) || key == (l.token, l.source, l.user)
    {
      if Keyed(links, key) {
        var i :| 0 <= i < |links| && (links[i].token, links[i].source, links[i].user) == key;
        assert all[i] == links[i];
      }
    }
    if Keyed(links, (l.token, l.source, l.user)) {
      var i :| 0 <= i < |links| && (links[i].token, links[i].source, links[i].user) == (l.token, l.source, l.user);
      assert SameLink(all[i], l);
    }
  }

  ghost predicate Remembers(seen: set<(string, string, string)>, links: seq<Link>)
  {
    forall key :: key in seen <==> Keyed(links, key)
  }

  lemma {:induction false} RemembersNext(seen: set<(string, string, string)>, links: seq<Link>, l: Link)
    requires Remembers(seen, links)
    ensures var key := (l.token, l.source, l.user);
            && Remembers(seen + {key}, links + [l])
            && (key in seen ==> seen + {key} == seen)
            && Unique(links + [l]) == if key in seen then Unique(links) else Unique(links) + [l]
  {
    KeyedSnoc(links, l);
  }

  /** `uniqueCSRFLinks`. */
  method UniqueCsrfLinks(links: seq<Link>) returns (kept: seq<Link>)
    ensures kept == Unique(links)
  {
    kept := [];
    var seen: set<(string, string, string)> := {};
    for n := 0 to |links|
      invariant kept == Unique(links[..n])
      invariant Remembers(seen, links[..n])
    {
      var link := links[n];
      assert links[..n + 1][..n] == links[..n];
      RemembersNext(seen, links[..n], link);
      assert links[..n + 1] == links[..n] + [link];
      if (link.token, link.source, link.user) in seen {
        continue;
      }
      seen := seen + {(link.token, link.source, link.user)};
      kept := kept + [link];
    }
    assert links[..|links|] == links;
  }

  lemma {:induction false} TracedSnoc(seen: seq<Sighting>, made: seq<Option<Link>>, s: Sighting, link: Option<Link>)
    requires Traced(seen, made)
    requires Allowed(Step(Table(seen), s), s, link)
    ensures Table(seen + [s]) == Step(Table(seen), s)
    ensures Traced(seen + [s], made + [link])
    ensures Somes(made + [link]) == Somes(made) + if link.Some? then [link.value] else []
  {
    var all := seen + [s];
    assert all[..|seen|] == seen && (made + [link])[..|made|] == made;
    forall i | 0 <= i < |all|
      ensures Allowed(Table(all[..i + 1]), all[i], (made + [link])[i])
    {
      if i < |seen| { assert all[..i + 1] == seen[..i + 1]; } else { assert all[..i + 1] == all; }
    }
  }

  /** The running state of the pass after some sightings. */
  ghost predicate Current(table: map<Key, Artifact>, links: seq<Link>, seen: seq<Sighting>, made: seq<Option<Link>>)
  {
    table == Table(seen) && Traced(seen, made) && links == Somes(made)
  }

  lemma {:induction false} CurrentAfter(
      table: map<Key, Artifact>, links: seq<Link>, seen: seq<Sighting>, made: seq<Option<Link>>, s: Sighting,
          link: Option<Link>)
    requires Current(table, links, seen, made)
    requires Allowed(Step(table, s), s, link)
    ensures Current(Step(table, s), links + if link.Some? then [link.value] else [], seen + [s], made + [link])
  {
    TracedSnoc(seen, made, s, link);
  }

  lemma {:induction false} SightingsOfNext(
      n: nat, f: Flow, list: seq<Observed>, answer: bool, before: seq<Sighting>, i: nat)
    requires i < |list|
    ensures before + SightingsOf(n, f, list[..i + 1], answer)
         == before + SightingsOf(n, f, list[..i], answer) + [Sighting(n, f.id, f.at, list[i], answer)]
  {
    assert SightingsOf(n, f, list[..i + 1], answer)
        == SightingsOf(n, f, list[..i], answer) + [Sighting(n, f.id, f.at, list[i], answer)];
  }

  /** Flow `i`'s request carried a CSRF token whose value flow `j`'s response, strictly earlier, had carried. */
  ghost predicate PointsBack(flows: seq<Flow>, l: Link, j: int, i: int)
  {
    && 0 <= j < i < |flows| && l.user == flows[i].id
    && exists o :: o in flows[i].uses && o.name == l.token && CsrfName(o.name) &&
        AnsweredWith(flows[j], l.source, o.value)
  }

  lemma {:induction false} SomesWereMade(made: seq<Option<Link>>, l: Link) returns (i: nat)
    requires l in Somes(made)
    ensures i < |made| && made[i] == Some(l)
  {
    var n := |made| - 1;
    if l in Somes(made[..n]) { i := SomesWereMade(made[..n], l); } else { i := n; }
  }

  /** Every CSRF link of the finished chain goes forward from a strictly earlier flow. */
  lemma {:induction false} ChainLinksPointBack(flows: seq<Flow>, made: seq<Option<Link>>, l: Link)
    requires Traced(Sightings(flows), made) && l in Unique(Somes(made))
    ensures exists j, i :: PointsBack(flows, l, j, i)
  {
    UniqueKeepsOneOfEach(Somes(made));
    var n := SomesWereMade(made, l);
    LinksPointBack(flows, made, n);
    var s := Sightings(flows)[n];
    var j :| 0 <= j < s.flow < |flows| && AnsweredWith(flows[j], l.source, s.what.value);
    assert PointsBack(flows, l, j, s.flow);
  }

  lemma {:induction false} MadeIsListed(made: seq<Option<Link>>, i: nat)
    requires i < |made| && made[i].Some?
    ensures made[i].value in Somes(made)
  {
    if i < |made| - 1 { MadeIsListed(made[..|made| - 1], i); }
  }

  /** Flow `i` neither handed out the value itself nor shares its id with a flow up to it that did. */
  ghost predicate NotOwn(flows: seq<Flow>, i: nat, value: string)
    requires i < |flows|
  {
    forall e :: 0 <= e <= i && flows[e].id == flows[i].id ==> !AnsweredWith(flows[e], flows[i].id, value)
  }

  /** By position `x`, the index holds a candidate for every CSRF token handed out by then. */
  lemma {:induction false} HandedOutIsCandidate(seen: seq<Sighting>, y: nat)
    requires y < |seen| && seen[y].answer && seen[y].id != ""
    requires seen[y].what.kind == "csrf_token" || CsrfName(seen[y].what.name)
    ensures Candidate(Table(seen), KeyOf(seen[y].what), seen[y].what.value)
  {
    hide Table;
    var k := KeyOf(seen[y].what);
    OneArtifactPerToken(seen, k);
    assert Sees(seen[y], k) && Hands(seen[y], k);
    SourceIsFirstAnswer(seen, k);
  }

  lemma {:induction false} CandidateHandedOut(flows: seq<Flow>, x: nat, k: Key, value: string) returns (e: nat)
    requires x < |Sightings(flows)| && Candidate(Table(Sightings(flows)[..x + 1]), k, value)
    ensures e < |flows| && e <= Sightings(flows)[x].flow
    ensures AnsweredWith(flows[e], Table(Sightings(flows)[..x + 1])[k].source, value)
    ensures Answers(flows[e], k) && flows[e].id == Table(Sightings(flows)[..x + 1])[k].source
  {
    hide Table, Sightings;
    var seen := Sightings(flows);
    SightingsReport(flows);
    SourceIsFirstAnswer(seen[..x + 1], k);
    var z :| HandedOutAt(seen[..x + 1], k, Table(seen[..x + 1])[k].source, z);
    assert seen[..x + 1][z] == seen[z] && Reports(flows, seen[z]);
    e := seen[z].flow;
  }

  /** The link says that flow `i` used the token, and names an earlier flow whose response carried its value. */
  ghost predicate LinksBack(flows: seq<Flow>, l: Link, i: nat, p: Observed)
    requires i < |flows|
  {
    l.token == p.name && l.user == flows[i].id && exists e :: 0 <= e < i && AnsweredWith(flows[e], l.source, p.value)
  }

  /** A request that carries, under a name with `csrf` or `xsrf` in it, a token that an earlier flow's response handed
      out under such a name or as a CSRF token, is linked to an earlier flow whose response carried that value, unless
      its own flow's response carried it. */
  lemma {:induction false} HandedOutUseIsLinked(
      flows: seq<Flow>, made: seq<Option<Link>>, j: nat, o: Observed, i: nat, p: Observed)
    requires Traced(Sightings(flows), made) && j < i < |flows| && o in flows[j].answers && p in flows[i].uses
    requires p.value == o.value && flows[j].id != "" && NotOwn(flows, i, p.value)
    requires o.kind == "csrf_token" || Contains(Lower(o.name), "csrf") || Contains(Lower(o.name), "xsrf")
    requires Contains(Lower(p.name), "csrf") || Contains(Lower(p.name), "xsrf")
    ensures exists l :: l in Unique(Somes(made)) && LinksBack(flows, l, i, p)
  {
    hide Table, Sightings, Allowed, Unique, Somes;
    var seen := Sightings(flows);
    var x := SightingsComplete(flows, i, p, false);
    var y := SightingsComplete(flows, j, o, true);
    SightingsReport(flows);
    assert y < x;
    assert seen[..x + 1][y] == seen[y];
    HandedOutIsCandidate(seen[..x + 1], y);
    var table := Table(seen[..x + 1]);
    forall k | Candidate(table, k, p.value)
      ensures table[k].source != flows[i].id
    {
      var e := CandidateHandedOut(flows, x, k, p.value);
    }
    UsesAreLinked(seen, made, x, KeyOf(o));
    LinksPointBack(flows, made, x);
    MadeIsListed(made, x);
    UniqueKeepsOneOfEach(Somes(made));
    assert Represented(Unique(Somes(made)), made[x].value);
    var n :| 0 <= n < |Unique(Somes(made))| && SameLink(Unique(Somes(made))[n], made[x].value);
    var l := Unique(Somes(made))[n];
    assert l in Unique(Somes(made)) && LinksBack(flows, l, i, p);
  }

  /** Where a token was first seen at a place with a name. */
  function FirstPlace(seen: seq<Sighting>, k: Key): string
  {
    if seen == [] then ""
    else
      var n := |seen| - 1;
      if FirstPlace(seen[..n], k) == "" && KeyOf(seen[n].what) == k then seen[n].what.location
      else FirstPlace(seen[..n], k)
  }

  function Head(list: seq<string>): string { if list == [] then "" else list[0] }

  lemma {:induction false} FirstLocation(seen: seq<Sighting>, k: Key)
    requires k in Table(seen)
    ensures Head(Table(seen)[k].locations) == FirstPlace(seen, k)
    ensures "" !in Table(seen)[k].locations
  {
    var n := |seen| - 1;
    var before, s := seen[..n], seen[n];
    EntryAfter(seen, k);
    if k in Table(before) {
      FirstLocation(before, k);
    } else {
      Unseen(before, k);
      NoPlace(before, k);
    }
  }

  lemma {:induction false} NoPlace(seen: seq<Sighting>, k: Key)
    requires forall j :: 0 <= j < |seen| ==> !Sees(seen[j], k)
    ensures FirstPlace(seen, k) == ""
  {
    if seen != [] {
      var n := |seen| - 1;
      assert forall j :: 0 <= j < n ==> seen[..n][j] == seen[j];
      assert !Sees(seen[n], k);
      NoPlace(seen[..n], k);
    }
  }

  /** What a link says: a request used a token under a name with `csrf` or `xsrf` in it, and the flow it names as the
      source, another one, is the first whose response carried an artifact of that value, under such a name or as a
      CSRF token; the link tells where that artifact was first seen. */
  lemma {:induction false} LinkSaysExactly(flows: seq<Flow>, made: seq<Option<Link>>, x: nat) returns (k: Key, e: nat)
    requires Traced(Sightings(flows), made) && x < |made| && made[x].Some?
    ensures
      var s, l := Sightings(flows)[x], made[x].value;
      (Contains(Lower(l.token), "csrf") || Contains(Lower(l.token), "xsrf")) && l.token == s.what.name &&
      l.user == s.id && l.usage == s.what.location && l.source != l.user && !s.answer
    ensures
      var s, l := Sightings(flows)[x], made[x].value;
      k.value == s.what.value &&
      (k.kind == "csrf_token" || Contains(Lower(k.name), "csrf") || Contains(Lower(k.name), "xsrf")) &&
      e < |flows| && e <= s.flow && Answers(flows[e], k) && flows[e].id == l.source &&
      l.from == FirstPlace(Sightings(flows)[..x + 1], k)
  {
    hide Table, Sightings, FirstPlace;
    var seen := Sightings(flows);
    var s, table := seen[x], Table(seen[..x + 1]);
    assert Allowed(table, s, made[x]);
    k := if KeyOf(s.what) in table && table[KeyOf(s.what)].source != "" then KeyOf(s.what)
      else var k :| Candidate(table, k, s.what.value) && made[x] == LinkTo(table[k], s); k;
    assert Candidate(table, k, s.what.value) && made[x] == LinkTo(table[k], s);
    e := CandidateHandedOut(flows, x, k, s.what.value);
    FirstLocation(seen[..x + 1], k);
  }

  // ----- the pass

  class Index {
    var byKey: map<Key, Artifact>

    constructor ()
      ensures byKey == map[]
    {
      byKey := map[];
    }

    /** `upsert`: creates the artifact if needed, then updates times, source and locations. */
    method Upsert(s: Sighting)
      modifies this
      ensures byKey == old(byKey)[KeyOf(s.what) := Upserted(Lookup(old(byKey), KeyOf(s.what)), s)]
    {
      var k := KeyOf(s.what);
      if k !in byKey { byKey := byKey[k := Artifact(s.at, s.at, "", [], [])]; }
      if s.at < byKey[k].first || byKey[k].first == 0 { byKey := byKey[k := byKey[k].(first := s.at)]; }
      if s.at > byKey[k].last { byKey := byKey[k := byKey[k].(last := s.at)]; }
      if s.answer && byKey[k].source == "" { byKey := byKey[k := byKey[k].(source := s.id)]; }
      if s.what.location != "" && s.what.location !in byKey[k].locations {
        byKey := byKey[k := byKey[k].(locations := byKey[k].locations + [s.what.location])];
      }
    }

    /** `findCSRFSource`: the map's iteration order decides among several. */
    method FindCsrfSource(value: string) returns (found: Option<Key>)
      ensures found.Some? ==> Candidate(byKey, found.value, value)
      ensures found.None? ==> forall k :: !Candidate(byKey, k, value)
    {
      var rest := byKey.Keys;
      while rest != {}
        invariant rest <= byKey.Keys
        invariant forall k :: Candidate(byKey, k, value) ==> k in rest
        decreases |rest|
      {
        var k :| k in rest;
        if Candidate(byKey, k, value) { return Some(k); }
        rest := rest - {k};
      }
      found := None;
    }

    /** A response's sighting. */
    method Answer(s: Sighting)
      requires s.answer
      modifies this
      ensures byKey == Step(old(byKey), s)
    {
      Upsert(s);
      var k := KeyOf(s.what);
      if byKey[k].source == "" { byKey := byKey[k := byKey[k].(source := s.id)]; }
    }

    /** A request's sighting, and the link it gives rise to. */
    method Use(s: Sighting) returns (link: Option<Link>)
      requires !s.answer
      modifies this
      ensures byKey == Step(old(byKey), s)
      ensures Allowed(byKey, s, link)
    {
      Upsert(s);
      var k := KeyOf(s.what);
      if s.id !in byKey[k].users { byKey := byKey[k := byKey[k].(users := byKey[k].users + [s.id])]; }
      link := None;
      if CsrfName(s.what.name) {
        var from := Some(k);
        if byKey[k].source == "" { from := FindCsrfSource(s.what.value); }
        if from.Some? && byKey[from.value].source != "" && byKey[from.value].source != s.id {
          link := LinkTo(byKey[from.value], s);
        }
      }
    }

    /** The loop over a response's tokens. */
    method Answers(n: nat, f: Flow, links: seq<Link>, ghost before: seq<Sighting>, ghost made0: seq<Option<Link>>)
      returns (ghost made: seq<Option<Link>>)
      requires Current(byKey, links, before, made0)
      modifies this
      ensures Current(byKey, links, before + SightingsOf(n, f, f.answers, true), made)
    {
      made := made0;
      assert before + SightingsOf(n, f, f.answers[..0], true) == before;
      for i := 0 to |f.answers|
        invariant Current(byKey, links, before + SightingsOf(n, f, f.answers[..i], true), made)
      {
        var s := Sighting(n, f.id, f.at, f.answers[i], true);
        CurrentAfter(byKey, links, before + SightingsOf(n, f, f.answers[..i], true), made, s, None);
        SightingsOfNext(n, f, f.answers, true, before, i);
        assert links + [] == links;
        Answer(s);
        made := made + [None];
      }
      assert f.answers[..|f.answers|] == f.answers;
    }

    /** The loop over a request's tokens. */
    method Uses(n: nat, f: Flow, links0: seq<Link>, ghost before: seq<Sighting>, ghost made0: seq<Option<Link>>)
      returns (links: seq<Link>, ghost made: seq<Option<Link>>)
      requires Current(byKey, links0, before, made0)
      modifies this
      ensures Current(byKey, links, before + SightingsOf(n, f, f.uses, false), made)
    {
      links, made := links0, made0;
      assert before + SightingsOf(n, f, f.uses[..0], false) == before;
      for i := 0 to |f.uses|
        invariant Current(byKey, links, before + SightingsOf(n, f, f.uses[..i], false), made)
      {
        ghost var was := byKey;
        var s := Sighting(n, f.id, f.at, f.uses[i], false);
        var link := Use(s);
        CurrentAfter(was, links, before + SightingsOf(n, f, f.uses[..i], false), made, s, link);
        SightingsOfNext(n, f, f.uses, false, before, i);
        links := links + if link.Some? then [link.value] else [];
        made := made + [link];
      }
      assert f.uses[..|f.uses|] == f.uses;
    }
  }

  datatype Chain = Chain(artifacts: map<Key, Artifact>, links: seq<Link>)

  /** The pass over the flows: each flow's response is entered before its request. */
  method Trace(flows: seq<Flow>) returns (chain: Option<Chain>, ghost made: seq<Option<Link>>)
    ensures chain.None? <==> flows == []
    ensures chain.Some? ==> Traced(Sightings(flows), made)
    ensures chain.Some? ==> chain.value == Chain(Table(Sightings(flows)), Unique(Somes(made)))
  {
    made := [];
    if flows == [] { return None, []; }
    var index := new Index();
    var links: seq<Link> := [];
    for n := 0 to |flows|
      invariant Current(index.byKey, links, Sightings(flows[..n]), made)
    {
      var f := flows[n];
      ghost var before := Sightings(flows[..n]);
      made := index.Answers(n, f, links, before, made);
      links, made := index.Uses(n, f, links, before + SightingsOf(n, f, f.answers, true), made);
      assert flows[..n + 1][..n] == flows[..n];
    }
    assert flows[..|flows|] == flows;
    var kept := UniqueCsrfLinks(links);
    chain := Some(Chain(index.byKey, kept));
  }
}
