/** Saving, setting and restoring the system proxy of one network service, with commands failing anywhere. */
module Proxy {
  datatype Config = Config(enabled: bool, server: string, port: int)

  /** The saved-state file; an interrupted write may leave it undecodable. */
  datatype File = Absent | Saved(http: Config, https: Config) | Garbled

  /** The file and the live configuration. `turnsOn` says whether setting a proxy also switches it on. */
  datatype World = World(file: File, http: Config, https: Config, turnsOn: bool)

  /** What becomes of a command: done, refused, or reported as failed although it took effect. */
  datatype Fate = Works | Fails | FailsAfter

  datatype Command =
    | SetHttp(server: string, port: int)
    | SetHttps(server: string, port: int)
    | HttpState(on: bool)
    | HttpsState(on: bool)

  function Effect(w: World, c: Command): World
  {
    match c
    case SetHttp(server, port) => w.(http := Config(w.http.enabled || w.turnsOn, server, port))
    case SetHttps(server, port) => w.(https := Config(w.https.enabled || w.turnsOn, server, port))
    case HttpState(on) => w.(http := w.http.(enabled := on))
    case HttpsState(on) => w.(https := w.https.(enabled := on))
  }

  /** Commands in order until one reports failure. */
  function RunAll(w: World, commands: seq<Command>, fates: nat -> Fate, k: nat): (World, bool)
    decreases |commands|
  {
    if commands == [] then (w, true)
    else
      match fates(k)
      case Works => RunAll(Effect(w, commands[0]), commands[1..], fates, k + 1)
      case Fails => (w, false)
      case FailsAfter => (Effect(w, commands[0]), false)
  }

  function EnableCommands(host: string, port: int): seq<Command>
  {
    [SetHttp(host, port), SetHttps(host, port), HttpState(true), HttpsState(true)]
  }

  function RestoreCommands(http: Config, https: Config): seq<Command>
  {
    (if http.server != "" && http.port > 0 then [SetHttp(http.server, http.port)] else [])
    + [HttpState(http.enabled)]
    + (if https.server != "" && https.port > 0 then [SetHttps(https.server, https.port)] else [])
    + [HttpsState(https.enabled)]
  }

  /** Fates 0 to 4: the state directory, the stat call, the two reads, the write. */
  function SaveState(w: World, fates: nat -> Fate): (World, bool)
  {
    if fates(0) != Works || fates(1) != Works then (w, false)
    else if !w.file.Absent? then (w, true)
    else if fates(2) != Works || fates(3) != Works then (w, false)
    else
      match fates(4)
      case Works => (w.(file := Saved(w.http, w.https)), true)
      case Fails => (w, false)
      case FailsAfter => (w.(file := Garbled), false)
  }

  function Enable(w: World, service: string, host: string, port: int, fates: nat -> Fate): (World, bool)
  {
    if service == "" || host == "" || port <= 0 then (w, false)
    else
      var (saved, ok) := SaveState(w, fates);
      if ok then RunAll(saved, EnableCommands(host, port), fates, 5) else (saved, false)
  }

  /** Fate 0: reading the file; then the commands; the last fate: removing the file. */
  function Disable(w: World, service: string, fates: nat -> Fate): (World, bool)
  {
    if service == "" || fates(0) != Works || !w.file.Saved? then (w, false)
    else
      var commands := RestoreCommands(w.file.http, w.file.https);
      var (restored, ok) := RunAll(w, commands, fates, 1);
      if !ok then (restored, false)
      else
        match fates(1 + |commands|)
        case Works => (restored.(file := Absent), true)
        case Fails => (restored, false)
        case FailsAfter => (restored.(file := Absent), false)
  }

  // ----- the imperative form

  class Manager {
    var world: World
    var calls: nat

    constructor (world: World)
      ensures this.world == world && calls == 0
    {
      this.world := world;
      calls := 0;
    }

    /** One external command. */
    method Issue(c: Command, fates: nat -> Fate) returns (ok: bool)
      modifies this
      ensures calls == old(calls) + 1
      ensures ok <==> fates(old(calls)).Works?
      ensures world == if fates(old(calls)).Fails? then old(world) else Effect(old(world), c)
    {
      var fate := fates(calls);
      calls := calls + 1;
      if !fate.Fails? { world := Effect(world, c); }
      ok := fate.Works?;
    }

    method IssueAll(commands: seq<Command>, fates: nat -> Fate) returns (ok: bool)
      modifies this
      ensures (world, ok) == RunAll(old(world), commands, fates, old(calls))
      ensures ok ==> calls == old(calls) + |commands|
    {
      ghost var w, k := world, calls;
      for i := 0 to |commands|
        invariant calls == k + i
        invariant RunAll(world, commands[i..], fates, calls) == RunAll(w, commands, fates, k)
      {
        assert commands[i..][0] == commands[i] && commands[i..][1..] == commands[i + 1..];
        var done := Issue(commands[i], fates);
        if !done { return false; }
      }
      return true;
    }

    method TurnOn(service: string, host: string, port: int, fates: nat -> Fate) returns (ok: bool)
      modifies this
      ensures (world, ok) == Enable(old(world), service, host, port, fates)
    {
      if service == "" || host == "" || port <= 0 { return false; }
      if !fates(0).Works? || !fates(1).Works? { return false; }
      if world.file.Absent? {
        if !fates(2).Works? { return false; }
        var http := world.http;
        if !fates(3).Works? { return false; }
        var https := world.https;
        match fates(4) {
          case Works => world := world.(file := Saved(http, https));
          case Fails => return false;
          case FailsAfter =>
            world := world.(file := Garbled);
            return false;
        }
      }
      calls := 5;
      ok := IssueAll(EnableCommands(host, port), fates);
    }

    method TurnOff(service: string, fates: nat -> Fate) returns (ok: bool)
      modifies this
      ensures (world, ok) == Disable(old(world), service, fates)
    {
      if service == "" || !fates(0).Works? || !world.file.Saved? { return false; }
      var state := world.file;
      calls := 1;
      var commands := RestoreCommands(state.http, state.https);
      ok := IssueAll(commands, fates);
      if !ok { return false; }
      match fates(calls) {
        case Works => world := world.(file := Absent);
        case Fails => ok := false;
        case FailsAfter =>
          world := world.(file := Absent);
          ok := false;
      }
    }
  }

  // ----- single operations

  lemma {:induction false} CommandsKeepFile(w: World, commands: seq<Command>, fates: nat -> Fate, k: nat)
    ensures RunAll(w, commands, fates, k).0.file == w.file && RunAll(w, commands, fates, k).0.turnsOn == w.turnsOn
    decreases |commands|
  {
    if commands != [] && fates(k).Works? {
      CommandsKeepFile(Effect(w, commands[0]), commands[1..], fates, k + 1);
    }
  }

  /** All commands working, a list is its effects in order. */
  function EffectAll(w: World, commands: seq<Command>): World
    decreases |commands|
  {
    if commands == [] then w else EffectAll(Effect(w, commands[0]), commands[1..])
  }

  lemma {:induction false} SuccessIsEffect(w: World, commands: seq<Command>, fates: nat -> Fate, k: nat)
    ensures RunAll(w, commands, fates, k).1 ==> RunAll(w, commands, fates, k).0 == EffectAll(w, commands)
    decreases |commands|
  {
    if commands != [] && fates(k).Works? {
      SuccessIsEffect(Effect(w, commands[0]), commands[1..], fates, k + 1);
    }
  }

  lemma {:induction false} EffectAppend(w: World, a: seq<Command>, b: seq<Command>)
    ensures EffectAll(w, a + b) == EffectAll(EffectAll(w, a), b)
    decreases |a|
  {
    if a == [] {
      assert a + b == b;
    } else {
      assert (a + b)[0] == a[0] && (a + b)[1..] == a[1..] + b;
      EffectAppend(Effect(w, a[0]), a[1..], b);
    }
  }

  lemma {:induction false} EffectOne(w: World, c: Command)
    ensures EffectAll(w, [c]) == Effect(w, c)
  {
    assert [c][1..] == [];
  }

  /** What restoring a saved configuration leaves: its flag; its server and port, if it has both, else those found. */
  predicate Restored(live: Config, saved: Config, found: Config)
  {
    live == if saved.server != "" && saved.port > 0 then saved else Config(saved.enabled, found.server, found.port)
  }

  lemma {:induction false} RestoreEffect(w: World, http: Config, https: Config)
    ensures
      var r := EffectAll(w, RestoreCommands(http, https));
      Restored(r.http, http, w.http) && Restored(r.https, https, w.https)
  {
    var a := if http.server != "" && http.port > 0 then [SetHttp(http.server, http.port)] else [];
    var b := if https.server != "" && https.port > 0 then [SetHttps(https.server, https.port)] else [];
    var front := a + [HttpState(http.enabled)];
    assert RestoreCommands(http, https) == (front + b) + [HttpsState(https.enabled)];
    EffectAppend(w, front + b, [HttpsState(https.enabled)]);
    EffectAppend(w, front, b);
    EffectAppend(w, a, [HttpState(http.enabled)]);
    var w1 := EffectAll(w, a);
    if a != [] { EffectOne(w, a[0]); }
    EffectOne(w1, HttpState(http.enabled));
    var w2 := EffectAll(w, front);
    if b != [] { EffectOne(w2, b[0]); }
    EffectOne(EffectAll(w2, b), HttpsState(https.enabled));
  }

  /** `Disable` succeeds only on a saved state; it then restores it and removes the file. A failed `Disable` leaves
      the saved state, or has restored it and removed the file. */
  lemma {:induction false} DisableOutcome(w: World, service: string, fates: nat -> Fate)
    ensures
      var (r, ok) := Disable(w, service, fates);
      (ok || r.file != w.file ==>
         w.file.Saved? && r.file == Absent &&
         Restored(r.http, w.file.http, w.http) && Restored(r.https, w.file.https, w.https))
  {
    if w.file.Saved? {
      var commands := RestoreCommands(w.file.http, w.file.https);
      CommandsKeepFile(w, commands, fates, 1);
      SuccessIsEffect(w, commands, fates, 1);
      RestoreEffect(w, w.file.http, w.file.https);
    }
  }

  /** `Enable` writes the file only when there is none, and then with the configuration it found. */
  lemma {:induction false} EnableOutcome(w: World, service: string, host: string, port: int, fates: nat -> Fate)
    ensures
      var (r, ok) := Enable(w, service, host, port, fates);
      (w.file != Absent ==> r.file == w.file) &&
      (w.file == Absent && r.file.Saved? ==> r.file == Saved(w.http, w.https)) &&
      (ok ==> r.file != Absent && r.http == Config(true, host, port) && r.https == Config(true, host, port))
  {
    var saved := SaveState(w, fates).0;
    var commands := EnableCommands(host, port);
    CommandsKeepFile(saved, commands, fates, 5);
    SuccessIsEffect(saved, commands, fates, 5);
    var front := [SetHttp(host, port), SetHttps(host, port)];
    var back := [HttpState(true), HttpsState(true)];
    assert commands == front + back;
    EffectAppend(saved, front, back);
    EffectPair(saved, front[0], front[1]);
    EffectPair(EffectAll(saved, front), back[0], back[1]);
  }

  lemma {:induction false} EffectPair(w: World, c: Command, d: Command)
    ensures EffectAll(w, [c, d]) == Effect(Effect(w, c), d)
  {
    assert [c, d][1..] == [d];
    EffectOne(Effect(w, c), d);
  }

  // ----- whole histories

  /** Operations on the service, and changes made to it from outside. */
  datatype Op =
    | On(service: string, host: string, port: int, fates: nat -> Fate)
    | Off(service: string, fates: nat -> Fate)
    | Outside(http: Config, https: Config)

  function ApplyOp(w: World, op: Op): World
  {
    match op
    case On(service, host, port, fates) => Enable(w, service, host, port, fates).0
    case Off(service, fates) => Disable(w, service, fates).0
    case Outside(http, https) => w.(http := http, https := https)
  }

  /** The world after the first `n` operations. */
  function WorldAt(w: World, ops: seq<Op>, n: nat): World
    requires n <= |ops|
  {
    if n == 0 then w else ApplyOp(WorldAt(w, ops, n - 1), ops[n - 1])
  }

  /** Operation `m` is the first `Enable` since the file was last absent, as seen after `n` operations. */
  ghost predicate SavedBy(w: World, ops: seq<Op>, m: nat, n: nat)
    requires m < n <= |ops|
  {
    ops[m].On? && WorldAt(w, ops, m).file == Absent && forall k :: m < k <= n ==> WorldAt(w, ops, k).file != Absent
  }

  /** While a saved state exists it is the configuration from before the first `Enable` since the last removal. */
  lemma {:induction false} SavedIsOriginal(w: World, ops: seq<Op>, n: nat) returns (m: nat)
    requires w.file == Absent && n <= |ops| && WorldAt(w, ops, n).file.Saved?
    ensures m < n && SavedBy(w, ops, m, n)
    ensures WorldAt(w, ops, n).file == Saved(WorldAt(w, ops, m).http, WorldAt(w, ops, m).https)
    decreases n
  {
    var before, op := WorldAt(w, ops, n - 1), ops[n - 1];
    match op {
      case On(service, host, port, fates) => EnableOutcome(before, service, host, port, fates);
      case Off(service, fates) => DisableOutcome(before, service, fates);
      case Outside(_, _) =>
    }
    if before.file == Absent {
      m := n - 1;
    } else {
      m := SavedIsOriginal(w, ops, n - 1);
    }
  }

  /** Any successful `Disable`, at the end of any history, restores the configuration from before the first `Enable`
      since the last removal of the file. */
  lemma {:induction false} DisableRestoresOriginal(
      w: World, ops: seq<Op>, service: string, fates: nat -> Fate) returns (m: nat)
    requires w.file == Absent && Disable(WorldAt(w, ops, |ops|), service, fates).1
    ensures m < |ops| && SavedBy(w, ops, m, |ops|)
    ensures
      var was, found := WorldAt(w, ops, m), WorldAt(w, ops, |ops|);
      var now := Disable(found, service, fates).0;
      Restored(now.http, was.http, found.http) && Restored(now.https, was.https, found.https) && now.file == Absent
  {
    DisableOutcome(WorldAt(w, ops, |ops|), service, fates);
    m := SavedIsOriginal(w, ops, |ops|);
  }

  /** Valid arguments, and nothing fails. */
  ghost predicate Flawless(service: string, host: string, port: int, fates: nat -> Fate)
  {
    service != "" && host != "" && port > 0 && forall k :: fates(k) == Works
  }

  /** A file spoilt by an interrupted write is never replaced, so from then on no `Disable` succeeds, while `Enable`
      still can: it takes the mere existence of the file for a saved state. */
  lemma {:induction false} SpoiltFileStays(w: World, ops: seq<Op>, n: nat)
    requires w.file == Garbled && n <= |ops|
    ensures WorldAt(w, ops, n).file == Garbled
    ensures forall service, fates: nat -> Fate :: !Disable(WorldAt(w, ops, n), service, fates).1
    ensures forall service, host, port, fates: nat -> Fate :: Flawless(service, host, port, fates) ==>
      Enable(WorldAt(w, ops, n), service, host, port, fates).1
    decreases n
  {
    if n > 0 {
      SpoiltFileStays(w, ops, n - 1);
      var before, op := WorldAt(w, ops, n - 1), ops[n - 1];
      match op {
        case On(service, host, port, fates) => EnableOutcome(before, service, host, port, fates);
        case Off(service, fates) => DisableOutcome(before, service, fates);
        case Outside(_, _) =>
      }
    }
    forall service, host, port, fates: nat -> Fate | Flawless(service, host, port, fates)
      ensures Enable(WorldAt(w, ops, n), service, host, port, fates).1
    {
      AllWork(WorldAt(w, ops, n), EnableCommands(host, port), fates, 5);
    }
  }

  lemma {:induction false} AllWork(w: World, commands: seq<Command>, fates: nat -> Fate, k: nat)
    requires forall i :: fates(i) == Works
    ensures RunAll(w, commands, fates, k).1
    decreases |commands|
  {
    if commands != [] { AllWork(Effect(w, commands[0]), commands[1..], fates, k + 1); }
  }

  /** When nothing fails, `Disable` succeeds exactly when it is given a service and finds a saved state. */
  lemma {:induction false} DisableWorksExactly(w: World, service: string, fates: nat -> Fate)
    requires forall i :: fates(i) == Works
    ensures Disable(w, service, fates).1 <==> service != "" && w.file.Saved?
  {
    if w.file.Saved? { AllWork(w, RestoreCommands(w.file.http, w.file.https), fates, 1); }
  }

  /** An `Enable` that finds no file and whose write of the file is interrupted, all before it having worked. */
  predicate Interrupted(w: World, op: Op)
  {
    op.On? && op.service != "" && op.host != "" && op.port > 0 && w.file == Absent &&
    op.fates(0) == op.fates(1) == op.fates(2) == op.fates(3) == Works && op.fates(4) == FailsAfter
  }

  /** One operation spoils the file exactly by being interrupted, and nothing mends it. */
  lemma {:induction false} SpoilsExactly(w: World, op: Op)
    ensures ApplyOp(w, op).file == Garbled <==> w.file == Garbled || Interrupted(w, op)
  {
    match op {
      case On(service, host, port, fates) =>
        EnableOutcome(w, service, host, port, fates);
        CommandsKeepFile(SaveState(w, fates).0, EnableCommands(host, port), fates, 5);
      case Off(service, fates) => DisableOutcome(w, service, fates);
      case Outside(_, _) =>
    }
  }

  /** After any history that starts without a spoilt file, the file is spoilt exactly when some `Enable` was
      interrupted. */
  lemma {:induction false} SpoiltExactly(w: World, ops: seq<Op>, n: nat)
    requires w.file != Garbled && n <= |ops|
    ensures WorldAt(w, ops, n).file == Garbled <==> exists m :: 0 <= m < n && Interrupted(WorldAt(w, ops, m), ops[m])
  {
    hide ApplyOp, Interrupted;
    if n > 0 {
      SpoiltExactly(w, ops, n - 1);
      SpoilsExactly(WorldAt(w, ops, n - 1), ops[n - 1]);
    }
  }

  /** Hence what was enabled can be restored exactly when no write was interrupted: after a history that starts
      without a file and has the file now, a `Disable` in which nothing fails succeeds exactly when no `Enable` of the
      history was interrupted. */
  lemma {:induction false} RestorableExactly(w: World, ops: seq<Op>, service: string, fates: nat -> Fate)
    requires w.file == Absent && WorldAt(w, ops, |ops|).file != Absent
    requires service != "" && forall i :: fates(i) == Works
    ensures Disable(WorldAt(w, ops, |ops|), service, fates).1
            <==> !exists m :: 0 <= m < |ops| && Interrupted(WorldAt(w, ops, m), ops[m])
  {
    SpoiltExactly(w, ops, |ops|);
    DisableWorksExactly(WorldAt(w, ops, |ops|), service, fates);
  }

  /** With valid arguments and nothing failing, `Enable` succeeds in every world: the proxy is on with the given
      server and port, and the file holds the configuration found if there was none before. */
  lemma {:induction false} EnableWorks(w: World, service: string, host: string, port: int, fates: nat -> Fate)
    requires Flawless(service, host, port, fates)
    ensures
      var (r, ok) := Enable(w, service, host, port, fates);
      ok && r.http == r.https == Config(true, host, port) &&
      r.file == if w.file == Absent then Saved(w.http, w.https) else w.file
  {
    var saved := SaveState(w, fates).0;
    AllWork(saved, EnableCommands(host, port), fates, 5);
    CommandsKeepFile(saved, EnableCommands(host, port), fates, 5);
    EnableOutcome(w, service, host, port, fates);
  }
}
