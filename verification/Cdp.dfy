/** The CDP client: callers, one reader and one event consumer as interleaved steps over shared state. */
module Cdp {
  import opened Options

  datatype Message =
    | Reply(id: int, payload: string)
    | Notice(payload: string)
    | Unknown

  /** A caller's one-slot channel; `sent` is everything the reader ever put into it. */
  datatype Channel = Channel(slot: Option<Message>, sent: seq<Message>)

  datatype Caller =
    | Waiting
    | Cancelling
    | Answered(reply: Message)
    | Gone

  /** Between its locked section and its send, the reader holds a channel and a reply. */
  datatype Reader = Reading | Holding(channel: nat, reply: Message) | Closed

  /** Call `i` (from 0) has id `i + 1`, channel `i` and caller `i`. The histories `seen` and `queued` record the
      notifications read and those accepted into the bounded queue. */
  datatype State = State(
    nextId: nat, pending: map<int, nat>, channels: seq<Channel>, callers: seq<Caller>,
    reader: Reader, events: seq<Message>, seen: seq<Message>, queued: seq<Message>)

  const QUEUE := 256

  const START := State(0, map[], [], [], Reading, [], [], [])

  datatype Move =
    | Call(writeFails: bool)
    | Cancel(caller: nat)
    | Forget(caller: nat)
    | Receive(caller: nat)
    | GiveUp(caller: nat)
    | Read(message: Message)
    | SendReply
    | Consume
    | Hangup

  /** Whether a step can be taken; a full channel blocks the reader's send. */
  predicate Enabled(s: State, m: Move)
  {
    match m
    case Call(_) => true
    case Cancel(c) => c < |s.callers| && s.callers[c].Waiting?
    case Forget(c) => c < |s.callers| && s.callers[c].Cancelling?
    case Receive(c) => c < |s.callers| && c < |s.channels| && s.callers[c].Waiting? && s.channels[c].slot.Some?
    case GiveUp(c) => c < |s.callers| && s.callers[c].Waiting? && s.reader.Closed?
    case Read(_) => s.reader.Reading?
    case SendReply => s.reader.Holding? && s.reader.channel < |s.channels| && s.channels[s.reader.channel].slot.None?
    case Consume => s.events != []
    case Hangup => s.reader.Reading?
  }

  function Apply(s: State, m: Move): State
    requires Enabled(s, m)
  {
    match m
    case Call(fails) =>
      var id := s.nextId + 1;
      s.(nextId := id, pending := s.pending[id := |s.channels|], channels := s.channels + [Channel(None, [])],
         callers := s.callers + [if fails then Gone else Waiting])
    case Cancel(c) => s.(callers := s.callers[c := Cancelling])
    case Forget(c) => s.(callers := s.callers[c := Gone], pending := s.pending - {c as int + 1})
    case Receive(c) =>
      s.(callers := s.callers[c := Answered(s.channels[c].slot.value)],
         channels := s.channels[c := s.channels[c].(slot := None)])
    case GiveUp(c) => s.(callers := s.callers[c := Gone])
    case Read(message) =>
      (match message
       case Reply(id, _) =>
         if id in s.pending then s.(pending := s.pending - {id}, reader := Holding(s.pending[id], message)) else s
       case Notice(_) =>
         if |s.events| < QUEUE then
           s.(seen := s.seen + [message], events := s.events + [message], queued := s.queued + [message])
         else s.(seen := s.seen + [message])
       case Unknown => s)
    case SendReply =>
      var c := s.reader.channel;
      s.(channels := s.channels[c := Channel(Some(s.reader.reply), s.channels[c].sent + [s.reader.reply])],
          reader := Reading)
    case Consume => s.(events := s.events[1..])
    case Hangup => s.(reader := Closed)
  }

  predicate Legal(s: State, moves: seq<Move>)
    decreases |moves|
  {
    moves == [] || (Enabled(s, moves[0]) && Legal(Apply(s, moves[0]), moves[1..]))
  }

  function Exec(s: State, moves: seq<Move>): State
    requires Legal(s, moves)
    decreases |moves|
  {
    if moves == [] then s else Exec(Apply(s, moves[0]), moves[1..])
  }

  // ----- the invariant

  /** Keeping some elements, in order. */
  predicate Subsequence<T(==)>(a: seq<T>, b: seq<T>)
    decreases |b|
  {
    a == [] || (b != [] &&
      ((a[|a| - 1] == b[|b| - 1] && Subsequence(a[..|a| - 1], b[..|b| - 1])) || Subsequence(a, b[..|b| - 1])))
  }

  /** Tables have one row per call, and pending ids point at their own channel. */
  ghost predicate Shape(s: State)
  {
    |s.channels| == |s.callers| == s.nextId &&
    forall id :: id in s.pending ==> 1 <= id <= s.nextId && s.pending[id] == id - 1
  }

  /** A channel got at most one message, the reply to its own id, and its slot holds nothing else. */
  ghost predicate ChannelOk(c: Channel, index: nat)
  {
    |c.sent| <= 1 && (forall m :: m in c.sent ==> m.Reply? && m.id == index + 1) &&
    (c.slot.Some? ==> c.sent == [c.slot.value])
  }

  ghost predicate ChannelsOk(s: State)
  {
    forall i :: 0 <= i < |s.channels| ==> ChannelOk(s.channels[i], i)
  }

  /** Whoever may still send to a channel finds it untouched. */
  ghost predicate PendingOk(s: State)
    requires Shape(s)
  {
    (forall id :: id in s.pending ==> s.channels[s.pending[id]] == Channel(None, [])) &&
    (s.reader.Holding? ==>
       s.reader.channel < s.nextId && s.channels[s.reader.channel] == Channel(None, []) &&
       s.reader.channel + 1 !in s.pending && s.reader.reply.Reply? && s.reader.reply.id == s.reader.channel + 1)
  }

  ghost predicate AnswersOk(s: State)
    requires Shape(s)
  {
    forall i :: 0 <= i < |s.callers| && s.callers[i].Answered? ==>
      s.channels[i] == Channel(None, [s.callers[i].reply])
  }

  predicate HeldFor(r: Reader, i: nat) { r.Holding? && r.channel == i }

  /** No waiting caller is forgotten: its id is pending, its reply is on its way, or in its slot. */
  ghost predicate WaitersOk(s: State)
    requires Shape(s)
  {
    forall i :: 0 <= i < |s.callers| && s.callers[i].Waiting? ==>
      i + 1 in s.pending || HeldFor(s.reader, i) || s.channels[i].slot.Some?
  }

  ghost predicate EventsOk(s: State)
  {
    |s.events| <= QUEUE && Subsequence(s.queued, s.seen) && |s.events| <= |s.queued| &&
    s.events == s.queued[|s.queued| - |s.events|..]
  }

  ghost predicate Invariant(s: State)
  {
    Shape(s) && ChannelsOk(s) && PendingOk(s) && AnswersOk(s) && WaitersOk(s) && EventsOk(s)
  }

  lemma {:induction false} CallKeeps(s: State, fails: bool)
    requires Invariant(s) && Enabled(s, Call(fails))
    ensures Invariant(Apply(s, Call(fails)))
  {
    hide Subsequence;
  }

  lemma {:induction false} CancelKeeps(s: State, c: nat)
    requires Invariant(s) && Enabled(s, Cancel(c))
    ensures Invariant(Apply(s, Cancel(c)))
  {
    hide Subsequence;
  }

  lemma {:induction false} ForgetKeeps(s: State, c: nat)
    requires Invariant(s) && Enabled(s, Forget(c))
    ensures Invariant(Apply(s, Forget(c)))
  {
    hide Subsequence;
  }

  lemma {:induction false} ReceiveKeeps(s: State, c: nat)
    requires Invariant(s) && Enabled(s, Receive(c))
    ensures Invariant(Apply(s, Receive(c)))
  {
    hide Subsequence;
  }

  lemma {:induction false} GiveUpKeeps(s: State, c: nat)
    requires Invariant(s) && Enabled(s, GiveUp(c))
    ensures Invariant(Apply(s, GiveUp(c)))
  {
    hide Subsequence;
  }

  lemma {:induction false} SubsequenceSnoc<T>(a: seq<T>, b: seq<T>, x: T)
    requires Subsequence(a, b)
    ensures Subsequence(a, b + [x]) && Subsequence(a + [x], b + [x])
  {
    assert (b + [x])[..|b|] == b && (a + [x])[..|a|] == a;
  }

  /** The event fields alone decide the events part; the others do not read them. */
  lemma {:induction false} EventsApart(s: State, events: seq<Message>, seen: seq<Message>, queued: seq<Message>)
    requires Invariant(s)
    ensures
      var t := s.(events := events, seen := seen, queued := queued);
      Shape(t) && ChannelsOk(t) && PendingOk(t) && AnswersOk(t) && WaitersOk(t)
  {
    hide Subsequence;
  }

  lemma {:induction false} NoticeQueues(s: State, message: Message)
    requires EventsOk(s) && s.reader.Reading? && message.Notice?
    ensures EventsOk(Apply(s, Read(message)))
  {
    SubsequenceSnoc(s.queued, s.seen, message);
  }

  lemma {:induction false} NoticeKeeps(s: State, message: Message)
    requires Invariant(s) && Enabled(s, Read(message)) && message.Notice?
    ensures Invariant(Apply(s, Read(message)))
  {
    var t := Apply(s, Read(message));
    EventsApart(s, t.events, t.seen, t.queued);
    NoticeQueues(s, message);
    assert t == s.(events := t.events, seen := t.seen, queued := t.queued);
    hide Shape, ChannelsOk, PendingOk, AnswersOk, WaitersOk, EventsOk;
  }

  lemma {:induction false} ReplyKeeps(s: State, message: Message)
    requires Invariant(s) && Enabled(s, Read(message)) && message.Reply?
    ensures Invariant(Apply(s, Read(message)))
  {
    hide Subsequence;
  }

  lemma {:induction false} UnknownKeeps(s: State)
    requires Invariant(s) && Enabled(s, Read(Unknown))
    ensures Invariant(Apply(s, Read(Unknown)))
  {
    hide Invariant;
    assert Apply(s, Read(Unknown)) == s;
  }

  lemma {:induction false} SendReplyKeeps(s: State)
    requires Invariant(s) && Enabled(s, SendReply)
    ensures Invariant(Apply(s, SendReply))
  {
    hide Subsequence;
  }

  lemma {:induction false} ConsumeKeeps(s: State)
    requires Invariant(s) && Enabled(s, Consume)
    ensures Invariant(Apply(s, Consume))
  {
    hide Subsequence;
  }

  lemma {:induction false} HangupKeeps(s: State)
    requires Invariant(s) && Enabled(s, Hangup)
    ensures Invariant(Apply(s, Hangup))
  {
    hide Subsequence;
  }

  /** Every step of every party keeps the invariant. */
  lemma {:induction false} MoveKeeps(s: State, m: Move)
    requires Invariant(s) && Enabled(s, m)
    ensures Invariant(Apply(s, m))
  {
    hide Invariant, Enabled, Apply;
    match m
    case Call(fails) => CallKeeps(s, fails);
    case Cancel(c) => CancelKeeps(s, c);
    case Forget(c) => ForgetKeeps(s, c);
    case Receive(c) => ReceiveKeeps(s, c);
    case GiveUp(c) => GiveUpKeeps(s, c);
    case Read(message) =>
      match message {
        case Reply(_, _) => ReplyKeeps(s, message);
        case Notice(_) => NoticeKeeps(s, message);
        case Unknown => UnknownKeeps(s);
      }
    case SendReply => SendReplyKeeps(s);
    case Consume => ConsumeKeeps(s);
    case Hangup => HangupKeeps(s);
  }

  lemma {:induction false} RunKeeps(s: State, moves: seq<Move>)
    requires Invariant(s) && Legal(s, moves)
    ensures Invariant(Exec(s, moves))
    decreases |moves|
  {
    if moves != [] {
      MoveKeeps(s, moves[0]);
      RunKeeps(Apply(s, moves[0]), moves[1..]);
    }
  }

  lemma {:induction false} StartKeeps()
    ensures Invariant(START)
  {
  }

  lemma {:induction false} ChannelsCarryIds(s: State)
    requires ChannelsOk(s)
    ensures forall i :: 0 <= i < |s.channels| ==>
      |s.channels[i].sent| <= 1 && forall m :: m in s.channels[i].sent ==> m.Reply? && m.id == i + 1
  {
    forall i | 0 <= i < |s.channels|
      ensures |s.channels[i].sent| <= 1 && forall m :: m in s.channels[i].sent ==> m.Reply? && m.id == i + 1
    {
      assert ChannelOk(s.channels[i], i);
    }
  }

  lemma {:induction false} AnswersCarryIds(s: State)
    requires Shape(s) && ChannelsOk(s) && AnswersOk(s)
    ensures forall i :: 0 <= i < |s.callers| && s.callers[i].Answered? ==>
      s.callers[i].reply.Reply? && s.callers[i].reply.id == i + 1
  {
    forall i | 0 <= i < |s.callers| && s.callers[i].Answered?
      ensures s.callers[i].reply.Reply? && s.callers[i].reply.id == i + 1
    {
      assert ChannelOk(s.channels[i], i);
      assert s.callers[i].reply in s.channels[i].sent;
    }
  }

  lemma {:induction false} ReaderCanSend(s: State)
    requires Shape(s) && PendingOk(s)
    ensures s.reader.Holding? ==> Enabled(s, SendReply)
  {
  }

  /** After any interleaving of calls, failed writes, cancellations, replies (duplicate, unknown or late),
      notifications, receives and hang-up: every channel has received at most one message, which answers its own call;
      every answered caller holds the reply to its own id; no waiting caller is forgotten; the reader's send never
      blocks; a new call's id was never used; and the queue is a suffix of the accepted notifications, themselves the
      received ones in order, minus those dropped while it was full. */
  lemma {:induction false} Correlation(moves: seq<Move>)
    requires Legal(START, moves)
    ensures
      var s := Exec(START, moves);
      |s.channels| == |s.callers| == s.nextId && s.nextId + 1 !in s.pending &&
      (forall i :: 0 <= i < |s.channels| ==>
         |s.channels[i].sent| <= 1 && forall m :: m in s.channels[i].sent ==> m.Reply? && m.id == i + 1) &&
      (forall i :: 0 <= i < |s.callers| && s.callers[i].Answered? ==>
          s.callers[i].reply.Reply? && s.callers[i].reply.id == i + 1) &&
      (s.reader.Holding? ==> Enabled(s, SendReply)) &&
      (forall i :: 0 <= i < |s.callers| && s.callers[i].Waiting? ==>
         i + 1 in s.pending || HeldFor(s.reader, i) || s.channels[i].slot.Some?) &&
      Subsequence(s.queued, s.seen) && |s.events| <= QUEUE &&
      |s.events| <= |s.queued| && s.events == s.queued[|s.queued| - |s.events|..]
  {
    hide Subsequence, Exec, Enabled, Legal, ChannelsOk, PendingOk, AnswersOk;
    StartKeeps();
    RunKeeps(START, moves);
    var s := Exec(START, moves);
    ChannelsCarryIds(s);
    AnswersCarryIds(s);
    ReaderCanSend(s);
  }

  /** A notification read while fewer than 256 events wait is queued behind them; otherwise it is dropped. */
  lemma {:induction false} NoticeQueuedExactly(moves: seq<Move>, message: Message)
    requires Legal(START, moves) && Exec(START, moves).reader.Reading? && message.Notice?
    ensures
      var s := Exec(START, moves);
      var t := Apply(s, Read(message));
      t.seen == s.seen + [message] &&
      (|s.events| < 256 ==> t.events == s.events + [message] && t.queued == s.queued + [message]) &&
      (|s.events| >= 256 ==> |s.events| == 256 && t.events == s.events && t.queued == s.queued)
  {
    hide Subsequence, Exec, Legal, ChannelsOk, PendingOk, AnswersOk;
    StartKeeps();
    RunKeeps(START, moves);
  }

  // ----- what is pending, who is answered, what is consumed

  lemma {:induction false} ExecSnoc(s: State, moves: seq<Move>, m: Move)
    ensures Legal(s, moves + [m]) <==> Legal(s, moves) && Enabled(Exec(s, moves), m)
    ensures Legal(s, moves + [m]) ==> Exec(s, moves + [m]) == Apply(Exec(s, moves), m)
    decreases |moves|
  {
    hide Enabled, Apply;
    if moves == [] {
      assert moves + [m] == [m] && [m][1..] == [];
      assert Legal(s, []) && Exec(s, []) == s;
    } else {
      assert (moves + [m])[0] == moves[0] && (moves + [m])[1..] == moves[1..] + [m];
      if Enabled(s, moves[0]) { ExecSnoc(Apply(s, moves[0]), moves[1..], m); }
    }
  }

  function Calls(moves: seq<Move>): nat
  {
    if moves == [] then 0 else Calls(moves[..|moves| - 1]) + if moves[|moves| - 1].Call? then 1 else 0
  }

  function Consumed(moves: seq<Move>): nat
  {
    if moves == [] then 0 else Consumed(moves[..|moves| - 1]) + if moves[|moves| - 1].Consume? then 1 else 0
  }

  /** The caller gave up on the id, or a reply to it was read. */
  predicate Closes(m: Move, id: int)
  {
    (m.Forget? && m.caller == id - 1) || (m.Read? && m.message.Reply? && m.message.id == id)
  }

  /** Step `p` made the call with that id. */
  predicate CallsAs(moves: seq<Move>, p: int, id: int)
  {
    0 <= p < |moves| && moves[p].Call? && Calls(moves[..p]) == id - 1
  }

  ghost predicate OpenSince(moves: seq<Move>, p: int, id: int)
  {
    CallsAs(moves, p, id) && forall q :: p < q < |moves| ==> !Closes(moves[q], id)
  }

  lemma {:induction false} OpenSnoc(moves: seq<Move>, m: Move, id: int, p: int)
    requires 0 <= p < |moves|
    ensures OpenSince(moves + [m], p, id) <==> OpenSince(moves, p, id) && !Closes(m, id)
  {
    hide Closes;
    var all := moves + [m];
    assert all[..p] == moves[..p];
    if OpenSince(all, p, id) {
      assert !Closes(all[|moves|], id);
      assert forall q :: p < q < |moves| ==> all[q] == moves[q];
    }
  }

  lemma {:induction false} CallsCount(moves: seq<Move>, m: Move)
    ensures Calls(moves + [m]) == Calls(moves) + if m.Call? then 1 else 0
    ensures Consumed(moves + [m]) == Consumed(moves) + if m.Consume? then 1 else 0
  {
    assert (moves + [m])[..|moves|] == moves;
  }

  lemma {:induction false} PendingAfter(s: State, m: Move, id: int)
    requires Invariant(s) && Enabled(s, m)
    ensures id in Apply(s, m).pending
            <==> (id in s.pending && !Closes(m, id)) || (m.Call? && id == s.nextId + 1)
    ensures Apply(s, m).nextId == s.nextId + if m.Call? then 1 else 0
  {
    hide ChannelsOk, PendingOk, AnswersOk, WaitersOk, EventsOk;
  }

  /** Exactly those ids are pending that a call took, failed writes included, and that were neither given up by their
      caller nor replied to since. */
  lemma {:induction false} PendingExactly(moves: seq<Move>, id: int)
    requires Legal(START, moves)
    ensures Exec(START, moves).nextId == Calls(moves)
    ensures id in Exec(START, moves).pending <==> exists p :: OpenSince(moves, p, id)
  {
    hide Enabled, Apply, Legal, Exec, Closes, Calls, Invariant;
    if moves == [] {
      NoMoves();
    } else {
      var n := |moves| - 1;
      var a, m := moves[..n], moves[n];
      assert moves == a + [m];
      ExecSnoc(START, a, m);
      PendingExactly(a, id);
      CallsCount(a, m);
      StartKeeps();
      RunKeeps(START, a);
      PendingAfter(Exec(START, a), m, id);
      if p :| OpenSince(a, p, id) { OpenSnoc(a, m, id, p); }
      if p :| OpenSince(moves, p, id) && p < n { OpenSnoc(a, m, id, p); }
      assert m.Call? && id == Calls(a) + 1 ==> OpenSince(moves, n, id);
    }
  }

  lemma {:induction false} NoMoves()
    ensures Legal(START, []) && Exec(START, []) == START && Calls([]) == 0 && Consumed([]) == 0
  {
  }

  /** The consumer takes one event at a time, from the front: with the suffix clause of `Correlation`, it has received
      the accepted notifications in order, each once. */
  lemma {:induction false} ConsumedExactly(moves: seq<Move>)
    requires Legal(START, moves)
    ensures |Exec(START, moves).events| + Consumed(moves) == |Exec(START, moves).queued|
  {
    hide Enabled, Apply, Legal, Exec, Consumed;
    if moves == [] {
      NoMoves();
    } else {
      var n := |moves| - 1;
      var a, m := moves[..n], moves[n];
      assert moves == a + [m];
      ExecSnoc(START, a, m);
      ConsumedExactly(a);
      CallsCount(a, m);
      EventsAfter(Exec(START, a), m);
    }
  }

  lemma {:induction false} EventsAfter(s: State, m: Move)
    requires Enabled(s, m)
    ensures |Apply(s, m).events| - |s.events| + (if m.Consume? then 1 else 0) == |Apply(s, m).queued| - |s.queued|
  {
  }

  /** A caller waits from its call, if the write succeeds, until it is cancelled, receives its reply, or gives up
      because the connection closed. */
  lemma {:induction false} WaitsExactly(s: State, m: Move, c: nat)
    requires Invariant(s) && Enabled(s, m) && c < Apply(s, m).nextId
    ensures c < |Apply(s, m).callers|
    ensures Apply(s, m).callers[c].Waiting?
            <==> if c == s.nextId then m == Call(false)
                 else s.callers[c].Waiting? && m != Cancel(c) && m != Receive(c) && m != GiveUp(c)
  {
    hide ChannelsOk, PendingOk, AnswersOk, WaitersOk, EventsOk;
  }

  /** In every reachable state with a live connection, a waiting caller whose id is pending gets the reply to it that
      is read next. */
  lemma {:induction false} WaiterIsAnswered(moves: seq<Move>, c: nat, payload: string)
    requires Legal(START, moves) && Exec(START, moves).reader.Reading? && c < |Exec(START, moves).callers|
    requires Exec(START, moves).callers[c].Waiting? && c + 1 in Exec(START, moves).pending
    ensures
      var s, reply := Exec(START, moves), Reply(c + 1, payload);
      Enabled(s, Read(reply)) && Enabled(Apply(s, Read(reply)), SendReply) &&
      var t := Apply(Apply(s, Read(reply)), SendReply);
      Enabled(t, Receive(c)) && c < |Apply(t, Receive(c)).callers| &&
      Apply(t, Receive(c)).callers[c] == Answered(reply) && t.reader.Reading?
  {
    hide Exec, Legal, ChannelsOk, AnswersOk, WaitersOk, EventsOk;
    StartKeeps();
    RunKeeps(START, moves);
  }

  /** Nobody is ever stuck: a call can always be made and a waiting one cancelled; a cancelled caller can leave, and a
      waiting one can take a reply that is there, and give up once the connection is closed; the consumer can take
      whatever is queued; and the reader can always read any message, hang up, or deliver what it holds. */
  lemma {:induction false} NobodyIsStuck(moves: seq<Move>, c: nat, fails: bool, message: Message)
    requires Legal(START, moves)
    ensures
      var s := Exec(START, moves);
      Enabled(s, Call(fails)) && (s.events != [] ==> Enabled(s, Consume)) &&
      (s.reader.Reading? ==> Enabled(s, Read(message)) && Enabled(s, Hangup)) &&
      (s.reader.Holding? ==> Enabled(s, SendReply)) &&
      (c < |s.callers| && s.callers[c].Cancelling? ==> Enabled(s, Forget(c))) &&
      (c < |s.callers| && s.callers[c].Waiting? ==>
         Enabled(s, Cancel(c)) && (s.reader.Closed? ==> Enabled(s, GiveUp(c))) &&
         c < |s.channels| && (s.channels[c].slot.Some? ==> Enabled(s, Receive(c))))
  {
    hide Exec, Legal, ChannelsOk, AnswersOk, WaitersOk, EventsOk;
    StartKeeps();
    RunKeeps(START, moves);
  }
}
