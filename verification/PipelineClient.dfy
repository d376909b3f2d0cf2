/** The pipelined client of resp/client/client.go, as the steps its goroutines take: senders and
    heartbeats, the writer with its retries, one reader per connection, and timeouts, interleaved in
    any order with a server that answers each connection in order. */
module PipelineClient {
  import opened ByteStrings
  import opened Strconv
  import opened Replies
  import opened Parser
  import opened ParserLaws
  import opened ReplyLaws

  const CHAN_SIZE: nat := 256
  const MAX_RETRIES: nat := 3

  /** What `Send` gave its caller. */
  datatype Result = TimedOut | RequestFailed | Answered(reply: Reply)

  /** A request; `dones` counts the calls of `waiting.Done`. */
  datatype Req =
    Req(args: CmdLine, heartbeat: bool, reply: Option<Reply>, err: bool, dones: nat, result: Option<Result>)

  /** Where the writer's goroutine is in `doRequest`. */
  datatype Hand = Idle | Holding(id: nat) | Retrying(id: nat, tries: nat) | Written(id: nat)

  /** A connection: the bytes sent, the server's replies, how many payloads its reader has passed on,
      whether it is lost, and whether its reader has passed on the final I/O error. */
  datatype Conn = Conn(out: Bytes, replies: seq<Reply>, read: nat, lost: bool, ended: bool)

  /** Requests are named by their number. `written` remembers the order of successful writes. */
  datatype Client = Client(reqs: seq<Req>, pending: seq<nat>, hand: Hand, waiting: seq<nat>, dropped: set<nat>,
                           conns: seq<Conn>, written: seq<nat>)
  {
    function Current(): Conn
      requires conns != []
    {
      conns[|conns| - 1]
    }
  }

  const INIT := Client([], [], Idle, [], {}, [Conn([], [], 0, false, false)], [])

  datatype Step =
    | New(args: CmdLine, heartbeat: bool)
    | Take
    | Drop
    | Write
    | WriteFails(part: Bytes)
    | ReconnectFails(closed: bool)
    | Reconnect
    | ReconnectWriteFails(part: Bytes)
    | GiveUp
    | Enqueue
    | ServerAnswers(conn: nat, reply: Reply)
    | Read(conn: nat)
    | Lose(conn: nat)
    | ReadEnds(conn: nat)
    | Return(id: nat)
    | TimeOut(id: nat)

  /** The payloads a connection's reader gets from the bytes of the replies. */
  function Incoming(c: Conn): seq<Payload> {
    Feed(REST, PrintReplies(c.replies)).out
  }

  /** The payloads the server gets from the bytes sent. */
  function Arrived(c: Conn): seq<Payload> {
    Feed(REST, c.out).out
  }

  /** What `handleRead` turns a payload into. Protocol errors, whose text is left open, and payloads
      without data become an error here. */
  function ReplyIn(p: Payload): Reply {
    if p.Data? then p.reply else Error([])
  }

  predicate Enabled(s: Client, step: Step) {
    match step
    case New(args, _) => |s.pending| < CHAN_SIZE
    case Take => s.hand == Idle && s.pending != []
    case Drop => s.hand.Holding? && s.hand.id < |s.reqs| && s.reqs[s.hand.id].args == []
    case Write =>
      && s.hand.Holding? && s.hand.id < |s.reqs| && s.reqs[s.hand.id].args != []
      && s.conns != [] && !s.Current().lost
    case WriteFails(part) =>
      && s.hand.Holding? && s.hand.id < |s.reqs| && s.reqs[s.hand.id].args != []
      && s.conns != [] && part <= Print(s.reqs[s.hand.id].args)
    case ReconnectFails(_) => s.hand.Retrying? && s.hand.tries < MAX_RETRIES && s.conns != []
    case Reconnect => s.hand.Retrying? && s.hand.tries < MAX_RETRIES && s.hand.id < |s.reqs| && s.conns != []
    case ReconnectWriteFails(part) =>
      && s.hand.Retrying? && s.hand.tries < MAX_RETRIES && s.hand.id < |s.reqs|
      && s.conns != [] && part <= Print(s.reqs[s.hand.id].args)
    case GiveUp => s.hand.Retrying? && s.hand.tries == MAX_RETRIES && s.hand.id < |s.reqs|
    case Enqueue => s.hand.Written? && |s.waiting| < CHAN_SIZE
    case ServerAnswers(c, _) => c < |s.conns| && |s.conns[c].replies| < |Arrived(s.conns[c])|
    case Read(c) =>
      && c < |s.conns| && s.conns[c].read < |Incoming(s.conns[c])|
      && s.waiting != [] && s.waiting[0] < |s.reqs|
    case Lose(c) => c < |s.conns|
    case ReadEnds(c) =>
      && c < |s.conns| && s.conns[c].lost && !s.conns[c].ended
      && s.waiting != [] && s.waiting[0] < |s.reqs|
    case Return(id) =>
      && id < |s.reqs| && s.reqs[id].dones >= 1 && s.reqs[id].result == None
      && (s.reqs[id].err || s.reqs[id].reply.Some?)
    case TimeOut(id) => id < |s.reqs| && s.reqs[id].result == None
  }

  /** `finishRequest` on the head of the waiting queue. */
  function Finish(s: Client, reply: Reply): Client
    requires s.waiting != [] && s.waiting[0] < |s.reqs|
  {
    var id := s.waiting[0];
    s.(waiting := s.waiting[1..],
       reqs := s.reqs[id := s.reqs[id].(reply := Some(reply), dones := s.reqs[id].dones + 1)])
  }

  function SendOn(s: Client, bytes: Bytes): seq<Conn>
    requires s.conns != []
  {
    s.conns[|s.conns| - 1 := s.Current().(out := s.Current().out + bytes)]
  }

  function Close(s: Client): seq<Conn>
    requires s.conns != []
  {
    s.conns[|s.conns| - 1 := s.Current().(lost := true)]
  }

  function Next(s: Client, step: Step): Client
    requires Enabled(s, step)
  {
    hide Feed, Print;
    match step
    case New(args, heartbeat) =>
      s.(reqs := s.reqs + [Req(args, heartbeat, None, false, 0, None)], pending := s.pending + [|s.reqs|])
    case Take => s.(pending := s.pending[1..], hand := Holding(s.pending[0]))
    case Drop => s.(hand := Idle, dropped := s.dropped + {s.hand.id})
    case Write =>
      s.(hand := Written(s.hand.id),
         conns := SendOn(s, Print(s.reqs[s.hand.id].args)),
         written := s.written + [s.hand.id])
    case WriteFails(part) => s.(hand := Retrying(s.hand.id, 0), conns := SendOn(s, part))
    case ReconnectFails(closed) =>
      s.(hand := Retrying(s.hand.id, s.hand.tries + 1), conns := if closed then Close(s) else s.conns)
    case Reconnect =>
      s.(hand := Written(s.hand.id),
         conns := Close(s) + [Conn(Print(s.reqs[s.hand.id].args), [], 0, false, false)],
         written := s.written + [s.hand.id])
    case ReconnectWriteFails(part) =>
      s.(hand := Retrying(s.hand.id, s.hand.tries + 1), conns := Close(s) + [Conn(part, [], 0, false, false)])
    case GiveUp =>
      var r := s.reqs[s.hand.id];
      s.(hand := Idle, reqs := s.reqs[s.hand.id := r.(err := true, dones := r.dones + 1)])
    case Enqueue => s.(hand := Idle, waiting := s.waiting + [s.hand.id])
    case ServerAnswers(c, reply) => s.(conns := s.conns[c := s.conns[c].(replies := s.conns[c].replies + [reply])])
    case Read(c) =>
      var conn := s.conns[c];
      Finish(s, ReplyIn(Incoming(conn)[conn.read])).(conns := s.conns[c := conn.(read := conn.read + 1)])
    case Lose(c) => s.(conns := s.conns[c := s.conns[c].(lost := true)])
    case ReadEnds(c) => Finish(s, Error([])).(conns := s.conns[c := s.conns[c].(ended := true)])
    case Return(id) =>
      var r := s.reqs[id];
      s.(reqs := s.reqs[id := r.(result := Some(if r.err then RequestFailed else Answered(r.reply.value)))])
    case TimeOut(id) => s.(reqs := s.reqs[id := s.reqs[id].(result := Some(TimedOut))])
  }

  /** The states a list of steps leads through from the start. */
  predicate CanRun(steps: seq<Step>)
    decreases |steps|, 0
  {
    steps == [] || (CanRun(steps[..|steps| - 1]) && Enabled(After(steps[..|steps| - 1]), steps[|steps| - 1]))
  }

  function After(steps: seq<Step>): Client
    requires CanRun(steps)
    decreases |steps|, 1
  {
    if steps == [] then INIT else Next(After(steps[..|steps| - 1]), steps[|steps| - 1])
  }

  function InHand(s: Client, id: nat): nat {
    if !s.hand.Idle? && s.hand.id == id then 1 else 0
  }

  /** How often a request is accounted for, over all the places it can be in. */
  function Tally(s: Client, id: nat): nat
    requires id < |s.reqs|
  {
    multiset(s.pending)[id] + InHand(s, id) + multiset(s.waiting)[id] + s.reqs[id].dones
    + if id in s.dropped then 1 else 0
  }

  predicate Known(s: Client) {
    && (forall i | 0 <= i < |s.pending| :: s.pending[i] < |s.reqs|)
    && (forall i | 0 <= i < |s.waiting| :: s.waiting[i] < |s.reqs|)
    && (s.hand.Idle? || s.hand.id < |s.reqs|)
    && (forall id | id in s.dropped :: id < |s.reqs| && s.reqs[id].args == [])
  }

  /** Every request is in exactly one place. */
  ghost predicate Accounted(s: Client) {
    && Known(s) && s.conns != []
    && (s.hand.Written? || s.hand.Retrying? ==> s.reqs[s.hand.id].args != [])
    && forall id | 0 <= id < |s.reqs| :: Tally(s, id) == 1
  }

  lemma HeadTally(q: seq<nat>, id: nat)
    requires q != []
    ensures multiset(q)[id] == multiset(q[1..])[id] + if q[0] == id then 1 else 0
  {
    assert q == [q[0]] + q[1..];
  }

  lemma NewTally(q: seq<nat>, n: nat)
    requires forall i | 0 <= i < |q| :: q[i] < n
    ensures multiset(q)[n] == 0
  {
    assert n !in q;
  }

  lemma StepKeepsTally(s: Client, step: Step, id: nat)
    requires Accounted(s) && Enabled(s, step) && id < |Next(s, step).reqs|
    ensures Tally(Next(s, step), id) == 1
  {
    hide Incoming, Arrived, Print, Feed, ReplyIn;
    assert id < |s.reqs| ==> Tally(s, id) == 1;
    if step.New? {
      NewKeepsTally(s, step, id);
    } else if step.Take? {
      HeadTally(s.pending, id);
    } else if step.Read? {
      hide Finish;
      FinishKeepsTally(s, ReplyIn(Incoming(s.conns[step.conn])[s.conns[step.conn].read]), id);
    } else if step.ReadEnds? {
      hide Finish;
      FinishKeepsTally(s, Error([]), id);
    } else {
      WriterKeepsTally(s, step, id);
    }
  }

  lemma NewKeepsTally(s: Client, step: Step, id: nat)
    requires Accounted(s) && step.New? && Enabled(s, step) && id <= |s.reqs|
    ensures Tally(Next(s, step), id) == 1
  {
    NewTally(s.pending, |s.reqs|);
    NewTally(s.waiting, |s.reqs|);
    assert id < |s.reqs| ==> Tally(s, id) == 1;
  }

  lemma WriterKeepsTally(s: Client, step: Step, id: nat)
    requires Accounted(s) && Enabled(s, step) && id < |s.reqs|
    requires !step.New? && !step.Take? && !step.Read? && !step.ReadEnds?
    ensures Tally(Next(s, step), id) == 1
  {
    hide Incoming, Arrived, Print, Feed, SendOn, Close;
    assert Tally(s, id) == 1;
    assert !s.hand.Idle? ==> Tally(s, s.hand.id) == 1;
  }

  lemma FinishKeepsTally(s: Client, reply: Reply, id: nat)
    requires s.waiting != [] && s.waiting[0] < |s.reqs| && id < |s.reqs|
    ensures |Finish(s, reply).reqs| == |s.reqs| && Tally(Finish(s, reply), id) == Tally(s, id)
  {
    HeadTally(s.waiting, id);
  }

  lemma StepKeepsKnown(s: Client, step: Step)
    requires Accounted(s) && Enabled(s, step)
    ensures var t := Next(s, step);
      Known(t) && t.conns != [] && (t.hand.Written? || t.hand.Retrying? ==> t.reqs[t.hand.id].args != [])
  {
    hide Incoming, Arrived, Print, Feed, ReplyIn, Tally;
  }

  /** Every step of every goroutine keeps the accounts. */
  lemma StepKeepsAccounts(s: Client, step: Step)
    requires Accounted(s) && Enabled(s, step)
    ensures Accounted(Next(s, step))
  {
    hide Enabled, Next, Tally;
    StepKeepsKnown(s, step);
    forall id | 0 <= id < |Next(s, step).reqs| ensures Tally(Next(s, step), id) == 1 {
      StepKeepsTally(s, step, id);
    }
  }

  /** Request accounting, in every run, with any failures, retries and reconnects: each non-empty
      request is in exactly one of the pending queue, the writer's hands, the waiting queue and the
      finished ones, and its wait group is completed at most once. */
  lemma {:induction false} Accounting(steps: seq<Step>)
    requires CanRun(steps)
    ensures Accounted(After(steps))
    decreases |steps|
  {
    hide Enabled, Next;
    if steps == [] {
      assert Accounted(INIT);
    } else {
      Accounting(steps[..|steps| - 1]);
      StepKeepsAccounts(After(steps[..|steps| - 1]), steps[|steps| - 1]);
    }
  }

  /** In step `j` a reader passed the reply on, and the request was the first one waiting: the next
      payload of a connection, or the error at its end. */
  ghost predicate Handed(steps: seq<Step>, j: int, id: nat, reply: Reply) {
    0 <= j < |steps| && CanRun(steps[..j]) &&
    var s := After(steps[..j]);
    s.waiting != [] && s.waiting[0] == id &&
    match steps[j]
    case Read(c) => c < |s.conns| && s.conns[c].read < |Incoming(s.conns[c])|
                    && IsPassedOn(Incoming(s.conns[c])[s.conns[c].read], reply)
    case ReadEnds(_) => reply.Error?
    case _ => false
  }

  /** A payload's data is passed on as it is, anything else as an error. */
  predicate IsPassedOn(p: Payload, reply: Reply) {
    if p.Data? then reply == p.reply else reply.Error?
  }

  /** In step `j` the writer gave the request up, after three attempts to reconnect. */
  ghost predicate GaveUp(steps: seq<Step>, j: int, id: nat) {
    0 <= j < |steps| && steps[j].GiveUp? && CanRun(steps[..j]) && After(steps[..j]).hand == Retrying(id, 3)
  }

  ghost predicate WasHanded(steps: seq<Step>, id: nat, reply: Reply) {
    exists j :: Handed(steps, j, id, reply)
  }

  ghost predicate WasGivenUp(steps: seq<Step>, id: nat) {
    exists j :: GaveUp(steps, j, id)
  }

  /** What request `id` has come to, as far as its own fields tell. */
  ghost predicate Settled(s: Client, id: nat)
    requires id < |s.reqs|
  {
    var r := s.reqs[id];
    && (r.err ==> r.dones >= 1 && r.reply == None)
    && (r.reply.Some? ==> r.dones >= 1 && id in s.written)
    && (r.dones >= 1 ==> r.err || r.reply.Some?)
    && (r.err ==> r.args != [])
    && (r.result == Some(RequestFailed) ==> r.err)
    && (r.result.Some? && r.result.value.Answered? ==> !r.err && r.reply == Some(r.result.value.reply))
    && (InHand(s, id) == 1 && s.hand.Written? ==> id in s.written)
  }

  /** All requests are settled, and whatever waits has been written. */
  ghost predicate AllSettled(s: Client) {
    && (forall id | 0 <= id < |s.reqs| :: Settled(s, id))
    && (forall i | 0 <= i < |s.waiting| :: s.waiting[i] in s.written)
    && (forall i | 0 <= i < |s.written| :: s.written[i] < |s.reqs| && s.reqs[s.written[i]].args != [])
  }

  lemma StepKeepsSettled(s: Client, step: Step, id: nat)
    requires Accounted(s) && AllSettled(s) && Enabled(s, step) && id < |Next(s, step).reqs|
    ensures Settled(Next(s, step), id)
  {
    hide Accounted, Enabled, Next, Settled;
    if id >= |s.reqs| {
      NewIsSettled(s, step, id);
    } else if step.Read? || step.ReadEnds? {
      DoneIsOver(s, id);
      ReaderKeepsSettled(s, step, id);
    } else {
      DoneIsOver(s, id);
      HandIsFull(s);
      WriterKeepsSettled(s, step, id);
    }
  }

  lemma NewIsSettled(s: Client, step: Step, id: nat)
    requires Accounted(s) && Enabled(s, step) && |s.reqs| <= id < |Next(s, step).reqs|
    ensures Settled(Next(s, step), id)
  {
    hide Incoming, Arrived, Print, Feed, ReplyIn, SendOn, Close, Tally;
  }

  lemma HandIsFull(s: Client)
    requires Accounted(s)
    ensures s.hand.Retrying? || s.hand.Written? ==> s.hand.id < |s.reqs| && s.reqs[s.hand.id].args != []
  {
    hide Tally;
  }

  lemma ReaderKeepsSettled(s: Client, step: Step, id: nat)
    requires Enabled(s, step) && (step.Read? || step.ReadEnds?) && id < |s.reqs|
    requires Settled(s, id)
    requires s.waiting != [] ==> s.waiting[0] in s.written && (s.reqs[id].dones >= 1 ==> s.waiting[0] != id)
    ensures Settled(Next(s, step), id)
  {
    hide Incoming, Arrived, Print, Feed, ReplyIn;
  }

  lemma WriterKeepsSettled(s: Client, step: Step, id: nat)
    requires Enabled(s, step) && !step.Read? && !step.ReadEnds? && id < |s.reqs|
    requires Settled(s, id) && (s.reqs[id].dones >= 1 ==> InHand(s, id) == 0)
    requires s.hand.Retrying? || s.hand.Written? ==> s.hand.id < |s.reqs| && s.reqs[s.hand.id].args != []
    ensures Settled(Next(s, step), id)
  {
    hide Incoming, Arrived, Print, Feed, ReplyIn, SendOn, Close, Finish;
  }

  /** A request that is done neither waits nor is in the writer's hands. */
  lemma DoneIsOver(s: Client, id: nat)
    requires Accounted(s) && id < |s.reqs|
    ensures s.reqs[id].dones >= 1 ==> InHand(s, id) == 0 && (s.waiting != [] ==> s.waiting[0] != id)
  {
    assert Tally(s, id) == 1;
    if s.waiting != [] && s.waiting[0] == id {
      InQueue(s.waiting, 0);
    }
  }

  lemma NotYetThere(s: Client, id: nat)
    requires Accounted(s) && id >= |s.reqs|
    ensures InHand(s, id) == 0 && (s.waiting != [] ==> s.waiting[0] != id)
  {
    hide Tally;
  }

  lemma StepKeepsWaitingWritten(s: Client, step: Step)
    requires Accounted(s) && AllSettled(s) && Enabled(s, step)
    ensures var t := Next(s, step); forall i | 0 <= i < |t.waiting| :: t.waiting[i] in t.written
  {
    hide Incoming, Arrived, Print, Feed, ReplyIn, SendOn, Close, Tally;
    if s.hand.Written? {
      assert Settled(s, s.hand.id);
    }
  }

  lemma StepKeepsWrittenFull(s: Client, step: Step)
    requires Accounted(s) && AllSettled(s) && Enabled(s, step)
    ensures var t := Next(s, step);
      forall i | 0 <= i < |t.written| :: t.written[i] < |t.reqs| && t.reqs[t.written[i]].args != []
  {
    hide Incoming, Arrived, Print, Feed, ReplyIn, SendOn, Close, Tally, Settled;
  }

  lemma {:induction false} RunIsSettled(steps: seq<Step>)
    requires CanRun(steps)
    ensures AllSettled(After(steps))
    decreases |steps|
  {
    hide Enabled, Next, Accounted, Settled;
    if steps != [] {
      var s, step := After(steps[..|steps| - 1]), steps[|steps| - 1];
      RunIsSettled(steps[..|steps| - 1]);
      Accounting(steps[..|steps| - 1]);
      forall id | 0 <= id < |Next(s, step).reqs| ensures Settled(Next(s, step), id) {
        StepKeepsSettled(s, step, id);
      }
      StepKeepsWaitingWritten(s, step);
      StepKeepsWrittenFull(s, step);
    }
  }

  /** What one step does to a request's reply and error. */
  lemma StepSettles(s: Client, step: Step, id: nat)
    requires Accounted(s) && Enabled(s, step) && id < |Next(s, step).reqs|
    ensures var r := Next(s, step).reqs[id];
      && (r.err <==> (id < |s.reqs| && s.reqs[id].err) || (step.GiveUp? && s.hand == Retrying(id, 3)))
      && (r.reply == (if id < |s.reqs| then s.reqs[id].reply else None)
          || (s.waiting != [] && s.waiting[0] == id
              && match step
                 case Read(c) => r.reply == Some(ReplyIn(Incoming(s.conns[c])[s.conns[c].read]))
                 case ReadEnds(_) => r.reply == Some(Error([]))
                 case _ => false))
  {
    hide Incoming, Arrived, Print, Feed, ReplyIn, SendOn, Close, Tally;
  }

  /** A longer run was handed and given up what its front was. */
  lemma HandedBefore(steps: seq<Step>, n: nat, id: nat)
    requires n <= |steps|
    ensures forall r :: WasHanded(steps[..n], id, r) ==> WasHanded(steps, id, r)
    ensures WasGivenUp(steps[..n], id) ==> WasGivenUp(steps, id)
  {
    hide CanRun, After, Incoming, ReplyIn, IsPassedOn;
    assert forall j | 0 <= j < n :: steps[..n][..j] == steps[..j] && steps[..n][j] == steps[j];
    forall r, j | Handed(steps[..n], j, id, r) ensures Handed(steps, j, id, r) {
    }
    forall j | GaveUp(steps[..n], j, id) ensures GaveUp(steps, j, id) {
    }
  }

  lemma GivenUpAtEnd(steps: seq<Step>, n: nat, id: nat)
    requires n + 1 == |steps| && CanRun(steps[..n])
    ensures WasGivenUp(steps, id) <==>
            WasGivenUp(steps[..n], id) || (steps[n].GiveUp? && After(steps[..n]).hand == Retrying(id, 3))
  {
    hide CanRun, After;
    HandedBefore(steps, n, id);
    assert forall j | 0 <= j < n :: steps[..n][..j] == steps[..j] && steps[..n][j] == steps[j];
    forall j | GaveUp(steps, j, id) && j < n ensures GaveUp(steps[..n], j, id) {
    }
    if steps[n].GiveUp? && After(steps[..n]).hand == Retrying(id, 3) {
      assert GaveUp(steps, n, id);
    }
  }

  lemma NeverGivenUp(id: nat)
    ensures !WasGivenUp([], id)
  {
  }

  lemma RequestsStay(s: Client, step: Step)
    requires Enabled(s, step)
    ensures |s.reqs| <= |Next(s, step).reqs|
  {
    hide Incoming, Arrived, Print, Feed, ReplyIn, SendOn, Close;
  }

  lemma NotInHand(steps: seq<Step>, id: nat)
    requires CanRun(steps) && id >= |After(steps).reqs|
    ensures After(steps).hand != Retrying(id, 3)
  {
    hide CanRun, After, Tally;
    Accounting(steps);
  }

  lemma NobodyThere(steps: seq<Step>, id: nat)
    requires CanRun(steps) && id >= |After(steps).reqs|
    ensures !WasGivenUp(steps, id)
    decreases |steps|
  {
    hide Enabled, Next, Incoming, ReplyIn, Print, Feed, WasGivenUp;
    if steps == [] {
      NeverGivenUp(id);
    } else {
      var n := |steps| - 1;
      var s := After(steps[..n]);
      RequestsStay(s, steps[n]);
      NotInHand(steps[..n], id);
      NobodyThere(steps[..n], id);
      GivenUpAtEnd(steps, n, id);
    }
  }

  /** Where replies and errors come from, in every run. */
  lemma {:induction false} Origins(steps: seq<Step>, id: nat)
    requires CanRun(steps) && id < |After(steps).reqs|
    ensures var r := After(steps).reqs[id];
      && (r.err <==> WasGivenUp(steps, id))
      && (r.reply.Some? ==> WasHanded(steps, id, r.reply.value))
    decreases |steps|
  {
    hide Enabled, Next, Accounted, Incoming, ReplyIn, WasHanded, WasGivenUp;
    if steps != [] {
      var n := |steps| - 1;
      var s := After(steps[..n]);
      Accounting(steps[..n]);
      StepSettles(s, steps[n], id);
      HandedBefore(steps, n, id);
      GivenUpAtEnd(steps, n, id);
      if id < |s.reqs| {
        Origins(steps[..n], id);
      } else {
        NobodyThere(steps[..n], id);
      }
      HandedAtEnd(steps, n, id);
    }
  }

  lemma PassedOn(p: Payload)
    ensures IsPassedOn(p, ReplyIn(p))
  {
  }

  lemma HandedAtEnd(steps: seq<Step>, n: nat, id: nat)
    requires n + 1 == |steps| && CanRun(steps)
    ensures var s := After(steps[..n]);
      s.waiting != [] && s.waiting[0] == id ==>
        match steps[n]
        case Read(c) => WasHanded(steps, id, ReplyIn(Incoming(s.conns[c])[s.conns[c].read]))
        case ReadEnds(_) => WasHanded(steps, id, Error([]))
        case _ => true
  {
    hide After, Incoming, ReplyIn, IsPassedOn;
    var s := After(steps[..n]);
    if s.waiting != [] && s.waiting[0] == id {
      match steps[n]
      case Read(c) =>
        PassedOn(Incoming(s.conns[c])[s.conns[c].read]);
        assert Handed(steps, n, id, ReplyIn(Incoming(s.conns[c])[s.conns[c].read]));
      case ReadEnds(_) => assert Handed(steps, n, id, Error([]));
      case _ =>
    }
  }

  /** What a `Send` can return, in every run, with any failures. It returns a reply only for a request
      that was written, and only the one a reader passed on to that request; it returns that the
      request failed only after the writer gave it up; and a request that was given up has no reply
      and returns nothing but that or a timeout. */
  lemma Outcomes(steps: seq<Step>, id: nat)
    requires CanRun(steps) && id < |After(steps).reqs|
    ensures var s := After(steps);
      var r := s.reqs[id].result;
      && (r.Some? && r.value.Answered? ==>
            id in s.written && WasHanded(steps, id, r.value.reply) && !WasGivenUp(steps, id))
      && (r == Some(RequestFailed) ==> WasGivenUp(steps, id))
      && (r == Some(TimedOut) ==> exists j :: 0 <= j < |steps| && steps[j] == TimeOut(id))
      && (WasGivenUp(steps, id) ==>
            s.reqs[id].err && s.reqs[id].reply == None
            && (r == None || r == Some(TimedOut) || r == Some(RequestFailed)))
  {
    hide CanRun, After, WasHanded, WasGivenUp;
    RunIsSettled(steps);
    Origins(steps, id);
    assert Settled(After(steps), id);
    if After(steps).reqs[id].result == Some(TimedOut) {
      TimesOut(steps, id);
    }
  }

  /** A request without arguments is dropped without a word: its `Send` can only time out. */
  lemma EmptyRequestsTimeOut(steps: seq<Step>, id: nat)
    requires CanRun(steps) && id < |After(steps).reqs| && After(steps).reqs[id].args == []
    ensures var r := After(steps).reqs[id].result; r == None || r == Some(TimedOut)
  {
    hide CanRun, After;
    RunIsSettled(steps);
    assert Settled(After(steps), id);
  }

  lemma {:induction false} TimesOut(steps: seq<Step>, id: nat)
    requires CanRun(steps) && id < |After(steps).reqs| && After(steps).reqs[id].result == Some(TimedOut)
    ensures exists j :: 0 <= j < |steps| && steps[j] == TimeOut(id)
    decreases |steps|
  {
    hide Enabled, Next;
    var n := |steps| - 1;
    var s := After(steps[..n]);
    StepTimesOut(s, steps[n], id);
    if steps[n] != TimeOut(id) {
      TimesOut(steps[..n], id);
      var j :| 0 <= j < n && steps[..n][j] == TimeOut(id);
      assert steps[j] == TimeOut(id);
    }
  }

  lemma StepTimesOut(s: Client, step: Step, id: nat)
    requires Enabled(s, step) && id < |Next(s, step).reqs| && Next(s, step).reqs[id].result == Some(TimedOut)
    ensures step == TimeOut(id) || (id < |s.reqs| && s.reqs[id].result == Some(TimedOut))
  {
    hide Incoming, Arrived, Print, Feed, ReplyIn, SendOn, Close;
  }

  /** The attempts to reconnect for a request, successful or not. */
  function Attempts(steps: seq<Step>, id: nat): nat
    requires CanRun(steps)
    decreases |steps|
  {
    if steps == [] then 0
    else
      var n := |steps| - 1;
      Attempts(steps[..n], id) + if Attempt(After(steps[..n]), steps[n], id) then 1 else 0
  }

  predicate Attempt(s: Client, step: Step, id: nat) {
    s.hand.Retrying? && s.hand.id == id && (step.Reconnect? || step.ReconnectFails? || step.ReconnectWriteFails?)
  }

  /** A request for which there were `a` attempts. */
  ghost predicate Tried(s: Client, id: nat, a: nat) {
    && a <= 3
    && (s.hand.Retrying? && s.hand.id == id ==> a == s.hand.tries)
    && ((s.hand.Holding? && s.hand.id == id) || id in s.pending || id >= |s.reqs| ==> a == 0)
    && (id < |s.reqs| && s.reqs[id].err ==> a == 3)
  }

  lemma StepKeepsTried(s: Client, step: Step, id: nat, a: nat)
    requires Accounted(s) && Enabled(s, step) && Tried(s, id, a)
    ensures Tried(Next(s, step), id, a + if Attempt(s, step, id) then 1 else 0)
  {
    hide Incoming, Arrived, Print, Feed, ReplyIn, SendOn, Close;
    if id < |s.reqs| {
      assert Tally(s, id) == 1;
      assert id in s.pending <==> multiset(s.pending)[id] >= 1;
    } else {
      NotYetThere(s, id);
      assert id !in s.pending;
    }
    hide Accounted;
    if step.New? {
      assert id in s.pending + [|s.reqs|] <==> id in s.pending || id == |s.reqs|;
    } else if step.Take? {
      assert s.pending == [s.pending[0]] + s.pending[1..];
    }
  }

  /** For no request are there more than three attempts to reconnect, and one that failed had all three. */
  lemma {:induction false} AttemptsAreThree(steps: seq<Step>, id: nat)
    requires CanRun(steps)
    ensures Tried(After(steps), id, Attempts(steps, id))
    decreases |steps|
  {
    hide Enabled, Next, Accounted, Attempt;
    if steps != [] {
      var n := |steps| - 1;
      Accounting(steps[..n]);
      AttemptsAreThree(steps[..n], id);
      StepKeepsTried(After(steps[..n]), steps[n], id, Attempts(steps[..n], id));
    }
  }

  /** Neither queue ever holds more than 256 requests. */
  lemma {:induction false} QueuesAreBounded(steps: seq<Step>)
    requires CanRun(steps)
    ensures |After(steps).pending| <= 256 && |After(steps).waiting| <= 256
    decreases |steps|
  {
    if steps != [] {
      var n := |steps| - 1;
      QueuesAreBounded(steps[..n]);
      QueuesStayBounded(After(steps[..n]), steps[n]);
      hide Enabled, Next;
    }
  }

  lemma QueuesStayBounded(s: Client, step: Step)
    requires Enabled(s, step) && |s.pending| <= 256 && |s.waiting| <= 256
    ensures |Next(s, step).pending| <= 256 && |Next(s, step).waiting| <= 256
  {
    hide Incoming, Arrived, Print, Feed, ReplyIn, SendOn, Close;
  }

  /** Steps other than a connection's failure. */
  predicate FailureFree(step: Step) {
    match step
    case New(_, _) => true
    case Take => true
    case Drop => true
    case Write => true
    case Enqueue => true
    case ServerAnswers(_, _) => true
    case Read(_) => true
    case Return(_) => true
    case TimeOut(_) => true
    case _ => false
  }

  /** Such steps, with requests the server can read and replies the client can. */
  predicate Smooth(step: Step) {
    && FailureFree(step)
    && (step.New? ==> step.args == [] || WireSafe(step.args))
    && (step.ServerAnswers? ==> Travels(step.reply))
  }

  predicate AllSmooth(steps: seq<Step>) {
    forall i | 0 <= i < |steps| :: Smooth(steps[i])
  }

  /** The requests written so far that have not had their reply passed on, oldest first. */
  function Outstanding(s: Client): seq<nat> {
    s.waiting + if s.hand.Written? then [s.hand.id] else []
  }

  /** The commands of some requests. */
  function ArgsOf(reqs: seq<Req>, ids: seq<nat>): seq<CmdLine>
    requires forall i | 0 <= i < |ids| :: ids[i] < |reqs|
  {
    seq(|ids|, i requires 0 <= i < |ids| => reqs[ids[i]].args)
  }

  predicate Distinct(ids: seq<nat>) {
    forall i, j | 0 <= i < j < |ids| :: ids[i] != ids[j]
  }

  /** The one connection and the queues, as they are as long as nothing fails. */
  ghost predicate Aligned(s: Client) {
    && |s.conns| == 1 && !s.hand.Retrying?
    && (forall id | 0 <= id < |s.reqs| :: s.reqs[id].args == [] || WireSafe(s.reqs[id].args))
    && (forall i | 0 <= i < |s.written| :: s.written[i] < |s.reqs| && s.reqs[s.written[i]].args != [])
    && Distinct(s.written)
    && var c := s.conns[0];
    && c.out == PrintAll(ArgsOf(s.reqs, s.written))
    && c.read <= |c.replies| <= |s.written|
    && (forall k | 0 <= k < |c.replies| :: Travels(c.replies[k]))
    && s.written[c.read..] == Outstanding(s)
  }

  /** The k-th reply went to the k-th request written, and to nobody else. */
  ghost predicate Matched(s: Client)
    requires Aligned(s)
  {
    var c := s.conns[0];
    && (forall k | 0 <= k < c.read ::
          s.reqs[s.written[k]].dones == 1 && s.reqs[s.written[k]].reply == Some(Received(c.replies[k])))
    && (forall id | 0 <= id < |s.reqs| && s.reqs[id].dones == 0 :: s.reqs[id].reply == None)
    && (forall id | 0 <= id < |s.reqs| && s.reqs[id].dones != 0 :: exists k :: 0 <= k < c.read && s.written[k] == id)
    && (forall id | 0 <= id < |s.reqs| :: !s.reqs[id].err && s.reqs[id].result != Some(RequestFailed))
    && (forall id | 0 <= id < |s.reqs| && s.reqs[id].result.Some? && s.reqs[id].result.value.Answered? ::
          s.reqs[id].dones == 1 && s.reqs[id].reply == Some(s.reqs[id].result.value.reply))
  }

  /** The server reads the written commands one for one, and the client the replies. */
  lemma StreamsAreRead(s: Client)
    requires Aligned(s)
    ensures Arrived(s.conns[0]) == Sent(ArgsOf(s.reqs, s.written))
    ensures Incoming(s.conns[0]) == ReceivedAll(s.conns[0].replies)
  {
    hide Feed, PrintAll, WireSafe, Travels;
    WholeStream(ArgsOf(s.reqs, s.written));
    RepliesTravelExactly(s.conns[0].replies);
  }

  lemma InQueue(q: seq<nat>, i: nat)
    requires i < |q|
    ensures multiset(q)[q[i]] >= 1
  {
    assert q[i] in multiset(q);
  }

  /** What the writer holds has not been written yet. */
  lemma HeldIsNew(s: Client)
    requires InStep(s) && s.hand.Holding?
    ensures forall i | 0 <= i < |s.written| :: s.written[i] != s.hand.id
  {
    hide ArgsOf, PrintAll, WireSafe, Travels, Received;
    var read := s.conns[0].read;
    assert Tally(s, s.hand.id) == 1;
    forall i | 0 <= i < |s.written| ensures s.written[i] != s.hand.id {
      if i >= read {
        assert s.written[i] == s.written[read..][i - read] == s.waiting[i - read];
        InQueue(s.waiting, i - read);
      }
    }
  }

  /** The head of the waiting queue is the oldest request without a reply. */
  lemma HeadIsNext(s: Client)
    requires InStep(s) && s.waiting != []
    ensures s.conns[0].read < |s.written| && s.written[s.conns[0].read] == s.waiting[0]
    ensures s.reqs[s.waiting[0]].dones == 0
  {
    hide ArgsOf, PrintAll, WireSafe, Travels, Received;
    assert s.written[s.conns[0].read] == s.written[s.conns[0].read..][0];
    InQueue(s.waiting, 0);
    assert Tally(s, s.waiting[0]) == 1;
  }

  lemma ArgsOfSnoc(reqs: seq<Req>, ids: seq<nat>, id: nat)
    requires id < |reqs| && forall i | 0 <= i < |ids| :: ids[i] < |reqs|
    ensures PrintAll(ArgsOf(reqs, ids + [id])) == PrintAll(ArgsOf(reqs, ids)) + Print(reqs[id].args)
  {
    hide Print;
    assert ArgsOf(reqs, ids + [id]) == ArgsOf(reqs, ids) + [reqs[id].args];
    PrintAllConcat(ArgsOf(reqs, ids), [reqs[id].args]);
    assert [reqs[id].args][1..] == [];
  }

  ghost predicate InStep(s: Client) {
    Accounted(s) && Aligned(s) && Matched(s)
  }

  lemma NewStaysInStep(s: Client, args: CmdLine, heartbeat: bool)
    requires InStep(s) && (args == [] || WireSafe(args)) && Enabled(s, New(args, heartbeat))
    ensures Aligned(Next(s, New(args, heartbeat))) && Matched(Next(s, New(args, heartbeat)))
  {
    hide PrintAll, WireSafe, Travels, Tally, Received, Incoming, Arrived;
    var t := Next(s, New(args, heartbeat));
    assert ArgsOf(t.reqs, t.written) == ArgsOf(s.reqs, s.written);
  }

  lemma WriteStaysInStep(s: Client)
    requires InStep(s) && Enabled(s, Write)
    ensures Aligned(Next(s, Write)) && Matched(Next(s, Write))
  {
    hide PrintAll, Print, WireSafe, Travels, Tally, Received, Incoming, Arrived;
    var t := Next(s, Write);
    HeldIsNew(s);
    ArgsOfSnoc(s.reqs, s.written, s.hand.id);
    assert t.written[t.conns[0].read..] == s.written[s.conns[0].read..] + [s.hand.id];
  }

  lemma AnswerStaysInStep(s: Client, c: nat, reply: Reply)
    requires InStep(s) && Travels(reply) && Enabled(s, ServerAnswers(c, reply))
    ensures Aligned(Next(s, ServerAnswers(c, reply))) && Matched(Next(s, ServerAnswers(c, reply)))
  {
    hide PrintAll, WireSafe, Travels, Tally, Received, Incoming, Arrived, Accounted;
    StreamsAreRead(s);
    var t := Next(s, ServerAnswers(c, reply));
    assert ArgsOf(t.reqs, t.written) == ArgsOf(s.reqs, s.written);
  }

  lemma ReadStaysInStep(s: Client, c: nat)
    requires InStep(s) && Enabled(s, Read(c))
    ensures Aligned(Next(s, Read(c))) && Matched(Next(s, Read(c)))
  {
    hide Aligned, Matched, Enabled, Next, InStep;
    ReadStaysAligned(s, c);
    ReadStaysMatched(s, c);
  }

  lemma ReadStaysAligned(s: Client, c: nat)
    requires InStep(s) && Enabled(s, Read(c))
    ensures Aligned(Next(s, Read(c)))
  {
    hide PrintAll, WireSafe, Travels, Tally, Received, Incoming, Arrived, Accounted, Matched, ReplyIn;
    StreamsAreRead(s);
    HeadIsNext(s);
    var t, read := Next(s, Read(c)), s.conns[0].read;
    assert ArgsOf(t.reqs, t.written) == ArgsOf(s.reqs, s.written);
    assert s.written[read..][1..] == s.written[read + 1..];
  }

  lemma ReadStaysMatched(s: Client, c: nat)
    requires InStep(s) && Enabled(s, Read(c)) && Aligned(Next(s, Read(c)))
    ensures Matched(Next(s, Read(c)))
  {
    hide PrintAll, WireSafe, Travels, Tally, Received, Incoming, Arrived, Accounted, ArgsOf, Outstanding, SendOn, Close;
    StreamsAreRead(s);
    HeadIsNext(s);
    var t, read, id := Next(s, Read(c)), s.conns[0].read, s.waiting[0];
    assert t.reqs[id].reply == Some(Received(s.conns[0].replies[read]));
    forall k | 0 <= k < read ensures s.written[k] != id {
      assert s.written[k] != s.written[read];
    }
    assert t.written[read] == id;
  }

  lemma QueueStaysInStep(s: Client, step: Step)
    requires InStep(s) && Enabled(s, step) && (step.Take? || step.Drop? || step.Enqueue?)
    ensures Aligned(Next(s, step)) && Matched(Next(s, step))
  {
    hide PrintAll, WireSafe, Travels, Tally, Received, Incoming, Arrived, Accounted, ArgsOf;
  }

  /** A result changes nothing else about a request. */
  lemma ResultStaysInStep(s: Client, id: nat, result: Result)
    requires InStep(s) && id < |s.reqs| && result != RequestFailed
    requires result.Answered? ==> s.reqs[id].dones == 1 && s.reqs[id].reply == Some(result.reply)
    ensures var t := s.(reqs := s.reqs[id := s.reqs[id].(result := Some(result))]); Aligned(t) && Matched(t)
  {
    hide PrintAll, WireSafe, Travels, Received, Accounted;
    var t := s.(reqs := s.reqs[id := s.reqs[id].(result := Some(result))]);
    assert ArgsOf(t.reqs, t.written) == ArgsOf(s.reqs, s.written);
  }

  lemma ReturnStaysInStep(s: Client, id: nat)
    requires InStep(s) && Enabled(s, Return(id))
    ensures Aligned(Next(s, Return(id))) && Matched(Next(s, Return(id)))
  {
    hide Aligned;
    DoneOnce(s);
    var r := s.reqs[id];
    ResultStaysInStep(s, id, Answered(r.reply.value));
  }

  lemma TimeOutStaysInStep(s: Client, id: nat)
    requires InStep(s) && Enabled(s, TimeOut(id))
    ensures Aligned(Next(s, TimeOut(id))) && Matched(Next(s, TimeOut(id)))
  {
    hide Aligned, Matched;
    ResultStaysInStep(s, id, TimedOut);
  }

  lemma DoneOnce(s: Client)
    requires Accounted(s)
    ensures forall id | 0 <= id < |s.reqs| :: s.reqs[id].dones <= 1
  {
    forall id | 0 <= id < |s.reqs| ensures s.reqs[id].dones <= 1 {
      assert Tally(s, id) == 1;
    }
  }

  lemma {:induction false} SmoothRunIsInStep(steps: seq<Step>)
    requires CanRun(steps) && AllSmooth(steps)
    ensures InStep(After(steps))
    decreases |steps|
  {
    hide Enabled, Next, Aligned, Matched, Accounted, Smooth;
    Accounting(steps);
    if steps == [] {
      StartIsInStep();
    } else {
      var front, step := steps[..|steps| - 1], steps[|steps| - 1];
      SmoothRunIsInStep(front);
      assert Smooth(step);
      StepStaysInStep(After(front), step);
    }
  }

  lemma StartIsInStep()
    ensures InStep(INIT)
  {
    assert ArgsOf(INIT.reqs, INIT.written) == [];
  }

  lemma StepStaysInStep(s: Client, step: Step)
    requires InStep(s) && Enabled(s, step) && Smooth(step)
    ensures Aligned(Next(s, step)) && Matched(Next(s, step))
  {
    hide Enabled, Next, Aligned, Matched, Accounted, InStep;
    match step
    case New(args, heartbeat) => NewStaysInStep(s, args, heartbeat);
    case Write => WriteStaysInStep(s);
    case ServerAnswers(c, reply) => AnswerStaysInStep(s, c, reply);
    case Read(c) => ReadStaysInStep(s, c);
    case Take => QueueStaysInStep(s, step);
    case Drop => QueueStaysInStep(s, step);
    case Enqueue => QueueStaysInStep(s, step);
    case Return(id) => ReturnStaysInStep(s, id);
    case TimeOut(id) => TimeOutStaysInStep(s, id);
  }

  /** Request `id` was the k-th written, the server read its command as the k-th on the connection,
      and `reply` is what the server's k-th reply is received as. */
  ghost predicate IsAnswerTo(s: Client, id: nat, reply: Reply, k: nat) {
    && s.conns != [] && id < |s.reqs| && k < |s.written| && k < |s.conns[0].replies| && k < |Arrived(s.conns[0])|
    && s.written[k] == id
    && Arrived(s.conns[0])[k] == Data(MultiBulk(s.reqs[id].args))
    && reply == Received(s.conns[0].replies[k])
  }

  /** Reply matching: in every interleaving without connection errors, when the requests are wire-safe
      and the server's replies travel, whatever a `Send` returns, other than a timeout, is the server's
      reply to that very request: also after earlier requests timed out, and with heartbeats in
      between. */
  lemma ReplyMatching(steps: seq<Step>, id: nat)
    requires CanRun(steps) && AllSmooth(steps) && id < |After(steps).reqs|
    ensures var r := After(steps).reqs[id].result;
      && r != Some(RequestFailed)
      && (r.Some? && r.value.Answered? ==> exists k: nat :: IsAnswerTo(After(steps), id, r.value.reply, k))
  {
    SmoothRunIsInStep(steps);
    hide CanRun, After, AllSmooth, Feed, Tally, PrintAll, WireSafe, Received;
    var s := After(steps);
    StreamsAreRead(s);
    var r := s.reqs[id].result;
    if r.Some? && r.value.Answered? {
      var k :| 0 <= k < s.conns[0].read && s.written[k] == id;
      assert IsAnswerTo(s, id, r.value.reply, k);
    }
  }

  /** One step of a run, between named states. */
  ghost predicate Goes(s: Client, step: Step, t: Client) {
    Enabled(s, step) && Next(s, step) == t
  }

  ghost predicate Reached(steps: seq<Step>, s: Client) {
    CanRun(steps) && After(steps) == s
  }

  lemma OneMoreStep(steps: seq<Step>, s: Client, step: Step, t: Client) returns (longer: seq<Step>)
    requires Reached(steps, s) && Goes(s, step, t)
    ensures Reached(longer, t) && longer == steps + [step]
  {
    hide Enabled, Next, Feed, Print, Incoming, Arrived;
    longer := steps + [step];
    var n := |longer| - 1;
    assert longer[..n] == steps && longer[n] == step;
    assert CanRun(longer);
    assert After(longer) == t;
  }

  function Fresh(args: CmdLine): Req {
    Req(args, false, None, false, 0, None)
  }

  /** The writer has just written request 0 on a second connection, the first one being lost. */
  function Rewritten(a: CmdLine): Client {
    Client([Fresh(a)], [], Written(0), [], {}, [Conn([], [], 0, true, false), Conn(Print(a), [], 0, false, false)], [0])
  }

  /** The writer has just taken request 0. */
  function Taken(a: CmdLine): Client {
    Client([Fresh(a)], [], Holding(0), [], {}, [Conn([], [], 0, false, false)], [])
  }

  lemma TakesFirst(a: CmdLine) returns (steps: seq<Step>)
    ensures Reached(steps, Taken(a))
  {
    hide Print, Feed, Reached;
    var s1 := Taken(a).(pending := [0], hand := Idle);
    assert Goes(INIT, New(a, false), s1);
    assert Goes(s1, Take, Taken(a));
    hide Goes;
    Start();
    steps := OneMoreStep([], INIT, New(a, false), s1);
    steps := OneMoreStep(steps, s1, Take, Taken(a));
  }

  /** The writer has given request 0 up. */
  function Abandoned(a: CmdLine): Client {
    Taken(a).(hand := Idle, reqs := [Fresh(a).(err := true, dones := 1)])
  }

  /** Such failures are reached: when the first write and every attempt to reconnect fail, whatever the
      command, there is a run in which its `Send` returns that the request failed. */
  lemma FailedSend(a: CmdLine) returns (steps: seq<Step>)
    requires a != []
    ensures Reached(steps, Abandoned(a).(reqs := [Fresh(a).(err := true, dones := 1, result := Some(RequestFailed))]))
  {
    hide Print, Feed, Reached;
    var s0, s5 := Taken(a), Abandoned(a);
    var s1, s2 := s0.(hand := Retrying(0, 0)), s0.(hand := Retrying(0, 1));
    var s3, s4 := s0.(hand := Retrying(0, 2)), s0.(hand := Retrying(0, 3));
    var last := s5.(reqs := [s5.reqs[0].(result := Some(RequestFailed))]);
    assert s0.conns[0].out + [] == s0.conns[0].out;
    assert Goes(s0, WriteFails([]), s1);
    assert Goes(s1, ReconnectFails(false), s2) && Goes(s2, ReconnectFails(false), s3);
    assert Goes(s3, ReconnectFails(false), s4);
    assert Goes(s4, GiveUp, s5);
    assert Goes(s5, Return(0), last);
    hide Goes;
    steps := TakesFirst(a);
    steps := OneMoreStep(steps, s0, WriteFails([]), s1);
    steps := OneMoreStep(steps, s1, ReconnectFails(false), s2);
    steps := OneMoreStep(steps, s2, ReconnectFails(false), s3);
    steps := OneMoreStep(steps, s3, ReconnectFails(false), s4);
    steps := OneMoreStep(steps, s4, GiveUp, s5);
    steps := OneMoreStep(steps, s5, Return(0), last);
  }

  lemma LosesConnection(a: CmdLine) returns (steps: seq<Step>)
    requires a != []
    ensures Reached(steps, Rewritten(a))
  {
    hide Print, Feed, Reached;
    var s2 := Taken(a);
    var s3 := s2.(hand := Retrying(0, 0));
    assert s2.conns[0].out + [] == s2.conns[0].out;
    assert Goes(s2, WriteFails([]), s3);
    assert Goes(s3, Reconnect, Rewritten(a));
    hide Goes;
    steps := TakesFirst(a);
    steps := OneMoreStep(steps, s2, WriteFails([]), s3);
    steps := OneMoreStep(steps, s3, Reconnect, Rewritten(a));
  }

  lemma Start()
    ensures Reached([], INIT)
  {
  }

  /** The first connection's reader has passed its I/O error on to request 0, and the server has
      answered the command on the second one. */
  function Stolen(a: CmdLine, reply: Reply): Client {
    Client([Req(a, false, Some(Error([])), false, 1, None)], [], Idle, [], {},
           [Conn([], [], 0, true, true), Conn(Print(a), [reply], 0, false, false)], [0])
  }

  lemma ErrorTakesTheRequest(a: CmdLine, reply: Reply) returns (steps: seq<Step>)
    requires WireSafe(a)
    ensures Reached(steps, Stolen(a, reply))
  {
    hide Print, Feed, Reached;
    var s0 := Rewritten(a);
    var s1 := s0.(hand := Idle, waiting := [0]);
    var s2 := Stolen(a, reply).(conns := [Conn([], [], 0, true, true), Conn(Print(a), [], 0, false, false)]);
    OneArrives(a);
    assert [] + [reply] == [reply];
    assert Goes(s0, Enqueue, s1);
    assert Goes(s1, ReadEnds(0), s2);
    assert Goes(s2, ServerAnswers(1, reply), Stolen(a, reply));
    hide Goes;
    steps := LosesConnection(a);
    steps := OneMoreStep(steps, s0, Enqueue, s1);
    steps := OneMoreStep(steps, s1, ReadEnds(0), s2);
    steps := OneMoreStep(steps, s2, ServerAnswers(1, reply), Stolen(a, reply));
  }

  lemma OneArrives(a: CmdLine)
    requires WireSafe(a)
    ensures Feed(REST, Print(a)).out == [Data(MultiBulk(a))]
  {
    hide Print, Feed;
    WholeStream([a]);
    OnePrinted(a);
  }

  /** The final state: two requests, and the second one's `Send` has returned the reply to the first. */
  function Mismatched(a: CmdLine, b: CmdLine, reply: Reply): Client {
    Client([Stolen(a, reply).reqs[0],
            Req(b, false, Some(Received(reply)), false, 1, Some(Answered(Received(reply))))],
           [], Idle, [], {},
           [Conn([], [], 0, true, true), Conn(Print(a) + Print(b), [reply], 1, false, false)], [0, 1])
  }

  /** Request 1 is written on the second connection too, and waits. */
  function BothWritten(a: CmdLine, b: CmdLine, reply: Reply): Client {
    Client([Stolen(a, reply).reqs[0], Fresh(b)], [], Idle, [1], {},
           [Conn([], [], 0, true, true), Conn(Print(a) + Print(b), [reply], 0, false, false)], [0, 1])
  }

  lemma WritesSecond(a: CmdLine, b: CmdLine, reply: Reply) returns (steps: seq<Step>)
    requires WireSafe(a) && b != []
    ensures Reached(steps, BothWritten(a, b, reply))
  {
    hide Print, Feed, Reached, Incoming, Arrived;
    var s0, s4 := Stolen(a, reply), BothWritten(a, b, reply);
    var s1 := s0.(reqs := s4.reqs, pending := [1]);
    var s2 := s1.(pending := [], hand := Holding(1));
    var s3 := s4.(hand := Written(1), waiting := []);
    assert Goes(s0, New(b, false), s1);
    assert Goes(s1, Take, s2);
    assert Goes(s2, Write, s3);
    assert Goes(s3, Enqueue, s4);
    hide Goes;
    steps := ErrorTakesTheRequest(a, reply);
    steps := OneMoreStep(steps, s0, New(b, false), s1);
    steps := OneMoreStep(steps, s1, Take, s2);
    steps := OneMoreStep(steps, s2, Write, s3);
    steps := OneMoreStep(steps, s3, Enqueue, s4);
  }

  /** Matching does not survive a reconnect: after one failed write, whatever the commands `a` and `b`
      and the server's reply to `a`, there is a run in which the `Send` of `b` returns that reply. */
  lemma ReconnectMismatch(a: CmdLine, b: CmdLine, reply: Reply) returns (steps: seq<Step>)
    requires WireSafe(a) && WireSafe(b) && Travels(reply)
    ensures Reached(steps, Mismatched(a, b, reply))
    ensures Feed(REST, Print(a)).out == [Data(MultiBulk(a))]
  {
    hide Print, Feed, Received, Travels, Reached, Incoming, Arrived;
    OneArrives(a);
    var s4, s5, last := BothWritten(a, b, reply), BeforeReturn(a, b, reply), Mismatched(a, b, reply);
    assert Goes(s5, Return(1), last);
    hide Goes, BeforeReturn, Mismatched;
    ReadsStolen(a, b, reply);
    steps := WritesSecond(a, b, reply);
    hide BothWritten, WireSafe;
    steps := OneMoreStep(steps, s4, Read(1), s5);
    steps := OneMoreStep(steps, s5, Return(1), last);
  }

  function BeforeReturn(a: CmdLine, b: CmdLine, reply: Reply): Client {
    var t := Mismatched(a, b, reply);
    t.(reqs := [t.reqs[0], t.reqs[1].(result := None)])
  }

  lemma ReadsStolen(a: CmdLine, b: CmdLine, reply: Reply)
    requires Travels(reply)
    ensures Goes(BothWritten(a, b, reply), Read(1), BeforeReturn(a, b, reply))
  {
    hide Print, Feed, Received, Travels;
    var s := BothWritten(a, b, reply);
    RepliesTravelExactly([reply]);
    assert Incoming(s.conns[1]) == [Data(Received(reply))];
    hide Incoming;
  }

  /** A run in which no connection fails. */
  ghost predicate ReachedQuietly(steps: seq<Step>, s: Client) {
    Reached(steps, s) && forall i | 0 <= i < |steps| :: FailureFree(steps[i])
  }

  lemma OneMoreQuietStep(steps: seq<Step>, s: Client, step: Step, t: Client) returns (longer: seq<Step>)
    requires ReachedQuietly(steps, s) && Goes(s, step, t) && FailureFree(step)
    ensures ReachedQuietly(longer, t)
  {
    hide Reached, Goes, FailureFree;
    longer := OneMoreStep(steps, s, step, t);
  }

  function Ids(n: nat): (ids: seq<nat>)
    ensures |ids| == n
  {
    seq(n, i => i)
  }

  function AllFresh(cmds: seq<CmdLine>): (reqs: seq<Req>)
    ensures |reqs| == |cmds|
  {
    seq(|cmds|, i requires 0 <= i < |cmds| => Fresh(cmds[i]))
  }

  /** All the commands are written on the one connection, and wait; the server has sent `replies`. */
  function AllWritten(cmds: seq<CmdLine>, replies: seq<Reply>): Client {
    var ids := Ids(|cmds|);
    Client(AllFresh(cmds), [], Idle, ids, {}, [Conn(PrintAll(cmds), replies, 0, false, false)], ids)
  }

  lemma {:induction false} WritesAll(cmds: seq<CmdLine>) returns (steps: seq<Step>)
    requires |cmds| <= CHAN_SIZE && forall i | 0 <= i < |cmds| :: cmds[i] != []
    ensures ReachedQuietly(steps, AllWritten(cmds, []))
    decreases |cmds|
  {
    hide Print, Feed, Reached, ReachedQuietly;
    if cmds == [] {
      StartsQuietly();
      steps := [];
    } else {
      var n := |cmds| - 1;
      steps := WritesAll(cmds[..n]);
      assert cmds == cmds[..n] + [cmds[n]];
      steps := WritesOneMore(cmds[..n], cmds[n], steps);
    }
  }

  lemma StartsQuietly()
    ensures ReachedQuietly([], AllWritten([], []))
  {
    assert AllWritten([], []) == INIT;
  }

  /** One more request has been taken from the queue. */
  function OneTaken(cmds: seq<CmdLine>, cmd: CmdLine): Client {
    AllWritten(cmds, []).(reqs := AllFresh(cmds + [cmd]), hand := Holding(|cmds|))
  }

  lemma TakesOneMore(cmds: seq<CmdLine>, cmd: CmdLine, steps: seq<Step>) returns (longer: seq<Step>)
    requires ReachedQuietly(steps, AllWritten(cmds, []))
    ensures ReachedQuietly(longer, OneTaken(cmds, cmd))
  {
    hide PrintAll, ReachedQuietly, Incoming, Arrived;
    var s0, s2 := AllWritten(cmds, []), OneTaken(cmds, cmd);
    assert s2.reqs == s0.reqs + [Fresh(cmd)];
    var s1 := s2.(pending := [|cmds|], hand := Idle);
    assert Goes(s0, New(cmd, false), s1);
    assert Goes(s1, Take, s2);
    hide Goes;
    longer := OneMoreQuietStep(steps, s0, New(cmd, false), s1);
    longer := OneMoreQuietStep(longer, s1, Take, s2);
  }

  lemma WritesOneMore(cmds: seq<CmdLine>, cmd: CmdLine, steps: seq<Step>) returns (longer: seq<Step>)
    requires |cmds| < CHAN_SIZE && cmd != [] && ReachedQuietly(steps, AllWritten(cmds, []))
    ensures ReachedQuietly(longer, AllWritten(cmds + [cmd], []))
  {
    hide Print, PrintAll, ReachedQuietly, Incoming, Arrived;
    var n, s2, s4 := |cmds|, OneTaken(cmds, cmd), AllWritten(cmds + [cmd], []);
    assert s4.written == s2.written + [n];
    PrintAllConcat(cmds, [cmd]);
    OnePrinted(cmd);
    var s3 := s4.(hand := Written(n), waiting := s2.waiting);
    assert Goes(s2, Write, s3);
    assert Goes(s3, Enqueue, s4);
    hide Goes;
    longer := TakesOneMore(cmds, cmd, steps);
    longer := OneMoreQuietStep(longer, s2, Write, s3);
    longer := OneMoreQuietStep(longer, s3, Enqueue, s4);
  }

  lemma OnePrinted(cmd: CmdLine)
    ensures PrintAll([cmd]) == Print(cmd)
  {
    hide Print;
    assert [cmd][1..] == [];
  }

  lemma {:induction false} AnswersAll(cmds: seq<CmdLine>, replies: seq<Reply>) returns (steps: seq<Step>)
    requires |replies| <= |cmds| <= CHAN_SIZE && forall i | 0 <= i < |cmds| :: WireSafe(cmds[i])
    ensures ReachedQuietly(steps, AllWritten(cmds, replies))
    decreases |replies|
  {
    hide Print, PrintAll, Feed, Reached, ReachedQuietly, Incoming;
    if replies == [] {
      steps := WritesAll(cmds);
    } else {
      var n := |replies| - 1;
      var s, t := AllWritten(cmds, replies[..n]), AllWritten(cmds, replies);
      steps := AnswersAll(cmds, replies[..n]);
      WholeStream(cmds);
      assert replies == replies[..n] + [replies[n]];
      assert Goes(s, ServerAnswers(0, replies[n]), t);
      hide Goes;
      steps := OneMoreQuietStep(steps, s, ServerAnswers(0, replies[n]), t);
    }
  }

  const SWALLOWED: Bytes := [DOLLAR, MINUS, 49, PLUS, 79, 75]   // $-1+OK

  lemma SwallowedLine()
    ensures ToBytes(Bulk([])) + ToBytes(Ok) == SWALLOWED + CRLF
    ensures LF !in SWALLOWED && ParseInt(SWALLOWED[1..]) == None
  {
    assert Ascii("OK") == [79, 75];
    hide Ascii;
    var digits := SWALLOWED[1..][1..];
    assert digits == [49, PLUS, 79, 75] && !IsDigit(digits[1]);
  }

  /** `$-1` and the status line after it are read as one malformed line. */
  lemma EmptyBulkSwallowsStatus(reply: Reply)
    requires Travels(reply)
    ensures Feed(REST, PrintReplies([Bulk([]), Ok, reply])).out
            == [Malformed(Protocol(SWALLOWED + CRLF)), Data(Received(reply))]
  {
    hide Feed, Travels, Received, ToBytes, ParseInt, PrintReplies;
    ThreePrinted(Bulk([]), Ok, reply);
    SwallowedLine();
    Assoc(ToBytes(Bulk([])), ToBytes(Ok), ToBytes(reply));
    LineFeed(REST, SWALLOWED, ToBytes(reply));
    assert (SWALLOWED + CRLF)[..|SWALLOWED|] == SWALLOWED;
    ReplyTravels(reply, []);
    NothingReceived();
    assert ToBytes(reply) + [] == ToBytes(reply);
  }

  lemma ThreePrinted(q: Reply, r: Reply, s: Reply)
    ensures PrintReplies([q, r, s]) == ToBytes(q) + (ToBytes(r) + ToBytes(s))
  {
    hide ToBytes;
    assert [s][1..] == [];
    assert PrintReplies([s]) == ToBytes(s);
    assert [r, s][1..] == [s];
    assert PrintReplies([r, s]) == ToBytes(r) + ToBytes(s);
    assert [q, r, s][1..] == [r, s];
  }

  /** Three requests, of which the second has been given the reply to the third. */
  function Slipped(a: CmdLine, b: CmdLine, c: CmdLine, reply: Reply): Client {
    Client([Fresh(a).(reply := Some(Error([])), dones := 1),
            Req(b, false, Some(Received(reply)), false, 1, Some(Answered(Received(reply)))), Fresh(c)],
           [], Idle, [2], {},
           [Conn(PrintAll([a, b, c]), [Bulk([]), Ok, reply], 2, false, false)], [0, 1, 2])
  }

  /** The same, with the reply at hand, and one reader's step before. */
  function Slipping(a: CmdLine, b: CmdLine, c: CmdLine, reply: Reply, read: nat): Client {
    var s := Slipped(a, b, c, reply);
    Client([s.reqs[0], if read == 1 then Fresh(b) else s.reqs[1].(result := None), Fresh(c)],
           [], Idle, if read == 1 then [1, 2] else [2], {}, [s.conns[0].(read := read)], s.written)
  }

  lemma ReadsTwice(a: CmdLine, b: CmdLine, c: CmdLine, reply: Reply)
    requires Travels(reply)
    ensures Goes(AllWritten([a, b, c], [Bulk([]), Ok, reply]), Read(0), Slipping(a, b, c, reply, 1))
    ensures Goes(Slipping(a, b, c, reply, 1), Read(0), Slipping(a, b, c, reply, 2))
  {
    hide PrintAll, Feed, Received, Travels, PrintReplies;
    EmptyBulkSwallowsStatus(reply);
    var s0, s1 := AllWritten([a, b, c], [Bulk([]), Ok, reply]), Slipping(a, b, c, reply, 1);
    assert s0.waiting == [0, 1, 2] && s0.reqs == [Fresh(a), Fresh(b), Fresh(c)];
    var payloads := Incoming(s0.conns[0]);
    assert payloads == Incoming(s1.conns[0]) == [Malformed(Protocol(SWALLOWED + CRLF)), Data(Received(reply))];
    hide Incoming;
  }

  /** Nor does matching survive a reply that does not travel, with no connection failing at all. When
      the server answers three requests with an empty bulk, OK and any reply that travels, there is a
      run in which the `Send` of the second returns the reply to the third. */
  lemma EmptyBulkMismatch(a: CmdLine, b: CmdLine, c: CmdLine, reply: Reply) returns (steps: seq<Step>)
    requires WireSafe(a) && WireSafe(b) && WireSafe(c) && Travels(reply)
    ensures ReachedQuietly(steps, Slipped(a, b, c, reply))
  {
    hide PrintAll, Feed, Received, Travels, ReachedQuietly, Incoming, Arrived;
    var cmds, replies := [a, b, c], [Bulk([]), Ok, reply];
    var s2, s3 := Slipping(a, b, c, reply, 2), Slipped(a, b, c, reply);
    assert Goes(s2, Return(1), s3);
    hide Goes, WireSafe;
    ReadsTwice(a, b, c, reply);
    steps := AnswersAll(cmds, replies);
    hide AllWritten, Slipping, Slipped;
    steps := OneMoreQuietStep(steps, AllWritten(cmds, replies), Read(0), Slipping(a, b, c, reply, 1));
    steps := OneMoreQuietStep(steps, Slipping(a, b, c, reply, 1), Read(0), s2);
    steps := OneMoreQuietStep(steps, s2, Return(1), s3);
  }

  /** Two requests are answered, the first one too late: its `Send` has timed out, and the second one's has
      returned its own reply. */
  function Late(a: CmdLine, b: CmdLine, q: Reply, r: Reply, read: nat): Client
    requires read <= 2
  {
    var late := Req(a, false, if read >= 1 then Some(Received(q)) else None, false, if read >= 1 then 1 else 0,
                    Some(TimedOut));
    var own := Req(b, false, if read == 2 then Some(Received(r)) else None, false, if read == 2 then 1 else 0, None);
    Client([late, own], [], Idle, [0, 1][read..], {}, [Conn(PrintAll([a, b]), [q, r], read, false, false)], [0, 1])
  }

  lemma ReadsLate(a: CmdLine, b: CmdLine, q: Reply, r: Reply)
    requires Travels(q) && Travels(r)
    ensures Goes(AllWritten([a, b], [q, r]), TimeOut(0), Late(a, b, q, r, 0))
    ensures Goes(Late(a, b, q, r, 0), Read(0), Late(a, b, q, r, 1))
    ensures Goes(Late(a, b, q, r, 1), Read(0), Late(a, b, q, r, 2))
  {
    hide PrintAll, Feed, Received, Travels, PrintReplies, Arrived;
    RepliesTravelExactly([q, r]);
    var s := AllWritten([a, b], [q, r]);
    assert s.waiting == [0, 1] && s.reqs == [Fresh(a), Fresh(b)];
    assert Incoming(Late(a, b, q, r, 0).conns[0]) == Incoming(Late(a, b, q, r, 1).conns[0]) == ReceivedAll([q, r]);
    hide Incoming;
  }

  /** A reply that comes after the timeout goes to the request that timed out, and not to the next one. */
  lemma LateReply(a: CmdLine, b: CmdLine, q: Reply, r: Reply) returns (steps: seq<Step>)
    requires WireSafe(a) && WireSafe(b) && Travels(q) && Travels(r)
    ensures var s := Late(a, b, q, r, 2);
      ReachedQuietly(steps, s.(reqs := [s.reqs[0], s.reqs[1].(result := Some(Answered(Received(r))))]))
  {
    hide PrintAll, Feed, Received, Travels, ReachedQuietly, Incoming, Arrived;
    var s2 := Late(a, b, q, r, 2);
    var last := s2.(reqs := [s2.reqs[0], s2.reqs[1].(result := Some(Answered(Received(r))))]);
    assert Goes(s2, Return(1), last);
    hide Goes, WireSafe;
    ReadsLate(a, b, q, r);
    steps := AnswersAll([a, b], [q, r]);
    hide AllWritten, Late;
    steps := OneMoreQuietStep(steps, AllWritten([a, b], [q, r]), TimeOut(0), Late(a, b, q, r, 0));
    steps := OneMoreQuietStep(steps, Late(a, b, q, r, 0), Read(0), Late(a, b, q, r, 1));
    steps := OneMoreQuietStep(steps, Late(a, b, q, r, 1), Read(0), s2);
    steps := OneMoreQuietStep(steps, s2, Return(1), last);
  }
}
