/** The dispatcher of the patched RPC client: callers queue messages, one worker
    thread takes them in order and talks to the remote node, which may be lost
    during any send. The source replaces an abort by a sticky failure flag.

    `State`, `Enabled` and `Step` describe the interleavings: callers enqueue and
    check the flag at any moment between two steps of the worker. The class
    `Dispatcher` is the code itself, one iteration of the worker loop at a time,
    and is proved to be a run of the step machine. */
module RpcDispatcher {
  import opened Basics

  datatype Command = NoCommand | Command(code: nat)

  /** A queued message. `output` holds the bytes of the caller's buffer, if it passed one. */
  datatype Message = Message(cmd: Command, input: seq<byte>, output: Option<seq<byte>>)

  /** What the network does with one send: the full reply arrives, or the session
      is lost after `partial` was already written to the caller's buffer. */
  datatype Outcome = Reply(bytes: seq<byte>) | Lost(partial: seq<byte>)

  /** A completed message with the final contents of the caller's buffer. */
  datatype Delivery = Delivery(msg: Message, output: Option<seq<byte>>)

  /** A graph compute that looked at the flag when `done` messages were completed. */
  datatype Check = Check(done: nat, passed: bool)

  /** Where the worker thread stands inside one iteration of its loop. */
  datatype Worker =
    | Idle
    | Holding(msg: Message)
    | Failing(msg: Message, output: Option<seq<byte>>)
    | Zeroing(msg: Message, output: Option<seq<byte>>)
    | Ready(msg: Message, output: Option<seq<byte>>)

  /** `submitted`, `sent`, `delivered` and `checks` are the history of the run;
      `sent` maps the position of a message to the outcome of its send. */
  datatype State = State(
    queue: seq<Message>,
    worker: Worker,
    failed: bool,
    logLines: nat,
    submitted: seq<Message>,
    sent: map<nat, Outcome>,
    delivered: seq<Delivery>,
    checks: seq<Check>)

  datatype Event =
    | Enqueue(msg: Message)
    | ComputeCheck
    | Take
    | Send(outcome: Outcome)
    | Fail
    | Zero
    | Complete

  const INITIAL := State([], Idle, false, 0, [], map[], [], [])

  predicate IsWorkerEvent(e: Event) {
    !e.Enqueue? && !e.ComputeCheck?
  }

  function Zeros(n: nat): (z: seq<byte>)
    ensures |z| == n && forall i :: 0 <= i < n ==> z[i] == 0
  {
    seq(n, i => 0)
  }

  /** A send writes exactly the caller's buffer and nothing when there is none. */
  predicate Fits(outcome: Outcome, output: Option<seq<byte>>) {
    var written := if outcome.Reply? then outcome.bytes else outcome.partial;
    |written| == if output.Some? then |output.value| else 0
  }

  predicate Enabled(s: State, e: Event) {
    match e
    case Enqueue(_) => true
    case ComputeCheck => true
    case Take => s.worker.Idle? && s.queue != []
    case Send(o) => s.worker.Holding? && Fits(o, s.worker.msg.output)
    case Fail => s.worker.Failing?
    case Zero => s.worker.Zeroing?
    case Complete => s.worker.Ready?
  }

  /** The buffer after a send with this outcome. */
  function Written(output: Option<seq<byte>>, o: Outcome): Option<seq<byte>> {
    if output.None? then None else Some(if o.Reply? then o.bytes else o.partial)
  }

  function Step(s: State, e: Event): State
    requires Enabled(s, e)
  {
    match e
    case Enqueue(m) => s.(queue := s.queue + [m], submitted := s.submitted + [m])
    case ComputeCheck => s.(checks := s.checks + [Check(|s.delivered|, !s.failed)])
    case Take => s.(queue := s.queue[1..], worker := Holding(s.queue[0]))
    case Send(o) =>
      var m := s.worker.msg;
      if m.cmd.NoCommand? then
        s.(worker := Ready(m, m.output))
      else if s.failed then
        s.(worker := Zeroing(m, m.output))
      else
        var out := Written(m.output, o);
        s.(sent := s.sent[|s.delivered| := o],
           worker := if o.Reply? then Ready(m, out) else Failing(m, out))
    case Fail =>
      s.(failed := true,
         logLines := if s.failed then s.logLines else s.logLines + 1,
         worker := Zeroing(s.worker.msg, s.worker.output))
    case Zero =>
      var out := s.worker.output;
      s.(worker := Ready(s.worker.msg, if out.Some? then Some(Zeros(|out.value|)) else None))
    case Complete =>
      s.(worker := Idle, delivered := s.delivered + [Delivery(s.worker.msg, s.worker.output)])
  }

  /** The state after a sequence of events, if each is enabled in its turn. */
  function Run(s: State, events: seq<Event>): Option<State>
    decreases |events|
  {
    if events == [] then Some(s)
    else if Enabled(s, events[0]) then Run(Step(s, events[0]), events[1..])
    else None
  }

  // ---------------------------------------------------------------- invariant

  function Held(w: Worker): seq<Message> {
    if w.Idle? then [] else [w.msg]
  }

  /** What the caller of message `i` must find in its buffer: the exact reply if
      its command was answered, zeros otherwise. */
  function Due(i: nat, m: Message, sent: map<nat, Outcome>): Option<seq<byte>> {
    if m.output.None? then None
    else if m.cmd.NoCommand? then m.output
    else if i in sent && sent[i].Reply? then Some(sent[i].bytes)
    else Some(Zeros(|m.output.value|))
  }

  /** Every submitted message is delivered, in the worker's hands or queued, in order. */
  ghost predicate Conserved(s: State) {
    var d := |s.delivered|;
    var h := |Held(s.worker)|;
    && d + h + |s.queue| == |s.submitted|
    && (forall i :: 0 <= i < d ==> s.delivered[i].msg == s.submitted[i])
    && (h == 1 ==> s.worker.msg == s.submitted[d])
    && (forall i :: 0 <= i < |s.queue| ==> s.queue[i] == s.submitted[d + h + i])
  }

  /** How many messages are past the decision to send. */
  function Decided(s: State): nat {
    |s.delivered| + if s.worker.Idle? || s.worker.Holding? then 0 else 1
  }

  ghost predicate HasLost(sent: map<nat, Outcome>) {
    exists i :: i in sent && sent[i].Lost?
  }

  /** What was sent is a prefix of the commands, each answered but possibly the last. */
  ghost predicate SentOk(s: State)
    requires Conserved(s)
  {
    && (forall i :: i in s.sent ==> i < Decided(s) && !s.submitted[i].cmd.NoCommand?)
    && (forall i, j :: i in s.sent && s.sent[i].Lost? && j in s.sent ==> j <= i)
    && (forall i, j :: 0 <= i < Decided(s) && !s.submitted[i].cmd.NoCommand? && i !in s.sent && j in s.sent ==> j < i)
    && (s.failed || s.worker.Failing? <==> HasLost(s.sent))
    && (!s.failed ==> forall i :: 0 <= i < Decided(s) && !s.submitted[i].cmd.NoCommand? ==> i in s.sent)
  }

  /** The buffer the worker will hand back matches what is due. */
  ghost predicate HeldOk(s: State)
    requires Conserved(s)
  {
    var d := |s.delivered|;
    var w := s.worker;
    && (w.Failing? || w.Zeroing? ==>
          && !w.msg.cmd.NoCommand?
          && (w.output.Some? <==> w.msg.output.Some?)
          && (w.output.Some? ==> |w.output.value| == |w.msg.output.value|)
          && (d in s.sent ==> s.sent[d].Lost?))
    && (w.Failing? ==> !s.failed)
    && (w.Zeroing? ==> s.failed)
    && (w.Ready? ==> w.output == Due(d, w.msg, s.sent))
  }

  ghost predicate DeliveredOk(s: State) {
    forall i :: 0 <= i < |s.delivered| ==> s.delivered[i].output == Due(i, s.delivered[i].msg, s.sent)
  }

  /** Message `i`, if it carries a command, was sent and answered. */
  ghost predicate Answered(s: State, i: nat)
    requires i < |s.submitted|
  {
    s.submitted[i].cmd.NoCommand? || (i in s.sent && s.sent[i].Reply?)
  }

  /** A check that passed saw only answered messages; one that failed saw the flag. */
  ghost predicate ChecksOk(s: State)
    requires Conserved(s)
  {
    && s.logLines == (if s.failed then 1 else 0)
    && (forall c :: 0 <= c < |s.checks| ==> s.checks[c].done <= |s.delivered|)
    && (forall c, i :: 0 <= c < |s.checks| && s.checks[c].passed && 0 <= i < s.checks[c].done ==> Answered(s, i))
    && (forall c :: 0 <= c < |s.checks| && !s.checks[c].passed ==> s.failed)
  }

  ghost predicate Inv(s: State) {
    Conserved(s) && SentOk(s) && HeldOk(s) && DeliveredOk(s) && ChecksOk(s)
  }

  // ------------------------------------------------- preservation

  lemma ConservedStep(s: State, e: Event)
    requires Conserved(s) && Enabled(s, e)
    ensures Conserved(Step(s, e))
  {
    hide Written, Zeros;
  }

  lemma SentStep(s: State, e: Event)
    requires Conserved(s) && SentOk(s) && HeldOk(s) && Enabled(s, e)
    ensures Conserved(Step(s, e)) && SentOk(Step(s, e))
  {
    ConservedStep(s, e);
    if e.Send? {
      SendStep(s, e.outcome);
    }
  }

  /** Only a send decides what becomes of a message. */
  lemma SendStep(s: State, o: Outcome)
    requires Conserved(s) && SentOk(s) && HeldOk(s) && Enabled(s, Send(o))
    requires Conserved(Step(s, Send(o)))
    ensures SentOk(Step(s, Send(o)))
  {
    hide Written, Zeros, Due, HasLost;
    var t := Step(s, Send(o));
    NoneLost(s.sent);
    if t.sent != s.sent {
      assert |s.delivered| !in s.sent;
      LostGrows(s.sent, |s.delivered|, o);
    }
  }

  lemma NoneLost(sent: map<nat, Outcome>)
    ensures HasLost(sent) || forall i :: i in sent ==> sent[i].Reply?
  {
  }

  lemma LostGrows(sent: map<nat, Outcome>, i: nat, o: Outcome)
    requires i !in sent
    ensures HasLost(sent[i := o]) <==> HasLost(sent) || o.Lost?
  {
    var grown := sent[i := o];
    assert grown[i] == o;
    assert forall j :: j in sent ==> grown[j] == sent[j];
  }

  lemma HeldStep(s: State, e: Event)
    requires Conserved(s) && SentOk(s) && HeldOk(s) && Enabled(s, e)
    ensures Conserved(Step(s, e)) && HeldOk(Step(s, e))
  {
    ConservedStep(s, e);
  }

  lemma DeliveredStep(s: State, e: Event)
    requires Conserved(s) && HeldOk(s) && DeliveredOk(s) && Enabled(s, e)
    ensures DeliveredOk(Step(s, e))
  {
  }

  /** As long as the flag is clear, everything delivered was answered. */
  lemma ClearFlagMeansAnswered(s: State, i: nat)
    requires Conserved(s) && SentOk(s) && HeldOk(s) && !s.failed && i < |s.delivered|
    ensures Answered(s, i)
  {
    if HasLost(s.sent) {
      assert s.worker.Failing? && |s.delivered| in s.sent;
    }
  }

  lemma ChecksStep(s: State, e: Event)
    requires Inv(s) && Enabled(s, e)
    ensures Conserved(Step(s, e)) && ChecksOk(Step(s, e))
  {
    hide Written, Zeros, Due, HasLost, DeliveredOk;
    var t := Step(s, e);
    ConservedStep(s, e);
    forall c, i | 0 <= c < |t.checks| && t.checks[c].passed && 0 <= i < t.checks[c].done
      ensures Answered(t, i)
    {
      if e.ComputeCheck? && c == |s.checks| {
        ClearFlagMeansAnswered(s, i);
      } else {
        assert Answered(s, i);
      }
    }
  }

  lemma InvStep(s: State, e: Event)
    requires Inv(s) && Enabled(s, e)
    ensures Inv(Step(s, e))
  {
    SentStep(s, e);
    HeldStep(s, e);
    DeliveredStep(s, e);
    ChecksStep(s, e);
  }

  lemma {:induction false} InvRun(s: State, events: seq<Event>)
    requires Inv(s) && Run(s, events).Some?
    ensures Inv(Run(s, events).value)
    decreases |events|
  {
    if events != [] {
      InvStep(s, events[0]);
      InvRun(Step(s, events[0]), events[1..]);
    }
  }

  /** A state that some run of callers, worker and network leads to. */
  ghost predicate Reachable(s: State) {
    exists events :: Run(INITIAL, events) == Some(s)
  }

  lemma ReachableInv(s: State)
    requires Reachable(s)
    ensures Inv(s)
  {
    var events :| Run(INITIAL, events) == Some(s);
    InvRun(INITIAL, events);
  }

  /** Runs compose, so every object built by the constructor and changed by the
      methods of `Dispatcher` stays in a reachable state. */
  lemma ReachableRun(s: State, events: seq<Event>)
    requires Reachable(s) && Run(s, events).Some?
    ensures Reachable(Run(s, events).value)
  {
    var before :| Run(INITIAL, before) == Some(s);
    RunConcat(INITIAL, before, events);
  }

  lemma {:induction false} RunConcat(s: State, first: seq<Event>, second: seq<Event>)
    requires Run(s, first).Some?
    ensures Run(s, first + second) == Run(Run(s, first).value, second)
    decreases |first|
  {
    if first == [] {
      assert first + second == second;
    } else {
      RunConcat(Step(s, first[0]), first[1..], second);
      assert (first + second)[1..] == first[1..] + second;
    }
  }

  // ------------------------------------------------- results over whole runs

  /** Up to the send that lost the session (`split`) every delivered buffer holds
      the reply to that very message; from there on it holds zeros, and no later
      message was sent. */
  ghost predicate SplitAt(s: State, split: nat) {
    && (forall i :: i in s.sent ==> i <= split)
    && forall i :: 0 <= i < |s.delivered| ==>
         var Delivery(m, out) := s.delivered[i];
         !m.cmd.NoCommand? && m.output.Some? ==>
           if i < split then i in s.sent && s.sent[i].Reply? && out == Some(s.sent[i].bytes)
           else out == Some(Zeros(|m.output.value|))
  }

  /** In every run, whoever enqueues and whenever the node is lost, the buffers
      delivered in queue order are exact replies up to one message and zeros from
      there on, and nothing is sent after the first failed send. */
  lemma RepliesThenZeros(s: State)
    requires Reachable(s)
    ensures exists split :: SplitAt(s, split)
  {
    ReachableInv(s);
    var split := |s.submitted|;
    if HasLost(s.sent) {
      split :| split in s.sent && s.sent[split].Lost?;
    }
    forall i | 0 <= i < |s.delivered| && !s.delivered[i].msg.cmd.NoCommand? && s.delivered[i].msg.output.Some?
      ensures if i < split then i in s.sent && s.sent[i].Reply? else i !in s.sent || s.sent[i].Lost?
    {
      assert i in s.sent || !s.failed || HasLost(s.sent);
    }
    assert SplitAt(s, split);
  }

  /** Messages are neither lost nor duplicated nor reordered: each message is
      completed once, after every message queued before it. */
  lemma CompletedOnceInOrder(s: State)
    requires Reachable(s)
    ensures var done := seq(|s.delivered|, i requires 0 <= i < |s.delivered| => s.delivered[i].msg);
            s.submitted == done + Held(s.worker) + s.queue
  {
    ReachableInv(s);
  }

  /** Whenever a graph compute passes the check, every message completed by then
      got the exact reply of the node: no compute runs on zeroed data. */
  lemma PassedCheckSawExactReplies(s: State, c: nat, i: nat)
    requires Reachable(s)
    requires c < |s.checks| && s.checks[c].passed && i < s.checks[c].done
    ensures i < |s.delivered|
    ensures var Delivery(m, out) := s.delivered[i];
            !m.cmd.NoCommand? && m.output.Some? ==>
              i in s.sent && s.sent[i].Reply? && out == Some(s.sent[i].bytes)
  {
    ReachableInv(s);
    assert Answered(s, i);
  }

  /** The flag never clears, is logged once, and after it is set nothing more is
      sent and every later check reports the failure. */
  lemma {:induction false} FailureIsSticky(s: State, events: seq<Event>)
    requires Inv(s) && s.failed && Run(s, events).Some?
    ensures var t := Run(s, events).value;
            && t.failed && t.logLines == 1 && t.sent == s.sent
            && s.checks <= t.checks
            && forall c :: |s.checks| <= c < |t.checks| ==> !t.checks[c].passed
    decreases |events|
  {
    if events != [] {
      InvStep(s, events[0]);
      FailureIsSticky(Step(s, events[0]), events[1..]);
    }
  }

  /** The flag is set in time: once a message whose command was not answered is
      completed, every later check reports the failure. */
  lemma UnansweredMessageFailsLaterChecks(s: State, i: nat, events: seq<Event>)
    requires Reachable(s) && Run(s, events).Some?
    requires i < |s.delivered| && !s.delivered[i].msg.cmd.NoCommand?
    requires !(i in s.sent && s.sent[i].Reply?)
    ensures var t := Run(s, events).value;
            forall c :: |s.checks| <= c < |t.checks| ==> !t.checks[c].passed
  {
    ReachableInv(s);
    if !s.failed {
      ClearFlagMeansAnswered(s, i);
    }
    FailureIsSticky(s, events);
  }

  // ------------------------------------------------- nobody waits for ever

  function Stage(w: Worker): nat {
    match w
    case Idle => 0
    case Holding(_) => 1
    case Failing(_, _) => 2
    case Zeroing(_, _) => 3
    case Ready(_, _) => 4
  }

  function WorkerSteps(events: seq<Event>): nat {
    if events == [] then 0
    else (if IsWorkerEvent(events[0]) then 1 else 0) + WorkerSteps(events[1..])
  }

  lemma {:induction false} Progress(s: State, events: seq<Event>)
    requires Run(s, events).Some?
    ensures var t := Run(s, events).value;
            5 * |t.delivered| + Stage(t.worker) >= 5 * |s.delivered| + Stage(s.worker) + WorkerSteps(events)
    decreases |events|
  {
    if events != [] {
      Progress(Step(s, events[0]), events[1..]);
    }
  }

  /** The worker can go on exactly while a message is queued or in its hands: no
      outcome of the network and no value of the failure flag blocks it. */
  lemma WorkerBlocksOnlyWhenDone(s: State)
    ensures (exists e :: IsWorkerEvent(e) && Enabled(s, e)) <==> s.queue != [] || !s.worker.Idle?
  {
    if s.queue != [] || !s.worker.Idle? {
      var e := match s.worker
        case Idle => Take
        case Holding(m) => Send(Lost(if m.output.Some? then m.output.value else []))
        case Failing(_, _) => Fail
        case Zeroing(_, _) => Zero
        case Ready(_, _) => Complete;
      assert IsWorkerEvent(e) && Enabled(s, e);
    }
  }

  /** Every five steps of the worker complete a message, failed session or not and
      however callers interleave: after 5n steps the first n are released. */
  lemma QueueIsReleased(s: State, events: seq<Event>, n: nat)
    requires Run(s, events).Some?
    requires 5 * |s.delivered| + WorkerSteps(events) >= 5 * n
    ensures n <= |Run(s, events).value.delivered|
  {
    Progress(s, events);
  }

  // ------------------------------------------------- the code

  /** A message as the caller queues it: its buffer is shared with the caller. */
  class Envelope {
    const cmd: Command
    const input: seq<byte>
    const output: array?<byte>
    var completed: bool

    constructor (cmd: Command, input: seq<byte>, output: array?<byte>)
      ensures this.cmd == cmd && this.input == input && this.output == output && !completed
    {
      this.cmd, this.input, this.output, completed := cmd, input, output, false;
    }

    function Buffer(): Option<seq<byte>>
      reads this, output
    {
      if output == null then None else Some(output[..])
    }

    function Value(): Message
      reads this, output
    {
      Message(cmd, input, Buffer())
    }
  }

  ghost function Footprint(q: seq<Envelope>): set<object> {
    (set e: Envelope | e in q :: e as object)
    + (set e: Envelope | e in q && e.output != null :: e.output as object)
  }

  ghost function Values(q: seq<Envelope>): (ms: seq<Message>)
    reads Footprint(q)
    ensures |ms| == |q| && forall i :: 0 <= i < |q| ==> ms[i] == q[i].Value()
  {
    if q == [] then [] else
      assert q[0] in q;
      assert forall e :: e in q[1..] ==> e in q;
      [q[0].Value()] + Values(q[1..])
  }

  method Memset(a: array<byte>)
    modifies a
    ensures a[..] == Zeros(a.Length)
  {
    for i := 0 to a.Length
      invariant forall j :: 0 <= j < i ==> a[j] == 0
    {
      a[i] := 0;
    }
  }

  /** The worker's events in one iteration of its loop on an idle worker. */
  function Iteration(m: Message, failed: bool, o: Outcome): seq<Event> {
    if m.cmd.NoCommand? || (!failed && o.Reply?) then [Take, Send(o), Complete]
    else if failed then [Take, Send(o), Zero, Complete]
    else [Take, Send(o), Fail, Zero, Complete]
  }

  /** Where one iteration leads: the message is delivered with the reply, with its
      buffer as it was if it carries no command, or else with zeros. */
  function AfterIteration(s: State, o: Outcome): State
    requires s.queue != []
  {
    var m := s.queue[0];
    var asked := !m.cmd.NoCommand? && !s.failed;
    var lost := asked && o.Lost?;
    var output :=
      if m.output.None? || m.cmd.NoCommand? then m.output
      else if asked && !lost then Some(o.bytes)
      else Some(Zeros(|m.output.value|));
    s.(queue := s.queue[1..],
       failed := s.failed || lost,
       logLines := s.logLines + if lost then 1 else 0,
       sent := if asked then s.sent[|s.delivered| := o] else s.sent,
       delivered := s.delivered + [Delivery(m, output)])
  }

  lemma RunCons(s: State, e: Event, rest: seq<Event>)
    requires Enabled(s, e)
    ensures Run(s, [e] + rest) == Run(Step(s, e), rest)
  {
    assert ([e] + rest)[1..] == rest;
  }

  lemma IterationRuns(s: State, o: Outcome)
    requires s.worker.Idle? && s.queue != [] && Fits(o, s.queue[0].output)
    ensures Run(s, Iteration(s.queue[0], s.failed, o)) == Some(AfterIteration(s, o))
  {
    hide Zeros, Run;
    var m := s.queue[0];
    var s1 := Step(s, Take);
    var s2 := Step(s1, Send(o));
    var tail := Iteration(m, s.failed, o)[2..];
    assert Iteration(m, s.failed, o) == [Take] + ([Send(o)] + tail);
    RunCons(s, Take, [Send(o)] + tail);
    RunCons(s1, Send(o), tail);
    TailRuns(s2, tail);
  }

  /** The worker's events behind the send, from the failure if the send failed. */
  lemma TailRuns(s: State, tail: seq<Event>)
    requires s.worker.Ready? || s.worker.Zeroing? || s.worker.Failing?
    requires tail == if s.worker.Ready? then [Complete]
                     else if s.worker.Zeroing? then [Zero, Complete]
                     else [Fail, Zero, Complete]
    ensures Run(s, tail) == Some(
              if s.worker.Ready? then Step(s, Complete)
              else if s.worker.Zeroing? then Step(Step(s, Zero), Complete)
              else Step(Step(Step(s, Fail), Zero), Complete))
    decreases |tail|
  {
    hide Zeros;
    if s.worker.Ready? {
      assert tail == [Complete] + [];
      RunCons(s, Complete, []);
    } else {
      assert tail == [tail[0]] + tail[1..];
      RunCons(s, tail[0], tail[1..]);
      TailRuns(Step(s, tail[0]), tail[1..]);
    }
  }

  class Dispatcher {
    var queue: seq<Envelope>
    var failedFlag: bool
    ghost var logLines: nat
    ghost var submitted: seq<Message>
    ghost var sent: map<nat, Outcome>
    ghost var delivered: seq<Delivery>
    ghost var checks: seq<Check>

    /** Queued messages are distinct, pending, and do not share buffers. */
    ghost predicate Valid()
      reads this, queue
    {
      && (forall i :: 0 <= i < |queue| ==> !queue[i].completed)
      && (forall i, j :: 0 <= i < j < |queue| ==> queue[i] != queue[j])
      && (forall i, j :: 0 <= i < j < |queue| && queue[i].output != null ==> queue[i].output != queue[j].output)
    }

    /** The dispatcher between two iterations of the worker, as a state of the machine. */
    ghost function View(): State
      reads this, Footprint(queue)
    {
      State(Values(queue), Idle, failedFlag, logLines, submitted, sent, delivered, checks)
    }

    constructor ()
      ensures Valid() && View() == INITIAL
    {
      queue, failedFlag := [], false;
      logLines, submitted, sent, delivered, checks := 0, [], map[], [], [];
    }

    method Enqueue(e: Envelope)
      requires Valid() && !e.completed && e !in queue
      requires e.output != null ==> forall q :: q in queue ==> q.output != e.output
      modifies this
      ensures Valid() && View() == Step(old(View()), Event.Enqueue(e.Value()))
      ensures queue == old(queue) + [e] && submitted == old(submitted) + [e.Value()]
    {
      hide Values, Zeros;
      submitted := submitted + [e.Value()];
      queue := queue + [e];
      assert Values(queue) == old(Values(queue)) + [e.Value()];
    }

    predicate Failed()
      reads this
    {
      failedFlag
    }

    /** The guard at the head of graph compute; false stands for GGML_STATUS_FAILED. */
    method GraphCompute() returns (passed: bool)
      requires Valid()
      modifies this`checks
      ensures passed == !failedFlag
      ensures Valid() && View() == Step(old(View()), ComputeCheck)
    {
      passed := !Failed();
      checks := checks + [Check(|delivered|, passed)];
    }

    method Fail()
      modifies this`failedFlag, this`logLines
      ensures failedFlag && logLines == old(logLines) + if old(failedFlag) then 0 else 1
    {
      if !failedFlag {
        logLines := logLines + 1;
      }
      failedFlag := true;
    }

    /** One send; `o` is what the network does with it. */
    method SendCommand(e: Envelope, o: Outcome) returns (ok: bool)
      requires Fits(o, e.Buffer())
      modifies this`sent, e.output
      ensures ok == o.Reply?
      ensures sent == old(sent)[|delivered| := o]
      ensures e.Buffer() == Written(old(e.Buffer()), o)
    {
      ok := o.Reply?;
      if e.output != null {
        var bytes := if o.Reply? then o.bytes else o.partial;
        for i := 0 to |bytes|
          invariant e.output[..i] == bytes[..i]
          invariant sent == old(sent)
        {
          e.output[i] := bytes[i];
        }
        assert e.output[..] == e.output[..|bytes|] == bytes;
      }
      sent := sent[|delivered| := o];
    }

    /** The body of one iteration: the message is decided and its buffer filled. */
    method Process(e: Envelope, o: Outcome)
      requires Fits(o, e.Buffer())
      modifies this`sent, this`failedFlag, this`logLines, e.output
      ensures var m := old(e.Value());
              var asked := !m.cmd.NoCommand? && !old(failedFlag);
              var lost := asked && o.Lost?;
              && failedFlag == (old(failedFlag) || lost)
              && logLines == old(logLines) + (if lost then 1 else 0)
              && sent == (if asked then old(sent)[|delivered| := o] else old(sent))
              && e.Buffer() == (if m.output.None? || m.cmd.NoCommand? then m.output
                                else if asked && !lost then Some(o.bytes)
                                else Some(Zeros(|m.output.value|)))
    {
      if !e.cmd.NoCommand? {
        var ok := !failedFlag;
        if ok {
          ok := SendCommand(e, o);
          if !ok {
            Fail();
          }
        }
        if !ok && e.output != null {
          Memset(e.output);
        }
      }
    }

    method Pop() returns (e: Envelope)
      requires Valid() && queue != []
      modifies this`queue
      ensures e == old(queue[0]) && queue == old(queue)[1..] && Valid()
      ensures Values(queue) == old(Values(queue))[1..]
      ensures e !in queue && {this, e, e.output} !! Footprint(queue)
    {
      hide Values, Zeros;
      e := queue[0];
      queue := queue[1..];
    }

    /** One iteration of the worker loop. The message is completed with the buffer
        it is due, and the whole object moves as one run of the step machine. */
    method WorkOnce(o: Outcome) returns (e: Envelope)
      requires Valid() && queue != [] && Fits(o, queue[0].Buffer())
      modifies this, queue[0], queue[0].output
      ensures e == old(queue[0]) && e.completed
      ensures Valid() && queue == old(queue)[1..]
      ensures Run(old(View()), Iteration(old(queue[0].Value()), old(failedFlag), o)) == Some(View())
      ensures delivered == old(delivered) + [Delivery(old(queue[0].Value()), e.Buffer())]
    {
      hide Run, Iteration, Zeros, Step, Values, Footprint;
      IterationRuns(View(), o);
      ghost var t := AfterIteration(View(), o);
      ghost var value := queue[0].Value();
      e := Pop();
      assert Values(queue) == t.queue;
      Process(e, o);
      e.completed := true;
      delivered := delivered + [Delivery(value, e.Buffer())];
      assert Values(queue) == t.queue;
      assert failedFlag == t.failed && logLines == t.logLines && sent == t.sent;
      assert delivered == t.delivered;
    }

    /** The worker loop over a queue nobody adds to: after as many iterations as
        there are messages all of them are released, whatever the network does. */
    method Work(network: (nat, Message) -> Outcome)
      requires Valid()
      requires forall i: nat, m: Message :: Fits(network(i, m), m.output)
      modifies this, Footprint(queue)
      ensures queue == []
      ensures forall e :: e in old(queue) ==> e.completed
      ensures |delivered| == old(|delivered| + |queue|)
    {
      ghost var all := queue;
      var n := 0;
      while queue != []
        invariant n <= |all| && Valid() && queue == all[n..]
        invariant |delivered| == old(|delivered|) + n
        invariant forall i :: 0 <= i < n ==> all[i].completed
        decreases |queue|
      {
        assert queue[0] == all[n] && all[n] in all;
        var e := WorkOnce(network(n, queue[0].Value()));
        n := n + 1;
      }
      assert n == |all|;
    }
  }
}
