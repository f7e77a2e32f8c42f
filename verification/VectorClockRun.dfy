/**
 The simulation of n processes as a transition system, and what holds in every run of it.

 Clocks, inboxes and turn counters are those of the program; `log` is the history of all processes in the
 order in which the events happened.
 */
module VectorClockRun {
  import opened VectorClock
  import opened CausalHistory

  datatype Message = Message(sender: nat, clock: Clock)

  datatype Action = DoLocal | DoSend | DoRecv

  /** The outcome of the random choices of one turn: the coin for a free choice, and the target of a send. */
  datatype Choice = Choice(send: bool, target: nat)

  datatype State = State(
    clocks: seq<Clock>,
    inboxes: seq<seq<Message>>,
    turnCount: seq<nat>,
    log: Log)

  function DecideAction(pid: nat, turn: nat, hasIncoming: bool, send: bool): Action {
    if hasIncoming then DoRecv
    else if turn == 0 then DoLocal
    else if pid == 0 && turn == 1 then DoSend
    else if send then DoSend
    else DoLocal
  }

  /** `random.choice` draws the target among the other processes. */
  predicate ValidChoice(n: nat, pid: nat, choice: Choice) {
    choice.target < n && choice.target != pid
  }

  predicate Sized(s: State, n: nat) {
    && |s.clocks| == |s.inboxes| == |s.turnCount| == n
    && (forall p :: 0 <= p < n ==> |s.clocks[p]| == n)
    && (forall p, k :: 0 <= p < n && 0 <= k < |s.inboxes[p]| ==> |s.inboxes[p][k].clock| == n)
    && (forall i :: 0 <= i < |s.log| ==> s.log[i].pid < n && |s.log[i].clock| == n)
  }

  function Initial(n: nat): (s: State)
    ensures Sized(s, n)
  {
    State(seq(n, p => Zero(n)), seq(n, p => []), seq(n, p => 0), [])
  }

  /** A target is only drawn for a send, and the first turn of a process never is one. */
  predicate Drawn(s: State, n: nat, pid: nat, choice: Choice)
    requires Sized(s, n) && pid < n
  {
    s.turnCount[pid] > 0 ==> ValidChoice(n, pid, choice)
  }

  function TakeTurn(s: State, n: nat, pid: nat, choice: Choice): (s': State)
    requires Sized(s, n) && pid < n && Drawn(s, n, pid, choice)
    ensures Sized(s', n)
  {
    var turns := s.turnCount[pid := s.turnCount[pid] + 1];
    match DecideAction(pid, s.turnCount[pid], s.inboxes[pid] != [], choice.send)
    case DoRecv =>
      var message := s.inboxes[pid][0];
      var clock := Ticked(Merged(s.clocks[pid], message.clock), pid);
      State(s.clocks[pid := clock], s.inboxes[pid := s.inboxes[pid][1..]], turns,
            s.log + [Event(pid, Recv(message.sender, message.clock), clock)])
    case DoSend =>
      var clock := Ticked(s.clocks[pid], pid);
      var to := choice.target;
      State(s.clocks[pid := clock], s.inboxes[to := s.inboxes[to] + [Message(pid, clock)]], turns,
            s.log + [Event(pid, Send(to), clock)])
    case DoLocal =>
      var clock := Ticked(s.clocks[pid], pid);
      State(s.clocks[pid := clock], s.inboxes, turns, s.log + [Event(pid, Local, clock)])
  }

  // ---------------------------------------------------------------- the invariant

  ghost predicate SizedLog(log: Log, n: nat) {
    forall i :: 0 <= i < |log| ==> log[i].pid < n && |log[i].clock| == n
  }

  /** An inbox holds exactly the messages sent and not yet received, in order, each with the clock of its send. */
  ghost predicate Delivered(log: Log, inbox: seq<Message>, p: nat) {
    && |SendsTo(log, p)| == Receives(log, p) + |inbox|
    && forall k :: 0 <= k < |inbox| ==> IsMessageOf(log, inbox[k], SendsTo(log, p)[Receives(log, p) + k])
  }

  ghost predicate IsMessageOf(log: Log, m: Message, o: nat) {
    o < |log| && m == Message(log[o].pid, log[o].clock)
  }

  /** The rank of the event at i among the events of its process. */
  function Rank(log: Log, i: nat): nat
    requires i < |log|
  {
    EventsOf(log[..i + 1], log[i].pid)
  }

  /** The clock has reached the event at i. */
  ghost predicate Reaches(clock: Clock, log: Log, i: nat)
    requires i < |log| && log[i].pid < |clock|
  {
    Rank(log, i) <= clock[log[i].pid]
  }

  /** Nobody is ahead of a process about that process, and an event's own component is its rank. */
  ghost predicate Counted(log: Log, n: nat)
    requires SizedLog(log, n)
  {
    && (forall i, p :: 0 <= i < |log| && 0 <= p < n ==> log[i].clock[p] <= EventsOf(log, p))
    && (forall i :: 0 <= i < |log| ==> log[i].clock[log[i].pid] == Rank(log, i))
  }

  /** The clock of an event has reached exactly the events of its past. */
  ghost predicate CausalLog(log: Log, n: nat)
    requires SizedLog(log, n)
  {
    forall i, j :: 0 <= i < |log| && 0 <= j < |log| ==> (Reaches(log[j].clock, log, i) <==> InPast(log, i, j))
  }

  /** The clock of process p counts its own events and has reached exactly the events p knows of. */
  ghost predicate CausalClock(log: Log, n: nat, clock: Clock, p: nat)
    requires SizedLog(log, n)
  {
    && |clock| == n
    && p < n
    && clock[p] == EventsOf(log, p)
    && (forall q :: 0 <= q < n ==> clock[q] <= EventsOf(log, q))
    && (forall i :: 0 <= i < |log| ==> (Reaches(clock, log, i) <==> KnownTo(log, i, p)))
  }

  /** Every receive carries the sender and the clock of the send that it takes. */
  ghost predicate Traced(log: Log) {
    forall j :: 0 <= j < |log| && log[j].kind.Recv? ==> TakesSend(log, j)
  }

  ghost predicate TakesSend(log: Log, j: nat)
    requires j < |log|
  {
    exists o: nat :: Delivers(log, o, j) && log[j].kind == Recv(log[o].pid, log[o].clock)
  }

  ghost predicate LogInv(log: Log, n: nat) {
    SizedLog(log, n) && Traced(log) && Counted(log, n) && CausalLog(log, n)
  }

  ghost predicate ProcessInv(log: Log, n: nat, clock: Clock, inbox: seq<Message>, turns: nat, p: nat)
    requires SizedLog(log, n)
  {
    CausalClock(log, n, clock, p) && Delivered(log, inbox, p) && turns == EventsOf(log, p)
  }

  ghost predicate Inv(s: State, n: nat) {
    && Sized(s, n)
    && LogInv(s.log, n)
    && forall p :: 0 <= p < n ==> ProcessInv(s.log, n, s.clocks[p], s.inboxes[p], s.turnCount[p], p)
  }

  // ---------------------------------------------------------------- one more event

  lemma {:induction false} RankIsBounded(log: Log, i: nat)
    requires i < |log|
    ensures 0 < Rank(log, i) <= EventsOf(log, log[i].pid)
  {
    if i + 1 == |log| {
      assert log[..i + 1] == log;
    } else {
      assert Front(log)[..i + 1] == log[..i + 1];
      RankIsBounded(Front(log), i);
    }
  }

  lemma RankIsStable(log: Log, e: Event, i: nat)
    requires i < |log|
    ensures Rank(log + [e], i) == Rank(log, i)
  {
    assert (log + [e])[..i + 1] == log[..i + 1];
  }

  lemma RankOfNewEvent(log: Log, e: Event)
    ensures Rank(log + [e], |log|) == EventsOf(log, e.pid) + 1
    ensures forall p :: EventsOf(log + [e], p) == EventsOf(log, p) + if e.pid == p then 1 else 0
  {
    assert (log + [e])[..|log| + 1] == log + [e];
    assert Front(log + [e]) == log;
  }

  /** The inbox of process p once the event e has happened. */
  function InboxAfter(inbox: seq<Message>, e: Event, p: nat): seq<Message>
    requires e.kind.Recv? && e.pid == p ==> inbox != []
  {
    if e.kind == Send(p) then inbox + [Message(e.pid, e.clock)]
    else if e.kind.Recv? && e.pid == p then inbox[1..]
    else inbox
  }

  lemma InboxAfterEvent(log: Log, e: Event, inbox: seq<Message>, p: nat)
    requires Delivered(log, inbox, p)
    requires e.kind.Recv? && e.pid == p ==> inbox != []
    ensures Delivered(log + [e], InboxAfter(inbox, e, p), p)
  {
    var log', inbox' := log + [e], InboxAfter(inbox, e, p);
    assert Front(log') == log;
    var sends, sends', r, r' := SendsTo(log, p), SendsTo(log', p), Receives(log, p), Receives(log', p);
    assert sends' == sends + if e.kind == Send(p) then [|log|] else [];
    assert r' == r + if e.pid == p && e.kind.Recv? then 1 else 0;
    forall k | 0 <= k < |inbox'|
      ensures IsMessageOf(log', inbox'[k], sends'[r' + k])
    {
      if r' + k < |sends| {
        assert IsMessageOf(log, inbox[r' - r + k], sends[r + (r' - r + k)]);
      }
    }
  }

  /** `clock` is what process q knows once it has taken the message of the event at o, if any. */
  ghost predicate Gathered(log: Log, n: nat, clock: Clock, e: Event)
    requires SizedLog(log, n)
  {
    && |clock| == n
    && e.pid < n
    && e.clock == Ticked(clock, e.pid)
    && clock[e.pid] == EventsOf(log, e.pid)
    && (forall q :: 0 <= q < n ==> clock[q] <= EventsOf(log, q))
    && (forall i :: 0 <= i < |log| ==>
          (Reaches(clock, log, i) <==>
            KnownTo(log, i, e.pid) || exists o: nat :: o < |log| && Delivers(log + [e], o, |log|) && InPast(log, i, o)))
  }

  lemma GatheredWithoutMessage(log: Log, n: nat, clock: Clock, e: Event)
    requires SizedLog(log, n) && CausalClock(log, n, clock, e.pid)
    requires !e.kind.Recv? && e.clock == Ticked(clock, e.pid)
    ensures Gathered(log, n, clock, e)
  {
  }

  lemma GatheredWithMessage(log: Log, n: nat, clock: Clock, e: Event, o: nat)
    requires SizedLog(log, n) && Counted(log, n) && CausalLog(log, n) && CausalClock(log, n, clock, e.pid)
    requires e.kind.Recv? && Receives(log, e.pid) < |SendsTo(log, e.pid)|
    requires o == SendsTo(log, e.pid)[Receives(log, e.pid)] && o < |log|
    requires e.clock == Ticked(Merged(clock, log[o].clock), e.pid)
    ensures Gathered(log, n, Merged(clock, log[o].clock), e)
  {
    assert (log + [e])[..|log|] == log;
    assert forall o': nat :: Delivers(log + [e], o', |log|) <==> o' == o;
    forall i | 0 <= i < |log|
      ensures Reaches(Merged(clock, log[o].clock), log, i) <==> Reaches(clock, log, i) || Reaches(log[o].clock, log, i)
    {
    }
  }

  lemma EventKeepsCounted(log: Log, n: nat, clock: Clock, e: Event)
    requires SizedLog(log, n) && Counted(log, n) && Gathered(log, n, clock, e)
    ensures Counted(log + [e], n)
  {
    RankOfNewEvent(log, e);
    forall i: nat | i < |log|
      ensures Rank(log + [e], i) == Rank(log, i)
    {
      RankIsStable(log, e, i);
    }
  }

  lemma NewEventReaches(log: Log, n: nat, clock: Clock, e: Event, i: nat)
    requires SizedLog(log, n) && Gathered(log, n, clock, e) && i < |log|
    ensures Reaches(e.clock, log + [e], i) <==> InPast(log + [e], i, |log|)
  {
    RankIsStable(log, e, i);
    RankIsBounded(log, i);
    PastOfNewEvent(log, e, i);
    assert Reaches(clock, log, i) <==> HappensBefore(log + [e], i, |log|);
    if log[i].pid == e.pid {
      assert Reaches(clock, log, i);
    }
  }

  lemma EventKeepsCausalLog(log: Log, n: nat, clock: Clock, e: Event)
    requires SizedLog(log, n) && Counted(log, n) && CausalLog(log, n) && Gathered(log, n, clock, e)
    ensures CausalLog(log + [e], n)
  {
    var log', m := log + [e], |log|;
    RankOfNewEvent(log, e);
    forall i: nat, j: nat | i < |log'| && j < |log'|
      ensures Reaches(log'[j].clock, log', i) <==> InPast(log', i, j)
    {
      if j < m {
        LaterEventsChangeNothing(log, e, i, j);
        if i < m {
          RankIsStable(log, e, i);
          assert Reaches(log[j].clock, log, i) <==> InPast(log, i, j);
        } else {
          assert log[j].clock[e.pid] <= EventsOf(log, e.pid);
        }
      } else if i < m {
        NewEventReaches(log, n, clock, e, i);
      }
    }
  }

  lemma KnowledgeAfterEvent(log: Log, e: Event, i: nat, p: nat)
    requires i <= |log|
    ensures KnownTo(log + [e], i, p) <==>
      (i < |log| && KnownTo(log, i, p)) || (e.pid == p && InPast(log + [e], i, |log|))
  {
    var log' := log + [e];
    forall k: nat | k < |log|
      ensures InPast(log', i, k) <==> InPast(log, i, k)
    {
      LaterEventsChangeNothing(log, e, i, k);
    }
    if KnownTo(log', i, p) {
      var k: nat :| k < |log'| && log'[k].pid == p && InPast(log', i, k);
      if k < |log| {
        assert log[k].pid == p && InPast(log, i, k);
      }
    }
    if i < |log| && KnownTo(log, i, p) {
      var k: nat :| k < |log| && log[k].pid == p && InPast(log, i, k);
      assert log'[k].pid == p && InPast(log', i, k);
    }
    if e.pid == p && InPast(log', i, |log|) {
      assert log'[|log|].pid == p;
    }
  }

  lemma OtherClockAfterEvent(log: Log, n: nat, clock: Clock, e: Event, p: nat)
    requires SizedLog(log, n) && CausalClock(log, n, clock, p)
    requires e.pid < n && |e.clock| == n && e.pid != p
    ensures CausalClock(log + [e], n, clock, p)
  {
    RankOfNewEvent(log, e);
    forall i: nat | i < |log + [e]|
      ensures Reaches(clock, log + [e], i) <==> KnownTo(log + [e], i, p)
    {
      KnowledgeAfterEvent(log, e, i, p);
      if i < |log| {
        RankIsStable(log, e, i);
        assert Reaches(clock, log, i) <==> KnownTo(log, i, p);
      }
    }
  }

  lemma OwnClockAfterEvent(log: Log, n: nat, clock: Clock, e: Event)
    requires SizedLog(log, n) && Gathered(log, n, clock, e)
    ensures CausalClock(log + [e], n, e.clock, e.pid)
  {
    RankOfNewEvent(log, e);
    forall i: nat | i < |log + [e]|
      ensures Reaches(e.clock, log + [e], i) <==> KnownTo(log + [e], i, e.pid)
    {
      KnowledgeAfterEvent(log, e, i, e.pid);
      if i < |log| {
        NewEventReaches(log, n, clock, e, i);
        PastOfNewEvent(log, e, i);
      }
    }
  }

  // ---------------------------------------------------------------- one turn

  /** The clock that the process of a turn ticks: its own, or its own joined with the first message. */
  function Base(s: State, n: nat, pid: nat): Clock
    requires Sized(s, n) && pid < n
  {
    if s.inboxes[pid] != [] then Merged(s.clocks[pid], s.inboxes[pid][0].clock) else s.clocks[pid]
  }

  /** What a turn changes: one event, the clock and counter of its process, and the inboxes. */
  ghost predicate Effect(s: State, s': State, n: nat, e: Event)
    requires Sized(s, n) && Sized(s', n) && e.pid < n
  {
    && s'.log == s.log + [e]
    && (e.kind.Recv? ==>
          s.inboxes[e.pid] != [] && e.kind == Recv(s.inboxes[e.pid][0].sender, s.inboxes[e.pid][0].clock))
    && (forall p :: 0 <= p < n ==> s'.clocks[p] == if p == e.pid then e.clock else s.clocks[p])
    && (forall p :: 0 <= p < n ==> s'.turnCount[p] == s.turnCount[p] + if p == e.pid then 1 else 0)
    && (forall p :: 0 <= p < n ==> s'.inboxes[p] == InboxAfter(s.inboxes[p], e, p))
  }

  lemma TurnEffect(s: State, n: nat, pid: nat, choice: Choice)
    requires Sized(s, n) && pid < n && Drawn(s, n, pid, choice)
    ensures var s' := TakeTurn(s, n, pid, choice);
            && s'.log != []
            && var e := Last(s'.log);
            && e.pid == pid
            && e.clock == Ticked(Base(s, n, pid), pid)
            && (e.kind.Recv? <==> s.inboxes[pid] != [])
            && Effect(s, s', n, e)
  {
  }

  /** What kind of event a turn is: the reaction to a message, a forced first step or send, or what the coin says. */
  lemma TurnKind(s: State, n: nat, pid: nat, choice: Choice)
    requires Sized(s, n) && pid < n && Drawn(s, n, pid, choice)
    ensures var s' := TakeTurn(s, n, pid, choice);
            && |s'.log| == |s.log| + 1
            && var kind := s'.log[|s.log|].kind;
            && (s.inboxes[pid] != [] ==> kind == Recv(s.inboxes[pid][0].sender, s.inboxes[pid][0].clock))
            && (s.inboxes[pid] == [] && s.turnCount[pid] == 0 ==> kind == Local)
            && (s.inboxes[pid] == [] && s.turnCount[pid] == 1 && pid == 0 ==> kind == Send(choice.target))
            && (s.inboxes[pid] == [] && s.turnCount[pid] > 0 && !(s.turnCount[pid] == 1 && pid == 0) ==>
                  kind == if choice.send then Send(choice.target) else Local)
  {
  }

  /** What a turn does to the inboxes: a receive takes the first message, a send adds its clock as the last one. */
  lemma TurnInboxes(s: State, n: nat, pid: nat, choice: Choice)
    requires Sized(s, n) && pid < n && Drawn(s, n, pid, choice)
    ensures var s' := TakeTurn(s, n, pid, choice);
            && |s'.log| == |s.log| + 1
            && var e := s'.log[|s.log|];
               match e.kind
               case Local => s'.inboxes == s.inboxes
               case Recv(_, _) => s.inboxes[pid] != [] && s'.inboxes == s.inboxes[pid := s.inboxes[pid][1..]]
               case Send(to) => to < n && s'.inboxes == s.inboxes[to := s.inboxes[to] + [Message(pid, e.clock)]]
  {
  }

  lemma EventGathers(s: State, n: nat, e: Event)
    requires Inv(s, n) && e.pid < n && e.clock == Ticked(Base(s, n, e.pid), e.pid)
    requires e.kind.Recv? <==> s.inboxes[e.pid] != []
    ensures Gathered(s.log, n, Base(s, n, e.pid), e)
  {
    var pid := e.pid;
    assert ProcessInv(s.log, n, s.clocks[pid], s.inboxes[pid], s.turnCount[pid], pid);
    if s.inboxes[pid] == [] {
      GatheredWithoutMessage(s.log, n, s.clocks[pid], e);
    } else {
      var o := SendsTo(s.log, pid)[Receives(s.log, pid)];
      assert IsMessageOf(s.log, s.inboxes[pid][0], SendsTo(s.log, pid)[Receives(s.log, pid) + 0]);
      GatheredWithMessage(s.log, n, s.clocks[pid], e, o);
    }
  }

  lemma EventKeepsTraced(log: Log, e: Event, inbox: seq<Message>)
    requires Traced(log) && Delivered(log, inbox, e.pid)
    requires e.kind.Recv? ==> inbox != [] && e.kind == Recv(inbox[0].sender, inbox[0].clock)
    ensures Traced(log + [e])
  {
    var log' := log + [e];
    assert log'[..|log|] == log;
    forall j | 0 <= j < |log'| && log'[j].kind.Recv?
      ensures TakesSend(log', j)
    {
      if j < |log| {
        assert TakesSend(log, j);
        var o: nat :| Delivers(log, o, j) && log[j].kind == Recv(log[o].pid, log[o].clock);
        assert log'[..j] == log[..j];
        assert Delivers(log', o, j);
      } else {
        assert IsMessageOf(log, inbox[0], SendsTo(log, e.pid)[Receives(log, e.pid) + 0]);
        assert Delivers(log', SendsTo(log, e.pid)[Receives(log, e.pid)], j);
      }
    }
  }

  lemma EventKeepsLogInv(log: Log, n: nat, clock: Clock, e: Event, inbox: seq<Message>)
    requires LogInv(log, n) && Gathered(log, n, clock, e) && Delivered(log, inbox, e.pid)
    requires e.kind.Recv? ==> inbox != [] && e.kind == Recv(inbox[0].sender, inbox[0].clock)
    ensures LogInv(log + [e], n)
  {
    EventKeepsTraced(log, e, inbox);
    EventKeepsCounted(log, n, clock, e);
    EventKeepsCausalLog(log, n, clock, e);
  }

  lemma EventKeepsProcessInv(
      log: Log, n: nat, base: Clock, e: Event, clock: Clock, inbox: seq<Message>, turns: nat, p: nat)
    requires SizedLog(log, n) && Gathered(log, n, base, e)
    requires ProcessInv(log, n, clock, inbox, turns, p)
    requires e.kind.Recv? && e.pid == p ==> inbox != []
    ensures ProcessInv(log + [e], n, if p == e.pid then e.clock else clock, InboxAfter(inbox, e, p),
                       turns + if p == e.pid then 1 else 0, p)
  {
    InboxAfterEvent(log, e, inbox, p);
    RankOfNewEvent(log, e);
    if p == e.pid {
      OwnClockAfterEvent(log, n, base, e);
    } else {
      OtherClockAfterEvent(log, n, clock, e, p);
    }
  }

  lemma EventKeepsInv(s: State, s': State, n: nat, base: Clock, e: Event)
    requires Inv(s, n) && Sized(s', n) && e.pid < n && Effect(s, s', n, e)
    requires Gathered(s.log, n, base, e)
    ensures Inv(s', n)
  {
    assert ProcessInv(s.log, n, s.clocks[e.pid], s.inboxes[e.pid], s.turnCount[e.pid], e.pid);
    EventKeepsLogInv(s.log, n, base, e, s.inboxes[e.pid]);
    forall p | 0 <= p < n
      ensures ProcessInv(s'.log, n, s'.clocks[p], s'.inboxes[p], s'.turnCount[p], p)
    {
      assert ProcessInv(s.log, n, s.clocks[p], s.inboxes[p], s.turnCount[p], p);
      EventKeepsProcessInv(s.log, n, base, e, s.clocks[p], s.inboxes[p], s.turnCount[p], p);
    }
  }

  lemma TurnKeepsInv(s: State, n: nat, pid: nat, choice: Choice)
    requires Inv(s, n) && pid < n && Drawn(s, n, pid, choice)
    ensures Inv(TakeTurn(s, n, pid, choice), n)
  {
    var s' := TakeTurn(s, n, pid, choice);
    TurnEffect(s, n, pid, choice);
    EventGathers(s, n, Last(s'.log));
    EventKeepsInv(s, s', n, Base(s, n, pid), Last(s'.log));
  }

  // ---------------------------------------------------------------- whole runs

  /** The process that takes turn t: in every round, each process in its order. */
  function Owner(n: nat, t: nat): (pid: nat)
    requires n > 0
    ensures pid < n
  {
    if t < n then t else Owner(n, t - n)
  }

  lemma {:induction false} OwnerInRound(n: nat, round: nat, pid: nat)
    requires pid < n
    ensures Owner(n, round * n + pid) == pid
  {
    if round == 0 {
    } else {
      assert round * n + pid - n == (round - 1) * n + pid;
      OwnerInRound(n, round - 1, pid);
    }
  }

  /** One choice per turn; in the first round no targets are drawn. */
  predicate ValidChoices(n: nat, choices: seq<Choice>)
    requires n > 0
  {
    forall t :: n <= t < |choices| ==> ValidChoice(n, Owner(n, t), choices[t])
  }

  function Run(n: nat, choices: seq<Choice>): (s: State)
    requires n > 0 && ValidChoices(n, choices)
    ensures Sized(s, n) && |s.log| == |choices|
    ensures forall p :: |choices| <= p < n ==> s.turnCount[p] == 0
  {
    if choices == [] then Initial(n)
    else
      var t := |choices| - 1;
      TakeTurn(Run(n, choices[..t]), n, Owner(n, t), choices[t])
  }

  lemma RunOneMore(n: nat, choices: seq<Choice>, choice: Choice)
    requires n > 0 && ValidChoices(n, choices)
    requires |choices| >= n ==> ValidChoice(n, Owner(n, |choices|), choice)
    ensures Drawn(Run(n, choices), n, Owner(n, |choices|), choice)
    ensures ValidChoices(n, choices + [choice])
    ensures Run(n, choices + [choice]) == TakeTurn(Run(n, choices), n, Owner(n, |choices|), choice)
  {
    assert (choices + [choice])[..|choices|] == choices;
  }

  /** A single process has nobody to send to, but sends in its second turn: it can run for one round only. */
  lemma SingleProcessRunsOnce(choices: seq<Choice>)
    ensures ValidChoices(1, choices) <==> |choices| <= 1
    ensures forall coin :: DecideAction(0, 1, false, coin) == DoSend
  {
    if |choices| > 1 {
      assert !ValidChoice(1, Owner(1, 1), choices[1]);
    }
  }

  lemma {:induction false} RunKeepsInv(n: nat, choices: seq<Choice>)
    requires n > 0 && ValidChoices(n, choices)
    ensures Inv(Run(n, choices), n)
  {
    if choices == [] {
    } else {
      var t := |choices| - 1;
      RunKeepsInv(n, choices[..t]);
      TurnKeepsInv(Run(n, choices[..t]), n, Owner(n, t), choices[t]);
    }
  }
}
