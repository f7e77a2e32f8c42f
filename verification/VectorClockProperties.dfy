/** What the vector clock simulation promises, for every number of processes and every outcome of its choices. */
module VectorClockProperties {
  import opened VectorClock
  import opened CausalHistory
  import opened VectorClockRun

  /** The clock condition in both directions: comparing clocks decides happens-before. */
  lemma ClockOrderIsHappensBefore(n: nat, choices: seq<Choice>, i: nat, j: nat)
    requires n > 0 && ValidChoices(n, choices)
    requires i < |choices| && j < |choices| && i != j
    ensures var log := Run(n, choices).log;
            var order := CompareClocks(log[i].clock, log[j].clock);
            && (order == Before <==> HappensBefore(log, i, j))
            && (order == After <==> HappensBefore(log, j, i))
            && (order == Concurrent <==> !HappensBefore(log, i, j) && !HappensBefore(log, j, i))
            && order != Equal
  {
    RunKeepsInv(n, choices);
    var log := Run(n, choices).log;
    ReachingIsComparing(log, n, i, j);
    ReachingIsComparing(log, n, j, i);
  }

  lemma ReachingIsComparing(log: Log, n: nat, i: nat, j: nat)
    requires SizedLog(log, n) && Counted(log, n) && CausalLog(log, n) && i < |log| && j < |log| && i != j
    ensures HappensBefore(log, i, j) <==> AllAtMost(log[i].clock, log[j].clock)
    ensures HappensBefore(log, i, j) ==> !AllAtMost(log[j].clock, log[i].clock)
  {
    assert Reaches(log[j].clock, log, i) <==> InPast(log, i, j);
    if HappensBefore(log, i, j) {
      forall p | 0 <= p < n
        ensures log[i].clock[p] <= log[j].clock[p]
      {
        PastClockIsBelow(log, n, i, j, p);
      }
      assert Reaches(log[i].clock, log, j) <==> InPast(log, j, i);
    }
  }

  /** The event of process p with a given rank. */
  lemma {:induction false} RankIsTaken(log: Log, p: nat, c: nat) returns (i: nat)
    requires 0 < c <= EventsOf(log, p)
    ensures i < |log| && log[i].pid == p && Rank(log, i) == c
  {
    if EventsOf(Front(log), p) < c {
      i := |log| - 1;
      assert log[..i + 1] == log;
    } else {
      i := RankIsTaken(Front(log), p, c);
      assert Front(log)[..i + 1] == log[..i + 1];
    }
  }

  lemma PastClockIsBelow(log: Log, n: nat, i: nat, j: nat, p: nat)
    requires SizedLog(log, n) && Counted(log, n) && CausalLog(log, n) && p < n
    requires HappensBefore(log, i, j)
    ensures log[i].clock[p] <= log[j].clock[p]
  {
    var c := log[i].clock[p];
    if c > 0 {
      var k := RankIsTaken(log, p, c);
      assert Reaches(log[i].clock, log, k);
      assert InPast(log, k, i);
      if k != i {
        HappensBeforeIsTransitive(log, k, i, j);
      }
      assert Reaches(log[j].clock, log, k);
    }
  }

  // ---------------------------------------------------------------- components count causal pasts

  /** The events of process p in the past of the event at j, that event included. */
  ghost function PastOf(log: Log, j: nat, p: nat): set<nat>
    requires j < |log|
  {
    set i: nat | i <= j && log[i].pid == p && InPast(log, i, j)
  }

  function RankedUpTo(log: Log, p: nat, c: nat): set<nat> {
    set i: nat | i < |log| && log[i].pid == p && Rank(log, i) <= c
  }

  lemma {:induction false} RanksAreCounted(log: Log, p: nat, c: nat)
    requires c <= EventsOf(log, p)
    ensures |RankedUpTo(log, p, c)| == c
  {
    if log == [] {
    } else {
      if EventsOf(Front(log), p) < c {
        RanksAreCounted(Front(log), p, c - 1);
        NewestIsRanked(log, p);
      } else {
        RanksAreCounted(Front(log), p, c);
        NewestIsNotRanked(log, p, c);
      }
    }
  }

  lemma NewestIsRanked(log: Log, p: nat)
    requires log != [] && EventsOf(Front(log), p) < EventsOf(log, p)
    ensures |RankedUpTo(log, p, EventsOf(log, p))| == |RankedUpTo(Front(log), p, EventsOf(Front(log), p))| + 1
  {
    NewestRank(log, p);
    var earlier := RankedUpTo(Front(log), p, EventsOf(Front(log), p));
    assert RankedUpTo(log, p, EventsOf(log, p)) == earlier + {|log| - 1};
  }

  lemma NewestIsNotRanked(log: Log, p: nat, c: nat)
    requires log != [] && c <= EventsOf(Front(log), p)
    ensures RankedUpTo(log, p, c) == RankedUpTo(Front(log), p, c)
  {
    NewestRank(log, p);
  }

  lemma NewestRank(log: Log, p: nat)
    requires log != []
    ensures Last(log).pid == p ==> Rank(log, |log| - 1) == EventsOf(Front(log), p) + 1
    ensures forall i: nat :: i < |log| - 1 ==> Rank(log, i) == Rank(Front(log), i)
    ensures forall i: nat :: i < |log| - 1 && log[i].pid == p ==> Rank(log, i) <= EventsOf(Front(log), p)
  {
    assert log[..|log| - 1 + 1] == log;
    forall i: nat | i < |log| - 1
      ensures Rank(log, i) == Rank(Front(log), i) <= EventsOf(Front(log), log[i].pid)
    {
      assert Front(log)[..i + 1] == log[..i + 1];
      RankIsBounded(Front(log), i);
    }
  }

  /** Component p of a recorded clock is the number of p's events in the causal past of its event. */
  lemma ClockCountsCausalPast(n: nat, choices: seq<Choice>, j: nat, p: nat)
    requires n > 0 && ValidChoices(n, choices) && j < |choices| && p < n
    ensures var log := Run(n, choices).log;
            log[j].clock[p] == |PastOf(log, j, p)|
  {
    RunKeepsInv(n, choices);
    var log := Run(n, choices).log;
    RanksAreCounted(log, p, log[j].clock[p]);
    forall i: nat | i < |log| && log[i].pid == p
      ensures i in PastOf(log, j, p) <==> i in RankedUpTo(log, p, log[j].clock[p])
    {
      assert Reaches(log[j].clock, log, i) <==> InPast(log, i, j);
    }
    assert PastOf(log, j, p) == RankedUpTo(log, p, log[j].clock[p]);
  }

  /** Nobody knows more about process p than p: its own component is its turn counter and bounds every other copy. */
  lemma OwnComponentLeads(n: nat, choices: seq<Choice>, p: nat)
    requires n > 0 && ValidChoices(n, choices) && p < n
    ensures var s := Run(n, choices);
            && s.clocks[p][p] == s.turnCount[p] == EventsOf(s.log, p)
            && (forall q :: 0 <= q < n ==> s.clocks[q][p] <= s.turnCount[p])
            && (forall q, k :: 0 <= q < n && 0 <= k < |s.inboxes[q]| ==> s.inboxes[q][k].clock[p] <= s.turnCount[p])
            && (forall i :: 0 <= i < |s.log| ==> s.log[i].clock[p] <= s.turnCount[p])
  {
    RunKeepsInv(n, choices);
    var s := Run(n, choices);
    assert ProcessInv(s.log, n, s.clocks[p], s.inboxes[p], s.turnCount[p], p);
    forall q | 0 <= q < n
      ensures s.clocks[q][p] <= s.turnCount[p]
      ensures forall k :: 0 <= k < |s.inboxes[q]| ==> s.inboxes[q][k].clock[p] <= s.turnCount[p]
    {
      assert ProcessInv(s.log, n, s.clocks[q], s.inboxes[q], s.turnCount[q], q);
      forall k | 0 <= k < |s.inboxes[q]|
        ensures s.inboxes[q][k].clock[p] <= s.turnCount[p]
      {
        assert IsMessageOf(s.log, s.inboxes[q][k], SendsTo(s.log, q)[Receives(s.log, q) + k]);
      }
    }
  }

  // ---------------------------------------------------------------- messages

  /** A receive comes causally after its message: the summary always prints "before". */
  lemma MessageIsBeforeReceive(n: nat, choices: seq<Choice>, j: nat)
    requires n > 0 && ValidChoices(n, choices) && j < |choices|
    requires Run(n, choices).log[j].kind.Recv?
    ensures var e := Run(n, choices).log[j];
            CompareClocks(e.kind.message, e.clock) == Before
  {
    RunKeepsInv(n, choices);
    var log := Run(n, choices).log;
    assert TakesSend(log, j);
    var o: nat :| Delivers(log, o, j) && log[j].kind == Recv(log[o].pid, log[o].clock);
    assert Edge(log, o, j);
    ClockOrderIsHappensBefore(n, choices, o, j);
  }

  function CountSends(log: Log): nat {
    if log == [] then 0 else CountSends(Front(log)) + if Last(log).kind.Send? then 1 else 0
  }

  function CountReceives(log: Log): nat {
    if log == [] then 0 else CountReceives(Front(log)) + if Last(log).kind.Recv? then 1 else 0
  }

  function Pending(inboxes: seq<seq<Message>>): nat {
    if inboxes == [] then 0 else Pending(inboxes[..|inboxes| - 1]) + |inboxes[|inboxes| - 1]|
  }

  lemma {:induction false} PendingAfterUpdate(inboxes: seq<seq<Message>>, p: nat, inbox: seq<Message>)
    requires p < |inboxes|
    ensures Pending(inboxes[p := inbox]) == Pending(inboxes) - |inboxes[p]| + |inbox|
  {
    var last := |inboxes| - 1;
    if p == last {
      assert inboxes[p := inbox][..last] == inboxes[..last];
    } else {
      PendingAfterUpdate(inboxes[..last], p, inbox);
      assert inboxes[p := inbox][..last] == inboxes[..last][p := inbox];
    }
  }

  lemma {:induction false} NothingPending(inboxes: seq<seq<Message>>)
    requires forall p :: 0 <= p < |inboxes| ==> inboxes[p] == []
    ensures Pending(inboxes) == 0
  {
    if inboxes == [] {
    } else {
      NothingPending(inboxes[..|inboxes| - 1]);
    }
  }

  lemma TurnConservesMessages(s: State, n: nat, pid: nat, choice: Choice)
    requires Sized(s, n) && pid < n && Drawn(s, n, pid, choice)
    requires CountSends(s.log) == CountReceives(s.log) + Pending(s.inboxes)
    ensures var s' := TakeTurn(s, n, pid, choice);
            CountSends(s'.log) == CountReceives(s'.log) + Pending(s'.inboxes)
  {
    var s' := TakeTurn(s, n, pid, choice);
    var e := Last(s'.log);
    CountsAfterEvent(s.log, e);
    TurnMovesMessages(s, n, pid, choice);
    if e.kind.Recv? {
      PendingAfterUpdate(s.inboxes, pid, s.inboxes[pid][1..]);
    } else if e.kind.Send? {
      PendingAfterUpdate(s.inboxes, choice.target, s'.inboxes[choice.target]);
    }
  }

  /** A turn logs one event; a receive shortens the own inbox by one, a send lengthens that of its target. */
  lemma TurnMovesMessages(s: State, n: nat, pid: nat, choice: Choice)
    requires Sized(s, n) && pid < n && Drawn(s, n, pid, choice)
    ensures var s' := TakeTurn(s, n, pid, choice);
            && s'.log != []
            && var e := Last(s'.log);
            && s'.log == s.log + [e]
            && (e.kind.Recv? ==> s.inboxes[pid] != [] && s'.inboxes == s.inboxes[pid := s.inboxes[pid][1..]])
            && (e.kind.Send? ==> var to := choice.target;
                  |s'.inboxes[to]| == |s.inboxes[to]| + 1 && s'.inboxes == s.inboxes[to := s'.inboxes[to]])
            && (e.kind.Local? ==> s'.inboxes == s.inboxes)
  {
  }

  lemma CountsAfterEvent(log: Log, e: Event)
    ensures CountSends(log + [e]) == CountSends(log) + if e.kind.Send? then 1 else 0
    ensures CountReceives(log + [e]) == CountReceives(log) + if e.kind.Recv? then 1 else 0
  {
    assert Front(log + [e]) == log;
  }

  /** No message is lost or invented: sends are receives plus what still waits in the inboxes. */
  lemma {:induction false} MessagesAreConserved(n: nat, choices: seq<Choice>)
    requires n > 0 && ValidChoices(n, choices)
    ensures var s := Run(n, choices);
            CountSends(s.log) == CountReceives(s.log) + Pending(s.inboxes)
  {
    if choices == [] {
      NothingPending(Initial(n).inboxes);
    } else {
      var t := |choices| - 1;
      MessagesAreConserved(n, choices[..t]);
      TurnConservesMessages(Run(n, choices[..t]), n, Owner(n, t), choices[t]);
    }
  }

  // ---------------------------------------------------------------- the first two rounds

  /** The unit clock of process p. */
  function Unit(n: nat, p: nat): Clock
    requires p < n
  {
    Zero(n)[p := 1]
  }

  /** In the first round nothing has been sent yet, so every process takes a local step. */
  ghost predicate InFirstRound(s: State, n: nat, turns: nat)
    requires Sized(s, n)
  {
    && |s.log| == turns <= n
    && (forall p :: 0 <= p < n ==> s.inboxes[p] == [])
    && (forall p :: 0 <= p < n ==> s.turnCount[p] == if p < turns then 1 else 0)
    && (forall p :: turns <= p < n ==> s.clocks[p] == Zero(n))
    && (forall i :: 0 <= i < turns ==> s.log[i] == Event(i, Local, Unit(n, i)))
  }

  lemma FirstTurnIsLocal(s: State, n: nat, pid: nat, choice: Choice)
    requires Sized(s, n) && pid < n && Drawn(s, n, pid, choice) && InFirstRound(s, n, pid)
    ensures InFirstRound(TakeTurn(s, n, pid, choice), n, pid + 1)
  {
  }

  lemma {:induction false} FirstRoundIsLocal(n: nat, choices: seq<Choice>)
    requires n > 0 && ValidChoices(n, choices) && |choices| <= n
    ensures InFirstRound(Run(n, choices), n, |choices|)
  {
    if choices == [] {
    } else {
      var t := |choices| - 1;
      FirstRoundIsLocal(n, choices[..t]);
      FirstTurnIsLocal(Run(n, choices[..t]), n, t, choices[t]);
    }
  }

  lemma TurnExtendsLog(s: State, n: nat, pid: nat, choice: Choice)
    requires Sized(s, n) && pid < n && Drawn(s, n, pid, choice)
    ensures var log := TakeTurn(s, n, pid, choice).log;
            |log| == |s.log| + 1 && log[..|s.log|] == s.log
  {
  }

  lemma {:induction false} LogGrows(n: nat, choices: seq<Choice>, t: nat)
    requires n > 0 && ValidChoices(n, choices) && t <= |choices|
    ensures Run(n, choices[..t]).log == Run(n, choices).log[..t]
    decreases |choices|
  {
    if t == |choices| {
      assert choices[..t] == choices;
    } else {
      var front := choices[..|choices| - 1];
      LogGrows(n, front, t);
      assert front[..t] == choices[..t];
      TurnExtendsLog(Run(n, front), n, Owner(n, |choices| - 1), choices[|choices| - 1]);
    }
  }

  lemma UnitsAreConcurrent(n: nat, p: nat, q: nat)
    requires p < n && q < n && p != q
    ensures CompareClocks(Unit(n, p), Unit(n, q)) == Concurrent
  {
    assert Unit(n, p)[p] > Unit(n, q)[p];
    assert Unit(n, q)[q] > Unit(n, p)[q];
  }

  lemma FirstRoundOfLog(n: nat, choices: seq<Choice>, p: nat)
    requires n > 0 && ValidChoices(n, choices) && p < n && p < |choices|
    ensures Run(n, choices).log[p] == Event(p, Local, Unit(n, p))
    ensures EventsOf(Run(n, choices).log[..p], p) == 0
  {
    var t := if n <= |choices| then n else |choices|;
    var log, first := Run(n, choices).log, Run(n, choices[..t]).log;
    FirstRoundIsLocal(n, choices[..t]);
    LogGrows(n, choices, t);
    assert log[p] == first[p];
    assert log[..p] == first[..p];
    NoEventBefore(first, p, p);
  }

  /** The first event of every process is a local one, and no two of them are comparable. */
  lemma FirstEventsAreConcurrent(n: nat, choices: seq<Choice>, p: nat, q: nat)
    requires n > 0 && ValidChoices(n, choices) && p < |choices| && q < |choices|
    requires p < n && q < n && p != q
    ensures var log := Run(n, choices).log;
            && log[p].pid == p && log[q].pid == q
            && EventsOf(log[..p], p) == EventsOf(log[..q], q) == 0
            && CompareClocks(log[p].clock, log[q].clock) == Concurrent
  {
    FirstRoundOfLog(n, choices, p);
    FirstRoundOfLog(n, choices, q);
    UnitsAreConcurrent(n, p, q);
  }

  /** The same, in terms of the histories that the program keeps. */
  lemma FirstOfHistoriesAreConcurrent(n: nat, choices: seq<Choice>, p: nat, q: nat)
    requires n > 0 && ValidChoices(n, choices) && p < |choices| && q < |choices|
    requires p < n && q < n && p != q
    ensures var log := Run(n, choices).log;
            && History(log, p) != [] && History(log, q) != []
            && CompareClocks(History(log, p)[0].clock, History(log, q)[0].clock) == Concurrent
  {
    var log := Run(n, choices).log;
    FirstEventsAreConcurrent(n, choices, p, q);
    LogIsInHistory(log, p);
    LogIsInHistory(log, q);
  }

  /** The history of process p begins with its turn in the first round. */
  lemma HistoryBegins(n: nat, choices: seq<Choice>, p: nat)
    requires n > 0 && ValidChoices(n, choices) && p < n
    ensures History(Run(n, choices).log, p) != [] <==> p < |choices|
  {
    var log := Run(n, choices).log;
    if p < |choices| {
      FirstRoundOfLog(n, choices, p);
      LogIsInHistory(log, p);
    } else if History(log, p) != [] {
      FirstRoundIsLocal(n, choices);
      var i := HistoryIsLogged(log, p, 0);
    }
  }

  lemma {:induction false} NoEventBefore(log: Log, p: nat, k: nat)
    requires k <= p <= |log| && forall i :: 0 <= i < p ==> log[i].pid == i
    ensures EventsOf(log[..k], p) == 0
  {
    if k == 0 {
    } else {
      NoEventBefore(log, p, k - 1);
      assert Front(log[..k]) == log[..k - 1];
    }
  }

  lemma WaitingMessageStays(s: State, n: nat, pid: nat, choice: Choice, p: nat)
    requires Sized(s, n) && pid < n && Drawn(s, n, pid, choice) && p < n
    requires s.inboxes[p] != [] && pid != p
    ensures TakeTurn(s, n, pid, choice).inboxes[p] != []
  {
  }

  lemma SecondTurnSends(s: State, n: nat, choice: Choice)
    requires Sized(s, n) && n > 1 && ValidChoice(n, 0, choice) && InFirstRound(s, n, n)
    ensures TakeTurn(s, n, 0, choice).inboxes[choice.target] != []
  {
  }

  lemma SecondRoundOwner(n: nat, p: nat)
    requires p < n
    ensures Owner(n, n + p) == p
  {
    OwnerInRound(n, 1, p);
  }

  lemma SecondRoundTurn(n: nat, choices: seq<Choice>, p: nat)
    requires n > 1 && ValidChoices(n, choices) && |choices| == n + p + 1 && p < n
    ensures Drawn(Run(n, choices[..n + p]), n, p, choices[n + p])
    ensures Run(n, choices) == TakeTurn(Run(n, choices[..n + p]), n, p, choices[n + p])
  {
    SecondRoundOwner(n, p);
    assert ValidChoice(n, Owner(n, n + p), choices[n + p]);
  }

  lemma FirstMessageIsSent(n: nat, choices: seq<Choice>)
    requires n > 1 && ValidChoices(n, choices) && |choices| == n + 1
    ensures choices[n].target < n && Run(n, choices).inboxes[choices[n].target] != []
  {
    SecondRoundOwner(n, 0);
    FirstRoundIsLocal(n, choices[..n]);
    SecondTurnSends(Run(n, choices[..n]), n, choices[n]);
  }

  /** The second turn of process 0 is a send, which waits in an inbox until its target's turn in the same round. */
  lemma {:induction false} FirstMessageWaits(n: nat, choices: seq<Choice>, p: nat, to: nat)
    requires n > 1 && ValidChoices(n, choices) && |choices| == n + p + 1
    requires p < to < n && choices[n].target == to
    ensures Run(n, choices).inboxes[to] != []
  {
    if p == 0 {
      FirstMessageIsSent(n, choices);
    } else {
      FirstMessageWaits(n, choices[..n + p], p - 1, to);
      SecondRoundTurn(n, choices, p);
      WaitingMessageStays(Run(n, choices[..n + p]), n, p, choices[n + p], to);
    }
  }

  lemma WaitingTurnReceives(s: State, n: nat, pid: nat, choice: Choice)
    requires Sized(s, n) && pid < n && Drawn(s, n, pid, choice) && s.inboxes[pid] != []
    ensures var log := TakeTurn(s, n, pid, choice).log;
            |log| == |s.log| + 1 && log[|s.log|].kind.Recv?
  {
  }

  /** The target of that first message receives it, or an earlier one, when its turn comes. */
  lemma SecondRoundReceives(n: nat, choices: seq<Choice>, p: nat)
    requires n > 1 && ValidChoices(n, choices) && |choices| == n + p + 1
    requires 0 < p < n && choices[n].target == p
    ensures Run(n, choices).log[n + p].kind.Recv?
  {
    FirstMessageWaits(n, choices[..n + p], p - 1, p);
    SecondRoundTurn(n, choices, p);
    WaitingTurnReceives(Run(n, choices[..n + p]), n, p, choices[n + p]);
  }

  /** Two rounds of two or more processes always contain a receive. */
  lemma TwoRoundsReceive(n: nat, choices: seq<Choice>)
    requires n > 1 && ValidChoices(n, choices) && n + n <= |choices|
    ensures exists j :: 0 <= j < n + n && Run(n, choices).log[j].kind.Recv?
  {
    var p := choices[n].target;
    SecondRoundOwner(n, 0);
    assert ValidChoice(n, Owner(n, n), choices[n]);
    SecondRoundReceives(n, choices[..n + p + 1], p);
    LogGrows(n, choices, n + p + 1);
    assert Run(n, choices).log[..n + p + 1][n + p] == Run(n, choices).log[n + p];
  }
}
