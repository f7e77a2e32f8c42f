/** The simulation program: the processes' clocks change in place, turn after turn. */
module VectorClockSimulation {
  import opened Wrappers
  import opened Arithmetic
  import opened VectorClock
  import opened CausalHistory
  import opened VectorClockRun
  import opened VectorClockProperties

  class Simulation {
    const n: nat
    var clocks: seq<array<nat>>
    var inboxes: seq<seq<Message>>
    var turnCount: seq<nat>
    var history: seq<seq<Event>>

    ghost var choices: seq<Choice>  // the outcomes of the random choices so far

    ghost predicate Separate()
      reads this
    {
      && |clocks| == n
      && forall p, q :: 0 <= p < q < n ==> clocks[p] != clocks[q]
    }

    /** The state is the one that the choices lead to, and the history is the log split by process. */
    ghost predicate Valid()
      reads this, clocks
    {
      && n > 0
      && ValidChoices(n, choices)
      && Separate()
      && Agrees(Run(n, choices))
    }

    ghost predicate Agrees(s: State)
      requires |clocks| == n
      reads this, clocks
    {
      && |s.clocks| == n
      && (forall p :: 0 <= p < n ==> clocks[p][..] == s.clocks[p])
      && inboxes == s.inboxes
      && turnCount == s.turnCount
      && |history| == n
      && (forall p :: 0 <= p < n ==> history[p] == History(s.log, p))
    }

    constructor (n: nat)
      requires n > 0
      ensures this.n == n && Valid() && choices == []
      ensures |clocks| == |inboxes| == |turnCount| == |history| == n
      ensures forall p :: 0 <= p < n ==>
        clocks[p][..] == Zero(n) && inboxes[p] == [] && turnCount[p] == 0 && history[p] == []
      ensures fresh(clocks)
    {
      this.n := n;
      inboxes := seq(n, p => []);
      turnCount := seq(n, p => 0);
      history := seq(n, p => []);
      choices := [];
      clocks := [];
      new;
      for p := 0 to n
        invariant |clocks| == p && fresh(clocks)
        invariant choices == [] && inboxes == seq(n, p => []) && turnCount == seq(n, p => 0)
        invariant history == seq(n, p => [])
        invariant forall q :: 0 <= q < p ==> clocks[q][..] == Zero(n)
        invariant forall q, r :: 0 <= q < r < p ==> clocks[q] != clocks[r]
      {
        var clock := NewClock(n);
        clocks := clocks + [clock];
      }
    }

    method Receive(pid: nat)
      requires Separate() && |inboxes| == |history| == n && pid < n
      requires inboxes[pid] != [] && clocks[pid].Length == n == |inboxes[pid][0].clock|
      modifies `inboxes, `history, clocks[pid]
      ensures var message := old(inboxes)[pid][0];
              && clocks[pid][..] == Ticked(Merged(old(clocks[pid][..]), message.clock), pid)
              && inboxes == old(inboxes)[pid := old(inboxes)[pid][1..]]
              && history == old(history)[pid := old(history)[pid] +
                                                [Event(pid, Recv(message.sender, message.clock), clocks[pid][..])]]
    {
      var message := inboxes[pid][0];
      inboxes := inboxes[pid := inboxes[pid][1..]];
      Merge(clocks[pid], message.clock);
      Tick(clocks[pid], pid);
      history := history[pid := history[pid] + [Event(pid, Recv(message.sender, message.clock), clocks[pid][..])]];
    }

    method SendTo(pid: nat, target: nat)
      requires Separate() && |inboxes| == |history| == n && pid < n && target < n
      requires clocks[pid].Length == n
      modifies `inboxes, `history, clocks[pid]
      ensures clocks[pid][..] == Ticked(old(clocks[pid][..]), pid)
      ensures inboxes == old(inboxes)[target := old(inboxes)[target] + [Message(pid, clocks[pid][..])]]
      ensures history == old(history)[pid := old(history)[pid] + [Event(pid, Send(target), clocks[pid][..])]]
    {
      Tick(clocks[pid], pid);
      inboxes := inboxes[target := inboxes[target] + [Message(pid, clocks[pid][..])]];
      history := history[pid := history[pid] + [Event(pid, Send(target), clocks[pid][..])]];
    }

    method LocalStep(pid: nat)
      requires Separate() && |history| == n && pid < n && clocks[pid].Length == n
      modifies `history, clocks[pid]
      ensures clocks[pid][..] == Ticked(old(clocks[pid][..]), pid)
      ensures history == old(history)[pid := old(history)[pid] + [Event(pid, Local, clocks[pid][..])]]
    {
      Tick(clocks[pid], pid);
      history := history[pid := history[pid] + [Event(pid, Local, clocks[pid][..])]];
    }

    /** The effect of a turn on any state that this object agrees with. */
    method Act(pid: nat, choice: Choice, ghost s: State)
      requires Separate() && Sized(s, n) && Agrees(s) && pid < n && Drawn(s, n, pid, choice)
      modifies `inboxes, `turnCount, `history, clocks[pid]
      ensures Agrees(TakeTurn(s, n, pid, choice))
    {
      ghost var log := TakeTurn(s, n, pid, choice).log;
      assert Front(log) == s.log;
      assert clocks[pid].Length == |clocks[pid][..]| == n;
      match DecideAction(pid, turnCount[pid], inboxes[pid] != [], choice.send) {
        case DoRecv => Receive(pid);
        case DoSend => SendTo(pid, choice.target);
        case DoLocal => LocalStep(pid);
      }
      turnCount := turnCount[pid := turnCount[pid] + 1];
      assert forall p :: 0 <= p < n && p != pid ==> clocks[p] != clocks[pid];
    }

    /** One turn of the process whose turn it is, with the given outcome of the random choices. */
    method Turn(pid: nat, choice: Choice)
      requires Valid() && pid == Owner(n, |choices|)
      requires |choices| >= n ==> ValidChoice(n, pid, choice)
      modifies this, clocks
      ensures Valid() && clocks == old(clocks)
      ensures choices == old(choices) + [choice]
    {
      RunOneMore(n, choices, choice);
      Act(pid, choice, Run(n, choices));
      choices := choices + [choice];
    }

    /** The turn after t turns, with the given outcomes of the random choices. */
    method TurnAt(pid: nat, t: nat, draws: seq<Choice>)
      requires Valid() && pid == Owner(n, t) && t < |draws| && choices == draws[..t]
      requires t >= n ==> ValidChoice(n, pid, draws[t])
      modifies this, clocks
      ensures Valid() && clocks == old(clocks) && choices == draws[..t + 1]
    {
      Turn(pid, draws[t]);
      assert draws[..t] + [draws[t]] == draws[..t + 1];
    }

    method Round(ghost round: nat, base: nat, draws: seq<Choice>)
      requires Valid() && base == round * n && base + n <= |draws| && ValidChoices(n, draws) && choices == draws[..base]
      modifies this, clocks
      ensures Valid() && clocks == old(clocks) && choices == draws[..base + n]
    {
      for pid := 0 to n
        invariant Valid() && clocks == old(clocks) && choices == draws[..base + pid]
      {
        OwnerInRound(n, round, pid);
        TurnAt(pid, base + pid, draws);
      }
    }

    /** All rounds; a single process would find nobody to send to in its second round, and has no valid draws for it. */
    method Rounds(rounds: nat, draws: seq<Choice>)
      requires Valid() && choices == [] && ValidChoices(n, draws) && |draws| == rounds * n
      modifies this, clocks
      ensures Valid() && choices == draws
    {
      for round := 0 to rounds
        invariant Valid() && clocks == old(clocks) && round * n <= |draws| && choices == draws[..round * n]
      {
        NextMultiple(n, round);
        RoundFits(round, rounds, n);
        Round(round, round * n, draws);
      }
      assert draws[..rounds * n] == draws;
    }

    lemma HistoriesBegin()
      requires Valid()
      ensures forall p: nat :: p < n ==> p < |history| && (history[p] != [] <==> p < |choices|)
    {
      forall p: nat | p < n
        ensures p < |history| && (history[p] != [] <==> p < |choices|)
      {
        HistoryBegins(n, choices, p);
      }
    }

    ghost predicate FoundConcurrent(results: map<(nat, nat), Order>, p: nat, q: nat) {
      (p, q) in results && results[(p, q)] == Concurrent
    }

    /** Two first events are compared; in an empty history there is an index error. */
    method CompareFirst(p: nat, q: nat) returns (r: Result<Order, nat>)
      requires Valid() && p < q < n
      ensures r == if q < |choices| then Ok(Concurrent) else if p < |choices| then Err(q) else Err(p)
    {
      HistoriesBegin();
      if history[p] == [] {
        return Err(p);
      }
      if history[q] == [] {
        return Err(q);
      }
      FirstOfHistoriesAreConcurrent(n, choices, p, q);
      return Ok(CompareClocks(history[p][0].clock, history[q][0].clock));
    }

    /**
     The first part of the summary: the first events of every two processes are found concurrent.  Without a whole round
     there is an index error in the first history that is empty.
     */
    method CompareFirstEvents() returns (r: Result<map<(nat, nat), Order>, nat>)
      requires Valid()
      ensures r.Ok? <==> n == 1 || n <= |choices|
      ensures r.Ok? ==> forall p: nat, q: nat :: p < q < n ==> FoundConcurrent(r.value, p, q)
      ensures r.Err? ==> r.error == |choices|
    {
      var results: map<(nat, nat), Order> := map[];
      for p := 0 to n
        invariant p > 0 && n > 1 ==> n <= |choices|
        invariant forall i: nat, j: nat :: i < p && i < j < n ==> FoundConcurrent(results, i, j)
      {
        for q := p + 1 to n
          invariant p > 0 ==> n <= |choices|
          invariant q <= |choices| || q == 1
          invariant forall i: nat, j: nat ::
              (i < p && i < j < n) || (i == p && i < j < q) ==> FoundConcurrent(results, i, j)
        {
          var compared := CompareFirst(p, q);
          match compared {
            case Err(e) => return Err(e);
            case Ok(order) =>
              ghost var before := results;
              results := results[(p, q) := order];
              assert forall i: nat, j: nat :: FoundConcurrent(before, i, j) ==> FoundConcurrent(results, i, j);
              assert FoundConcurrent(results, p, q);
          }
        }
      }
      return Ok(results);
    }

    ghost predicate ReceivesAreAfterMessages(p: nat)
      reads this
      requires p < |history|
    {
      forall k :: 0 <= k < |history[p]| && history[p][k].kind.Recv? ==>
        CompareClocks(history[p][k].kind.message, history[p][k].clock) == Before
    }

    lemma ReceivesComeAfterMessages(p: nat)
      requires Valid() && p < n
      ensures p < |history| && ReceivesAreAfterMessages(p)
    {
      var log := Run(n, choices).log;
      forall k | 0 <= k < |history[p]| && history[p][k].kind.Recv?
        ensures CompareClocks(history[p][k].kind.message, history[p][k].clock) == Before
      {
        var j := HistoryIsLogged(log, p, k);
        MessageIsBeforeReceive(n, choices, j);
      }
    }

    lemma SomeReceive() returns (p: nat, k: nat)
      requires Valid() && n + n <= |choices|
      ensures p < n == |history| && k < |history[p]| && history[p][k].kind.Recv?
    {
      var log := Run(n, choices).log;
      assert n > 1 by {
        SingleProcessRunsOnce(choices);
      }
      TwoRoundsReceive(n, choices);
      var j :| 0 <= j < n + n && log[j].kind.Recv?;
      LogIsInHistory(log, j);
      p, k := log[j].pid, EventsOf(log[..j], log[j].pid);
    }

    /** The received messages of one process, each compared with the clock after its receive. */
    method CompareReceivesOf(p: nat) returns (results: seq<Order>)
      requires p < |history| && ReceivesAreAfterMessages(p)
      ensures results == Befores(ReceivesIn(history[p]))
    {
      results := [];
      for i := 0 to |history[p]|
        invariant results == Befores(ReceivesIn(history[p][..i]))
      {
        var e := history[p][i];
        assert history[p][..i + 1][..i] == history[p][..i];
        if e.kind.Recv? {
          results := results + [CompareClocks(e.kind.message, e.clock)];
        }
      }
      assert history[p][..|history[p]|] == history[p];
    }

    /** The number of receives in the histories of the first k processes. */
    function ReceivesUpTo(k: nat): nat
      reads this
      requires k <= |history|
    {
      if k == 0 then 0 else ReceivesUpTo(k - 1) + ReceivesIn(history[k - 1])
    }

    lemma {:induction false} ReceiveIsCounted(p: nat, i: nat, k: nat)
      requires p < k <= |history| && i < |history[p]| && history[p][i].kind.Recv?
      ensures ReceivesUpTo(k) > 0
    {
      if p == k - 1 {
        ReceiveIsInHistory(history[p], i);
      } else {
        ReceiveIsCounted(p, i, k - 1);
      }
    }

    /** The second part of the summary: each received message is found to be before its receive. */
    method CompareReceives() returns (results: seq<Order>)
      requires Valid()
      ensures |history| == n && results == Befores(ReceivesUpTo(n))
      ensures n + n <= |choices| ==> results != []
    {
      if n + n <= |choices| {
        ghost var p, i := SomeReceive();
        ReceiveIsCounted(p, i, n);
      }
      results := [];
      for p := 0 to n
        invariant results == Befores(ReceivesUpTo(p))
      {
        ReceivesComeAfterMessages(p);
        var more := CompareReceivesOf(p);
        results := results + more;
      }
    }
  }

  /** "before", as often as given. */
  function Befores(k: nat): (r: seq<Order>)
    ensures |r| == k
  {
    seq(k, i => Before)
  }

  /** The number of receives in a history. */
  function ReceivesIn(events: seq<Event>): nat {
    if events == [] then 0
    else ReceivesIn(events[..|events| - 1]) + if events[|events| - 1].kind.Recv? then 1 else 0
  }

  lemma {:induction false} ReceiveIsInHistory(events: seq<Event>, i: nat)
    requires i < |events| && events[i].kind.Recv?
    ensures ReceivesIn(events) > 0
  {
    if i == |events| - 1 {
    } else {
      ReceiveIsInHistory(events[..|events| - 1], i);
    }
  }
}
