/** The server object and the simulation program that drives it round after round. */
module CentralServerSimulation {
  import opened Wrappers
  import opened Arithmetic
  import opened CentralServer

  class Server {
    var holder: Option<nat>
    var queue: seq<nat>

    constructor ()
      ensures holder == None && queue == []
    {
      holder, queue := None, [];
    }

    method RequestBy(pid: nat) returns (granted: bool)
      modifies this
      ensures granted <==> old(holder) == None
      ensures granted ==> holder == Some(pid) && queue == old(queue)
      ensures !granted ==> holder == old(holder) && queue == old(queue) + [pid]
    {
      if holder.None? {
        holder := Some(pid);
        return true;
      }
      queue := queue + [pid];
      return false;
    }

    /** The server trusts its caller: it frees the resource whoever asks, and hands it to the first in the queue. */
    method ReleaseBy(pid: nat) returns (next: Option<nat>)
      modifies this
      ensures holder == next
      ensures old(queue) == [] ==> next == None && queue == []
      ensures old(queue) != [] ==> next == Some(old(queue)[0]) && queue == old(queue)[1..]
    {
      holder := None;
      if queue != [] {
        var first := queue[0];
        queue := queue[1..];
        holder := Some(first);
        return Some(first);
      }
      return None;
    }
  }

  class Simulation {
    const n: nat
    const server: Server
    var status: seq<Status>
    var holdLeft: seq<nat>
    var requests: nat
    var grants: nat

    ghost var choices: seq<Choice>  // the outcomes of the random choices so far

    ghost predicate Agrees(s: State)
      reads this, server
    {
      && server.holder == s.holder
      && server.queue == s.queue
      && status == s.status
      && holdLeft == s.holdLeft
      && requests == |s.requested|
      && grants == |s.granted|
    }

    /** The program is in the state that its random choices lead to. */
    ghost predicate Valid()
      reads this, server
    {
      n > 0 && ValidChoices(choices) && Agrees(Run(n, choices))
    }

    ghost predicate TurnOf(pid: nat)
      reads this
    {
      n > 0 && ValidChoices(choices) && Run(n, choices).next == pid
    }

    constructor (n: nat)
      requires n > 0
      ensures this.n == n && Valid() && choices == [] && TurnOf(0)
      ensures server.holder == None && server.queue == [] && requests == grants == 0
      ensures |status| == n && forall p :: 0 <= p < n ==> status[p] == Idle
      ensures fresh(server)
    {
      this.n := n;
      server := new Server();
      status := seq(n, p => Idle);
      holdLeft := seq(n, p => 0);
      requests, grants := 0, 0;
      choices := [];
    }

    /** The body of the inner loop, on any state that the program agrees with. */
    method Act(pid: nat, choice: Choice, ghost s: State)
      requires Inv(s, n) && Agrees(s) && s.next == pid && ValidChoice(choice)
      modifies `status, `holdLeft, `requests, `grants, server
      ensures Agrees(TakeTurn(s, n, choice))
    {
      match status[pid]
      case Idle =>
        if choice.asks {
          requests := requests + 1;
          var granted := server.RequestBy(pid);
          if granted {
            status := status[pid := Holding];
            holdLeft := holdLeft[pid := choice.hold];
            grants := grants + 1;
          } else {
            status := status[pid := Waiting];
          }
        }
      case Waiting =>
      case Holding =>
        holdLeft := holdLeft[pid := holdLeft[pid] - 1];
        if holdLeft[pid] == 0 {
          var next := server.ReleaseBy(pid);
          status := status[pid := Idle];
          if next.Some? {
            status := status[next.value := Holding];
            holdLeft := holdLeft[next.value := choice.hold];
            grants := grants + 1;
          }
        }
    }

    method Turn(pid: nat, choice: Choice)
      requires Valid() && TurnOf(pid) && pid < n && ValidChoice(choice)
      modifies this, server
      ensures Valid() && TurnOf(After(n, pid))
      ensures choices == old(choices) + [choice]
    {
      InitialInv(n);
      RunOneMore(Initial(n), n, choices, choice);
      Act(pid, choice, Run(n, choices));
      choices := choices + [choice];
    }

    /** All rounds, with the given outcomes of the random choices. */
    method Rounds(rounds: nat, draws: seq<Choice>)
      requires Valid() && choices == [] && ValidChoices(draws) && |draws| == rounds * n
      modifies this, server
      ensures Valid() && choices == draws
      // what the summary prints: requests, grants, and that mutual exclusion is guaranteed
      ensures requests == grants + |server.queue|
      ensures forall p, q :: 0 <= p < |status| && 0 <= q < |status| && status[p] == status[q] == Holding ==> p == q
    {
      RunIsAtFirst();
      for round := 0 to rounds
        invariant Valid() && TurnOf(0) && round * n <= |draws| && choices == draws[..round * n]
      {
        NextMultiple(n, round);
        RoundFits(round, rounds, n);
        Round(round * n, draws);
      }
      assert draws[..rounds * n] == draws;
      assert Inv(Run(n, choices), n);
    }

    lemma RunIsAtFirst()
      requires Valid() && choices == []
      ensures TurnOf(0)
    {
    }

    method Round(base: nat, draws: seq<Choice>)
      requires Valid() && TurnOf(0) && ValidChoices(draws) && base + n <= |draws| && choices == draws[..base]
      modifies this, server
      ensures Valid() && TurnOf(0) && choices == draws[..base + n]
    {
      for pid := 0 to n
        invariant Valid() && choices == draws[..base + pid] && TurnOf(if pid == n then 0 else pid)
      {
        Turn(pid, draws[base + pid]);
        assert draws[..base + pid] + [draws[base + pid]] == draws[..base + pid + 1];
      }
    }
  }
}
