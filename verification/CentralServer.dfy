/**
 Mutual exclusion through a central server with a first-in first-out queue.

 The simulation lets n processes take turns.  An idle process may request the resource, a waiting one waits, and the
 holder uses it for a few turns of its own and then releases it.
 */
module CentralServer {
  import opened Wrappers
  import opened Arithmetic

  datatype Status = Idle | Waiting | Holding

  const MAX_HOLD: nat := 3

  /** The random outcomes of a turn: does an idle process ask, and how long does a newly granted process hold. */
  datatype Choice = Choice(asks: bool, hold: nat)

  predicate ValidChoice(choice: Choice) {
    1 <= choice.hold <= MAX_HOLD
  }

  /** `requested` and `granted` list the processes in the order of their requests and grants. */
  datatype State = State(
    next: nat,
    holder: Option<nat>,
    queue: seq<nat>,
    status: seq<Status>,
    holdLeft: seq<nat>,
    requested: seq<nat>,
    granted: seq<nat>)

  predicate Sized(s: State, n: nat) {
    && s.next < n
    && |s.status| == |s.holdLeft| == n
    && (s.holder.Some? ==> s.holder.value < n)
    && (forall k :: 0 <= k < |s.queue| ==> s.queue[k] < n)
    && (forall p :: 0 <= p < n && s.status[p] == Holding ==> s.holdLeft[p] > 0)
  }

  function Initial(n: nat): State {
    State(0, None, [], seq(n, p => Idle), seq(n, p => 0), [], [])
  }

  function After(n: nat, pid: nat): nat {
    if pid + 1 == n then 0 else pid + 1
  }

  function Request(s: State, pid: nat): State {
    if s.holder.None? then s.(holder := Some(pid)) else s.(queue := s.queue + [pid])
  }

  function Release(s: State): State {
    if s.queue == [] then s.(holder := None) else s.(holder := Some(s.queue[0]), queue := s.queue[1..])
  }

  /** Process p has been granted the resource and will hold it for `hold` turns. */
  function Grant(s: State, p: nat, hold: nat): State
    requires p < |s.status| && p < |s.holdLeft|
  {
    s.(status := s.status[p := Holding], holdLeft := s.holdLeft[p := hold], granted := s.granted + [p])
  }

  /** An idle process asks, and holds at once or waits. */
  function Ask(s: State, pid: nat, hold: nat): State
    requires pid < |s.status| == |s.holdLeft|
  {
    var s' := Request(s, pid).(requested := s.requested + [pid]);
    if s.holder.None? then Grant(s', pid, hold) else s'.(status := s'.status[pid := Waiting])
  }

  /** The holder uses the resource; with its last use it releases it, and the first in the queue gets it. */
  function Use(s: State, pid: nat, hold: nat): State
    requires pid < |s.status| == |s.holdLeft| && s.holdLeft[pid] > 0
    requires forall k :: 0 <= k < |s.queue| ==> s.queue[k] < |s.status|
  {
    var s' := s.(holdLeft := s.holdLeft[pid := s.holdLeft[pid] - 1]);
    if s'.holdLeft[pid] > 0 then s'
    else
      var free := Release(s').(status := s'.status[pid := Idle]);
      if s.queue == [] then free else Grant(free, s.queue[0], hold)
  }

  function TakeTurn(s: State, n: nat, choice: Choice): State
    requires Sized(s, n)
  {
    var pid := s.next;
    var s' := match s.status[pid]
      case Idle => if choice.asks then Ask(s, pid, choice.hold) else s
      case Waiting => s
      case Holding => Use(s, pid, choice.hold);
    s'.(next := After(n, pid))
  }

  // ---------------------------------------------------------------- safety

  /** Mutual exclusion: exactly the process that the server calls its holder is holding, for at most MAX_HOLD turns. */
  ghost predicate Exclusive(s: State, n: nat)
    requires Sized(s, n)
  {
    && (forall p :: 0 <= p < n ==> (s.status[p] == Holding <==> s.holder == Some(p)))
    && (forall p :: 0 <= p < n && s.status[p] == Holding ==> s.holdLeft[p] <= MAX_HOLD)
  }

  /** The queue lists the waiting processes, each once, and nobody waits for a free resource. */
  ghost predicate Queued(s: State, n: nat)
    requires Sized(s, n)
  {
    && (forall p :: 0 <= p < n ==> (s.status[p] == Waiting <==> p in s.queue))
    && (forall i, j :: 0 <= i < j < |s.queue| ==> s.queue[i] != s.queue[j])
    && (s.holder.None? ==> s.queue == [])
  }

  /** Grants follow the order of the requests: what is not granted yet is the queue. */
  ghost predicate Fifo(s: State) {
    s.requested == s.granted + s.queue
  }

  ghost predicate Inv(s: State, n: nat) {
    Sized(s, n) && Exclusive(s, n) && Queued(s, n) && Fifo(s)
  }

  lemma InitialInv(n: nat)
    requires n > 0
    ensures Inv(Initial(n), n)
  {
  }

  lemma AskKeepsInv(s: State, n: nat, pid: nat, hold: nat)
    requires Inv(s, n) && pid < n && s.status[pid] == Idle && 1 <= hold <= MAX_HOLD
    ensures Inv(Ask(s, pid, hold), n)
  {
    var s' := Ask(s, pid, hold);
    if s.holder.Some? {
      assert s'.granted + s'.queue == (s.granted + s.queue) + [pid];
    } else {
      assert s'.granted + s'.queue == s'.granted;
    }
  }

  lemma RestOfQueue(queue: seq<nat>)
    requires queue != [] && forall i, j :: 0 <= i < j < |queue| ==> queue[i] != queue[j]
    ensures forall p :: p in queue[1..] <==> p in queue && p != queue[0]
    ensures forall i, j :: 0 <= i < j < |queue[1..]| ==> queue[1..][i] != queue[1..][j]
  {
    assert queue == [queue[0]] + queue[1..];
  }

  lemma HandOverKeepsInv(s: State, n: nat, pid: nat, hold: nat)
    requires Inv(s, n) && pid < n && s.status[pid] == Holding && s.queue != [] && 1 <= hold <= MAX_HOLD
    requires s.holdLeft[pid] == 1
    ensures Inv(Use(s, pid, hold), n)
  {
    var s', first := Use(s, pid, hold), s.queue[0];
    RestOfQueue(s.queue);
    assert s.queue == [first] + s.queue[1..];
    assert s'.granted + s'.queue == s.granted + ([first] + s.queue[1..]);
    assert s.status[first] == Waiting;
    assert s'.status == s.status[pid := Idle][first := Holding];
  }

  lemma UseKeepsInv(s: State, n: nat, pid: nat, hold: nat)
    requires Inv(s, n) && pid < n && s.status[pid] == Holding && 1 <= hold <= MAX_HOLD
    ensures Inv(Use(s, pid, hold), n)
  {
    if s.holdLeft[pid] == 1 && s.queue != [] {
      HandOverKeepsInv(s, n, pid, hold);
    }
  }

  lemma TurnKeepsInv(s: State, n: nat, choice: Choice)
    requires Inv(s, n) && ValidChoice(choice)
    ensures Inv(TakeTurn(s, n, choice), n)
  {
    match s.status[s.next] {
      case Idle =>
        if choice.asks {
          AskKeepsInv(s, n, s.next, choice.hold);
        }
      case Waiting =>
      case Holding => UseKeepsInv(s, n, s.next, choice.hold);
    }
  }

  // ---------------------------------------------------------------- what each turn does

  /** Nobody but process p has another status or number of turns left than before. */
  predicate OthersUnchanged(s: State, s': State, n: nat, p: nat)
    requires Sized(s, n) && Sized(s', n)
  {
    forall q :: 0 <= q < n && q != p ==> s'.status[q] == s.status[q] && s'.holdLeft[q] == s.holdLeft[q]
  }

  /** An idle process that asks is granted a free resource at once, for as many turns as drawn, and waits otherwise. */
  lemma AskingTurn(s: State, n: nat, choice: Choice)
    requires Inv(s, n) && ValidChoice(choice) && s.status[s.next] == Idle && choice.asks
    ensures var s', p := TakeTurn(s, n, choice), s.next;
            && Sized(s', n) && OthersUnchanged(s, s', n, p)
            && s'.requested == s.requested + [p]
            && (s.holder == None ==>
                  && s'.holder == Some(p) && s'.queue == []
                  && s'.status[p] == Holding && s'.holdLeft[p] == choice.hold && s'.granted == s.granted + [p])
            && (s.holder != None ==>
                  && s'.holder == s.holder && s'.queue == s.queue + [p]
                  && s'.status[p] == Waiting && s'.granted == s.granted)
  {
  }

  /** A process that does not ask, or waits, changes nothing. */
  lemma PassiveTurn(s: State, n: nat, choice: Choice)
    requires Inv(s, n) && ValidChoice(choice)
    requires s.status[s.next] == Waiting || (s.status[s.next] == Idle && !choice.asks)
    ensures TakeTurn(s, n, choice).(next := s.next) == s
  {
  }

  /** With turns left after this one the holder only uses one up. */
  lemma UsingTurn(s: State, n: nat, choice: Choice)
    requires Inv(s, n) && ValidChoice(choice) && s.status[s.next] == Holding && s.holdLeft[s.next] > 1
    ensures var s', p := TakeTurn(s, n, choice), s.next;
            && Sized(s', n) && OthersUnchanged(s, s', n, p)
            && s'.status[p] == Holding && s'.holdLeft[p] == s.holdLeft[p] - 1
            && s'.holder == s.holder && s'.queue == s.queue && s'.granted == s.granted && s'.requested == s.requested
  {
  }

  /** In its last turn the holder becomes idle, and the first in the queue holds, for as many turns as drawn. */
  lemma ReleasingTurn(s: State, n: nat, choice: Choice)
    requires Inv(s, n) && ValidChoice(choice) && s.status[s.next] == Holding && s.holdLeft[s.next] == 1
    ensures var s', p := TakeTurn(s, n, choice), s.next;
            && Sized(s', n) && s'.status[p] == Idle && s'.requested == s.requested
            && (s.queue == [] ==>
                  OthersUnchanged(s, s', n, p) && s'.holder == None && s'.queue == [] && s'.granted == s.granted)
            && (s.queue != [] ==>
                  var first := s.queue[0];
                  && s'.holder == Some(first) && s'.queue == s.queue[1..] && s'.granted == s.granted + [first]
                  && s'.status[first] == Holding && s'.holdLeft[first] == choice.hold
                  && forall q :: 0 <= q < n && q != p && q != first ==>
                       s'.status[q] == s.status[q] && s'.holdLeft[q] == s.holdLeft[q])
  {
    if s.queue != [] {
      assert s.status[s.queue[0]] == Waiting;
    }
  }

  /** The turns go round: after process p it is the turn of the next, and after the last that of the first. */
  lemma TurnsGoRound(s: State, n: nat, choice: Choice)
    requires Inv(s, n) && ValidChoice(choice)
    ensures TakeTurn(s, n, choice).next == (s.next + 1) % n
  {
    if s.next + 1 < n {
      SmallMod(s.next + 1, n);
    } else {
      DivModUnique(n, n, 1, 0);
    }
  }

  // ---------------------------------------------------------------- whole runs

  predicate ValidChoices(choices: seq<Choice>) {
    forall t :: 0 <= t < |choices| ==> ValidChoice(choices[t])
  }

  /** Every run from a state that keeps the invariant, one choice per turn. */
  function RunFrom(s: State, n: nat, choices: seq<Choice>): (s': State)
    requires Inv(s, n) && ValidChoices(choices)
    ensures Inv(s', n)
    decreases |choices|
  {
    if choices == [] then s
    else
      TurnKeepsInv(s, n, choices[0]);
      RunFrom(TakeTurn(s, n, choices[0]), n, choices[1..])
  }

  function Run(n: nat, choices: seq<Choice>): State
    requires n > 0 && ValidChoices(choices)
  {
    InitialInv(n);
    RunFrom(Initial(n), n, choices)
  }

  lemma {:induction false} RunOneMore(s: State, n: nat, choices: seq<Choice>, choice: Choice)
    requires Inv(s, n) && ValidChoices(choices) && ValidChoice(choice)
    ensures RunFrom(s, n, choices + [choice]) == TakeTurn(RunFrom(s, n, choices), n, choice)
    decreases |choices|
  {
    if choices == [] {
      assert [choice][1..] == [];
    } else {
      TurnKeepsInv(s, n, choices[0]);
      assert (choices + [choice])[1..] == choices[1..] + [choice];
      RunOneMore(TakeTurn(s, n, choices[0]), n, choices[1..], choice);
    }
  }

  /** In every run at most one process holds, requests are granted in their order, and all are accounted for. */
  lemma MutualExclusionAndFifo(n: nat, choices: seq<Choice>, p: nat, q: nat)
    requires n > 0 && ValidChoices(choices) && p < n && q < n
    ensures var s := Run(n, choices);
            && |s.status| == n
            && (s.status[p] == Holding && s.status[q] == Holding ==> p == q)
            && s.granted <= s.requested
            && s.requested[|s.granted|..] == s.queue
            && |s.requested| == |s.granted| + |s.queue|
  {
    var s := Run(n, choices);
    assert Fifo(s);
  }

  // ---------------------------------------------------------------- bounded waiting

  /** The turns that pass before process p has its next one. */
  function Ahead(n: nat, next: nat, p: nat): nat
    requires next < n && p < n
  {
    if next <= p then p - next else p + n - next
  }

  /** The number of turns after which the present holder will have released the resource. */
  function ReleaseIn(s: State, n: nat): nat
    requires Inv(s, n) && s.holder.Some?
  {
    Remaining(n, s.next, s.holder.value, s.holdLeft[s.holder.value])
  }

  /** The number of turns until process p has had `left` turns of its own. */
  function Remaining(n: nat, next: nat, p: nat, left: nat): nat
    requires next < n && p < n && left > 0
  {
    Ahead(n, next, p) + 1 + (left - 1) * n
  }

  lemma RemainingStep(n: nat, next: nat, p: nat, left: nat)
    requires next < n && p < n && left > 0 && !(next == p && left == 1)
    ensures Remaining(n, next, p, left) > 1
    ensures Remaining(n, After(n, next), p, left - if next == p then 1 else 0) == Remaining(n, next, p, left) - 1
  {
    if next == p {
      assert (left - 1) * n == (left - 2) * n + n;
    }
  }

  /** An upper bound on the turns before the process at index k of the queue is granted the resource. */
  function Rank(s: State, n: nat, k: nat): nat
    requires Inv(s, n) && k < |s.queue|
  {
    ReleaseIn(s, n) + k * (MAX_HOLD * n)
  }

  lemma ReleaseInIsBounded(s: State, n: nat)
    requires Inv(s, n) && s.holder.Some?
    ensures 1 <= ReleaseIn(s, n) <= MAX_HOLD * n
  {
    var left := s.holdLeft[s.holder.value];
    assert left == 1 || left == 2 || left == 3;
  }

  /** The process of this turn releases the resource. */
  predicate Releases(s: State, n: nat)
    requires Sized(s, n)
  {
    s.status[s.next] == Holding && s.holdLeft[s.next] == 1
  }

  lemma HolderGoesOn(s: State, n: nat, choice: Choice, p: nat)
    requires Inv(s, n) && ValidChoice(choice) && s.holder == Some(p) && !Releases(s, n)
    requires Inv(TakeTurn(s, n, choice), n)
    ensures var s' := TakeTurn(s, n, choice);
            && s'.holder == Some(p) && s'.next == After(n, s.next)
            && s'.holdLeft[p] == s.holdLeft[p] - (if s.next == p then 1 else 0)
            && ReleaseIn(s', n) == ReleaseIn(s, n) - 1 && ReleaseIn(s, n) > 1
  {
    RemainingStep(n, s.next, p, s.holdLeft[p]);
    if s.next == p {
      UsingTurn(s, n, choice);
    } else if s.status[s.next] == Idle && choice.asks {
      AskingTurn(s, n, choice);
    } else {
      PassiveTurn(s, n, choice);
    }
  }

  lemma WaitingGoOn(s: State, n: nat, choice: Choice, k: nat)
    requires Inv(s, n) && ValidChoice(choice) && k < |s.queue| && !Releases(s, n)
    ensures var s' := TakeTurn(s, n, choice);
            k < |s'.queue| && s'.queue[k] == s.queue[k]
  {
  }

  lemma OrdinaryTurnLowersRank(s: State, n: nat, choice: Choice, k: nat)
    requires Inv(s, n) && ValidChoice(choice) && k < |s.queue| && !Releases(s, n)
    requires Inv(TakeTurn(s, n, choice), n)
    ensures var s' := TakeTurn(s, n, choice);
            k < |s'.queue| && s'.queue[k] == s.queue[k] && Rank(s', n, k) == Rank(s, n, k) - 1
  {
    HolderGoesOn(s, n, choice, s.holder.value);
    WaitingGoOn(s, n, choice, k);
  }

  lemma ReleaseLowersRank(s: State, n: nat, choice: Choice, k: nat)
    requires Inv(s, n) && ValidChoice(choice) && k < |s.queue| && Releases(s, n)
    requires Inv(TakeTurn(s, n, choice), n)
    ensures var s' := TakeTurn(s, n, choice);
            && s'.holder == Some(s.queue[0])
            && s'.granted == s.granted + [s.queue[0]]
            && s'.holdLeft[s.queue[0]] == choice.hold
            && (k > 0 ==> k - 1 < |s'.queue| && s'.queue[k - 1] == s.queue[k] && Rank(s', n, k - 1) < Rank(s, n, k))
  {
    var s' := TakeTurn(s, n, choice);
    ReleasingTurn(s, n, choice);
    ReleaseInIsBounded(s', n);
    ReleaseInIsBounded(s, n);
    if k > 0 {
      assert k * (MAX_HOLD * n) == (k - 1) * (MAX_HOLD * n) + MAX_HOLD * n;
    }
  }

  lemma RunFromFirst(s: State, n: nat, choices: seq<Choice>, t: nat)
    requires Inv(s, n) && ValidChoices(choices) && t < |choices|
    requires Inv(TakeTurn(s, n, choices[0]), n)
    ensures RunFrom(s, n, choices[..t + 1]) == RunFrom(TakeTurn(s, n, choices[0]), n, choices[1..][..t])
  {
    assert choices[..t + 1][1..] == choices[1..][..t];
  }

  /** One turn grants the process at index k the resource, or brings it closer to that. */
  lemma TurnBringsCloser(s: State, n: nat, choice: Choice, k: nat) returns (granted: bool, k': nat)
    requires Inv(s, n) && ValidChoice(choice) && k < |s.queue|
    ensures var s', p := TakeTurn(s, n, choice), s.queue[k];
            && Inv(s', n) && p < n
            && (granted ==> s'.holder == Some(p) && s'.holdLeft[p] == choice.hold)
            && (!granted ==> k' < |s'.queue| && s'.queue[k'] == p && Rank(s', n, k') < Rank(s, n, k))
  {
    TurnKeepsInv(s, n, choice);
    granted, k' := false, k;
    if !Releases(s, n) {
      OrdinaryTurnLowersRank(s, n, choice, k);
    } else {
      ReleaseLowersRank(s, n, choice, k);
      granted, k' := k == 0, if k == 0 then 0 else k - 1;
    }
  }

  /** After t turns process p holds the resource, for as many turns as drawn in the last of them. */
  predicate GrantedAfter(s: State, n: nat, choices: seq<Choice>, p: nat, t: nat)
    requires Inv(s, n) && ValidChoices(choices) && p < n && 0 < t <= |choices|
  {
    var s' := RunFrom(s, n, choices[..t]);
    s'.holder == Some(p) && s'.status[p] == Holding && s'.holdLeft[p] == choices[t - 1].hold
  }

  lemma GrantedOneLater(s: State, n: nat, choices: seq<Choice>, p: nat, t: nat)
    requires Inv(s, n) && ValidChoices(choices) && p < n && 0 < t < |choices|
    requires Inv(TakeTurn(s, n, choices[0]), n) && GrantedAfter(TakeTurn(s, n, choices[0]), n, choices[1..], p, t)
    ensures GrantedAfter(s, n, choices, p, t + 1)
  {
    RunFromFirst(s, n, choices, t);
  }

  lemma GrantedInFirstTurn(s: State, n: nat, choices: seq<Choice>, p: nat)
    requires Inv(s, n) && ValidChoices(choices) && p < n && choices != [] && Inv(TakeTurn(s, n, choices[0]), n)
    requires var s' := TakeTurn(s, n, choices[0]);
             s'.holder == Some(p) && s'.holdLeft[p] == choices[0].hold
    ensures GrantedAfter(s, n, choices, p, 1)
  {
    RunFromFirst(s, n, choices, 0);
  }

  /** Within `Rank` turns the process at index k holds the resource, whatever the random choices are. */
  lemma {:induction false} GrantedWithinRank(s: State, n: nat, choices: seq<Choice>, k: nat) returns (t: nat)
    requires Inv(s, n) && ValidChoices(choices) && k < |s.queue| && Rank(s, n, k) <= |choices|
    ensures 0 < t <= Rank(s, n, k) && GrantedAfter(s, n, choices, s.queue[k], t)
    decreases |choices|
  {
    ReleaseInIsBounded(s, n);
    var granted, k' := TurnBringsCloser(s, n, choices[0], k);
    if granted {
      t := 1;
      GrantedInFirstTurn(s, n, choices, s.queue[k]);
    } else {
      t := GrantedWithinRank(TakeTurn(s, n, choices[0]), n, choices[1..], k');
      GrantedOneLater(s, n, choices, s.queue[k], t);
      t := t + 1;
    }
  }

  function NumbersBelow(n: nat): (s: set<nat>)
    ensures |s| == n && forall p: nat :: p in s <==> p < n
  {
    if n == 0 then {} else NumbersBelow(n - 1) + {n - 1}
  }

  function Elements(s: seq<nat>): set<nat> {
    set p | p in s
  }

  lemma {:induction false} DistinctElements(s: seq<nat>)
    requires forall i, j :: 0 <= i < j < |s| ==> s[i] != s[j]
    ensures |Elements(s)| == |s|
  {
    if s == [] {
      assert Elements(s) == {};
    } else {
      var front, last := s[..|s| - 1], s[|s| - 1];
      DistinctElements(front);
      assert s == front + [last];
      assert Elements(s) == Elements(front) + {last};
    }
  }

  /** Pigeonhole: distinct processes, all different from the holder, are fewer than n. */
  lemma DistinctBelow(s: seq<nat>, n: nat, holder: nat)
    requires holder < n && forall i :: 0 <= i < |s| ==> s[i] < n && s[i] != holder
    requires forall i, j :: 0 <= i < j < |s| ==> s[i] != s[j]
    ensures |s| < n
  {
    DistinctElements(s);
    var others := NumbersBelow(n) - {holder};
    assert |others| == n - 1;
    SubsetIsSmaller(Elements(s), others);
  }

  lemma {:induction false} SubsetIsSmaller<T>(a: set<T>, b: set<T>)
    requires a <= b
    ensures |a| <= |b|
  {
    if a == {} {
    } else {
      var x :| x in a;
      SubsetIsSmaller(a - {x}, b - {x});
    }
  }

  /**
   No starvation, with a bound: a process at index k of the queue is granted the resource within 3 n (k + 1) turns,
   and every waiting process within 3 (n - 1) rounds of n turns.
   */
  lemma BoundedWaiting(n: nat, before: seq<Choice>, after: seq<Choice>, k: nat) returns (t: nat)
    requires n > 0 && ValidChoices(before) && ValidChoices(after)
    requires k < |Run(n, before).queue| && (3 * n) * (k + 1) <= |after|
    ensures 0 < t <= (3 * n) * (k + 1) <= 3 * (n - 1) * n
    ensures GrantedAfter(Run(n, before), n, after, Run(n, before).queue[k], t)
  {
    var s := Run(n, before);
    ReleaseInIsBounded(s, n);
    assert Rank(s, n, k) <= (MAX_HOLD * n) * (k + 1);
    t := GrantedWithinRank(s, n, after, k);
    DistinctBelow(s.queue, n, s.holder.value);
    BoundInRounds(n, k);
  }

  lemma BoundInRounds(n: nat, k: nat)
    requires k + 1 < n
    ensures (MAX_HOLD * n) * (k + 1) <= MAX_HOLD * (n - 1) * n
  {
    assert n * (k + 1) <= n * (n - 1);
  }

  // ---------------------------------------------------------------- from the request to the release

  /** How many of the next turns are turns of process p. */
  function OwnTurns(n: nat, next: nat, p: nat, turns: nat): nat
    requires next < n && p < n
    decreases turns
  {
    if turns == 0 then 0 else OwnTurns(n, After(n, next), p, turns - 1) + if next == p then 1 else 0
  }

  lemma {:induction false} OwnTurnsRemaining(n: nat, next: nat, p: nat, left: nat)
    requires next < n && p < n && left > 0
    ensures OwnTurns(n, next, p, Remaining(n, next, p, left)) == left
    decreases Remaining(n, next, p, left)
  {
    if next == p && left == 1 {
      assert OwnTurns(n, After(n, next), p, 0) == 0;
    } else {
      RemainingStep(n, next, p, left);
      OwnTurnsRemaining(n, After(n, next), p, left - if next == p then 1 else 0);
    }
  }

  /** Process p holds during the first k turns, and is idle after them. */
  predicate HoldsFor(s: State, n: nat, choices: seq<Choice>, p: nat, k: nat)
    requires Inv(s, n) && ValidChoices(choices) && p < n && k <= |choices|
  {
    && (forall t :: 0 <= t < k ==> RunFrom(s, n, choices[..t]).holder == Some(p))
    && RunFrom(s, n, choices[..k]).status[p] == Idle
  }

  lemma HoldsForOneMore(s: State, n: nat, choices: seq<Choice>, p: nat, k: nat)
    requires Inv(s, n) && ValidChoices(choices) && p < n && k < |choices| && s.holder == Some(p)
    requires Inv(TakeTurn(s, n, choices[0]), n) && HoldsFor(TakeTurn(s, n, choices[0]), n, choices[1..], p, k)
    ensures HoldsFor(s, n, choices, p, k + 1)
  {
    forall t | 0 <= t < k + 1
      ensures RunFrom(s, n, choices[..t]).holder == Some(p)
    {
      if t > 0 {
        RunFromFirst(s, n, choices, t - 1);
      }
    }
    RunFromFirst(s, n, choices, k);
  }

  lemma LastTurnReleases(s: State, n: nat, choices: seq<Choice>, p: nat)
    requires Inv(s, n) && ValidChoices(choices) && s.holder == Some(p) && Releases(s, n) && choices != []
    ensures p < n && ReleaseIn(s, n) == 1 && HoldsFor(s, n, choices, p, 1)
  {
    TurnKeepsInv(s, n, choices[0]);
    ReleasingTurn(s, n, choices[0]);
    assert choices[1..][..0] == [];
    HoldsForOneMore(s, n, choices, p, 0);
  }

  /** The holder keeps the resource for exactly the turns of its own that it has left, and is idle then. */
  lemma {:induction false} HolderReleasesOnTime(s: State, n: nat, choices: seq<Choice>, p: nat)
    requires Inv(s, n) && ValidChoices(choices) && s.holder == Some(p) && ReleaseIn(s, n) <= |choices|
    ensures p < n && HoldsFor(s, n, choices, p, ReleaseIn(s, n))
    decreases |choices|
  {
    ReleaseInIsBounded(s, n);
    if Releases(s, n) {
      LastTurnReleases(s, n, choices, p);
    } else {
      TurnKeepsInv(s, n, choices[0]);
      HolderGoesOn(s, n, choices[0], p);
      HolderReleasesOnTime(TakeTurn(s, n, choices[0]), n, choices[1..], p);
      HoldsForOneMore(s, n, choices, p, ReleaseIn(s, n) - 1);
    }
  }

  /** Process p keeps the resource for k turns, of which as many are its own as it may hold it, and is idle then. */
  predicate UsesUp(s: State, n: nat, choices: seq<Choice>, p: nat, k: nat)
    requires Inv(s, n) && ValidChoices(choices) && p < n && k <= |choices|
  {
    OwnTurns(n, s.next, p, k) == s.holdLeft[p] && HoldsFor(s, n, choices, p, k)
  }

  lemma HolderUsesUp(s: State, n: nat, choices: seq<Choice>, p: nat) returns (k: nat)
    requires Inv(s, n) && ValidChoices(choices) && s.holder == Some(p) && 3 * n <= |choices|
    ensures p < n && k <= 3 * n && UsesUp(s, n, choices, p, k)
  {
    ReleaseInIsBounded(s, n);
    k := ReleaseIn(s, n);
    HolderReleasesOnTime(s, n, choices, p);
    OwnTurnsRemaining(n, s.next, p, s.holdLeft[p]);
  }

  lemma LastIsGranted(s: State, n: nat, choices: seq<Choice>, p: nat) returns (t: nat)
    requires Inv(s, n) && ValidChoices(choices) && s.queue != [] && s.queue[|s.queue| - 1] == p
    requires 3 * (n - 1) * n <= |choices|
    ensures 0 < t <= 3 * (n - 1) * n && p < n && GrantedAfter(s, n, choices, p, t)
  {
    var last := |s.queue| - 1;
    ReleaseInIsBounded(s, n);
    DistinctBelow(s.queue, n, s.holder.value);
    BoundInRounds(n, last);
    assert Rank(s, n, last) <= (MAX_HOLD * n) * (last + 1);
    t := GrantedWithinRank(s, n, choices, last);
  }

  /** Process p holds after t turns, for as many turns as drawn in the last of them, or in the turn before them. */
  predicate Served(s: State, n: nat, drawn: nat, choices: seq<Choice>, p: nat, t: nat)
    requires Inv(s, n) && ValidChoices(choices) && p < n && t <= |choices|
  {
    if t == 0 then s.holder == Some(p) && s.status[p] == Holding && s.holdLeft[p] == drawn
    else GrantedAfter(s, n, choices, p, t)
  }

  /** Process p holds, or is the last in the queue. */
  lemma AskedIsGranted(s: State, n: nat, drawn: nat, after: seq<Choice>, p: nat, bound: nat) returns (t: nat)
    requires Inv(s, n) && ValidChoices(after) && bound == 3 * (n - 1) * n && bound <= |after| && p < n
    requires if s.holder == Some(p) then s.holdLeft[p] == drawn else s.queue != [] && s.queue[|s.queue| - 1] == p
    ensures t <= bound && (t == 0 <==> s.holder == Some(p)) && Served(s, n, drawn, after, p, t)
    ensures RunFrom(s, n, after[..t]).holder == Some(p)
  {
    t := 0;
    if s.holder != Some(p) {
      t := LastIsGranted(s, n, after, p);
    } else {
      assert after[..0] == [];
    }
  }

  /**
   Whoever asks is served: an idle process that asks in its turn is granted the resource after t more turns, at once
   exactly if it is free and within 3 (n - 1) rounds otherwise, for as many turns of its own as were drawn in the turn
   of the grant; it keeps the resource for exactly that long, at most 3 rounds, and is idle then.
   */
  lemma AskerIsServed(s: State, n: nat, choice: Choice, asked: State, after: seq<Choice>, p: nat, bound: nat)
      returns (t: nat, k: nat)
    requires Inv(s, n) && ValidChoice(choice) && ValidChoices(after)
    requires p == s.next && s.status[p] == Idle && choice.asks && asked == TakeTurn(s, n, choice)
    requires bound == 3 * (n - 1) * n && bound + 3 * n <= |after|
    ensures Inv(asked, n) && t <= bound && k <= 3 * n
    ensures t == 0 <==> s.holder == None
    ensures Served(asked, n, choice.hold, after, p, t)
    ensures UsesUp(RunFrom(asked, n, after[..t]), n, after[t..], p, k)
  {
    AskingTurn(s, n, choice);
    TurnKeepsInv(s, n, choice);
    t := AskedIsGranted(asked, n, choice.hold, after, p, bound);
    k := HolderUsesUp(RunFrom(asked, n, after[..t]), n, after[t..], p);
  }
}
