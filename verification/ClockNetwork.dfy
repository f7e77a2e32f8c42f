/**
 Peers that run their cycles at the same time: every interleaving of reading the own clock, asking, answering, adjusting
 and drifting, while the time of the operating system goes on.
 */
module ClockNetwork {
  import opened Averaging
  import opened PeerReply
  import opened PeerNode

  /** A request on its way: unanswered, or answered with the peer's time and on its way back. */
  datatype Ask =
    | NoAsk
    | Asked(peer: nat, askedAt: real)
    | Answered(peer: nat, askedAt: real, stampedAt: real, stamp: real)

  datatype Phase =
    | Resting
    | Collecting(began: real, ownTime: real, samples: seq<real>, ask: Ask)

  datatype Node = Node(drift: real, offset: real, phase: Phase) {
    function Skew(): real {
      drift + offset
    }
  }

  /** `now` is the time of the operating system, which all peers share. */
  datatype State = State(now: real, nodes: seq<Node>)

  datatype Step =
    | Tick(dt: real)
    | Drift(node: nat, delta: real)
    | Begin(node: nat)
    | SendAsk(node: nat, peer: nat)
    | Answer(node: nat)
    | Receive(node: nat)
    | GiveUp(node: nat)
    | Finish(node: nat)

  function LocalTime(s: State, i: nat): real
    requires i < |s.nodes|
  {
    s.now + s.nodes[i].Skew()
  }

  predicate Enabled(s: State, step: Step) {
    match step
    case Tick(dt) => dt >= 0.0
    case Drift(i, delta) => i < |s.nodes| && s.nodes[i].phase.Resting?
    case Begin(i) => i < |s.nodes| && s.nodes[i].phase.Resting?
    case SendAsk(i, j) => Waits(s, i) && j < |s.nodes| && i != j
    case Answer(i) => Asks(s, i) && s.nodes[i].phase.ask.Asked? && s.nodes[i].phase.ask.peer < |s.nodes|
    case Receive(i) => Asks(s, i) && s.nodes[i].phase.ask.Answered?
    case GiveUp(i) => Asks(s, i)
    case Finish(i) => Waits(s, i) && s.nodes[i].phase.samples != []
  }

  /** Node i is in a cycle, with no request on its way. */
  predicate Waits(s: State, i: nat) {
    i < |s.nodes| && s.nodes[i].phase.Collecting? && s.nodes[i].phase.ask.NoAsk?
  }

  /** Node i is in a cycle, with a request on its way. */
  predicate Asks(s: State, i: nat) {
    i < |s.nodes| && s.nodes[i].phase.Collecting? && !s.nodes[i].phase.ask.NoAsk?
  }

  /** The peer's time, moved on by half of the round trip. */
  function Estimate(ask: Ask, now: real): real
    requires ask.Answered?
  {
    ask.stamp + (now - ask.askedAt) / 2.0
  }

  // ---------------------------------------------------------------- what a step does to its node

  function Drifted(node: Node, delta: real): Node {
    node.(drift := node.drift + delta)
  }

  /** A cycle begins with the own time as the first sample. */
  function Begun(node: Node, now: real): Node {
    var ownTime := now + node.Skew();
    node.(phase := Collecting(now, ownTime, [ownTime], NoAsk))
  }

  function WithAsk(node: Node, ask: Ask): Node
    requires node.phase.Collecting?
  {
    node.(phase := node.phase.(ask := ask))
  }

  function Stamped(ask: Ask, now: real, stamp: real): Ask
    requires ask.Asked?
  {
    Answered(ask.peer, ask.askedAt, now, stamp)
  }

  /** A reply is used if it is accepted. */
  function Received(node: Node, now: real): Node
    requires node.phase.Collecting? && node.phase.ask.Answered?
  {
    var phase := node.phase;
    var samples :=
      if Accepted(phase.ask.stamp, now + node.Skew()) then phase.samples + [Estimate(phase.ask, now)]
      else phase.samples;
    node.(phase := phase.(ask := NoAsk, samples := samples))
  }

  /** The correction goes into the offset; without a sample of somebody else there is none. */
  function Finished(node: Node): Node
    requires node.phase.Collecting? && node.phase.samples != []
  {
    var samples := node.phase.samples;
    var correction := if |samples| == 1 then 0.0 else Mean(samples) - node.phase.ownTime;
    Node(node.drift, node.offset + correction, Resting)
  }

  function Updated(s: State, i: nat, node: Node): State
    requires i < |s.nodes|
  {
    s.(nodes := s.nodes[i := node])
  }

  function Next(s: State, step: Step): State
    requires Enabled(s, step)
  {
    match step
    case Tick(dt) => s.(now := s.now + dt)
    case Drift(i, delta) => Updated(s, i, Drifted(s.nodes[i], delta))
    case Begin(i) => Updated(s, i, Begun(s.nodes[i], s.now))
    case SendAsk(i, j) => Updated(s, i, WithAsk(s.nodes[i], Asked(j, s.now)))
    case Answer(i) =>
      var ask := s.nodes[i].phase.ask;
      Updated(s, i, WithAsk(s.nodes[i], Stamped(ask, s.now, LocalTime(s, ask.peer))))
    case Receive(i) => Updated(s, i, Received(s.nodes[i], s.now))
    case GiveUp(i) => Updated(s, i, WithAsk(s.nodes[i], NoAsk))
    case Finish(i) => Updated(s, i, Finished(s.nodes[i]))
  }

  /** A request that is given up leaves the cycle as it is, without that reply. */
  lemma GiveUpKeepsCycle(s: State, i: nat)
    requires Enabled(s, GiveUp(i))
    ensures var node, node' := s.nodes[i], Next(s, GiveUp(i)).nodes[i];
            && node'.phase.Collecting? && node'.phase.ask == NoAsk
            && node'.phase.samples == node.phase.samples && node'.phase.ownTime == node.phase.ownTime
            && node'.phase.began == node.phase.began && node'.drift == node.drift && node'.offset == node.offset
  {
  }

  /** A step changes nobody but its node, and only the passing of time changes the time. */
  lemma StepIsLocal(s: State, step: Step, j: nat)
    requires Enabled(s, step) && j < |s.nodes|
    ensures var s' := Next(s, step);
            && |s'.nodes| == |s.nodes|
            && (step.Tick? || step.node != j ==> s'.nodes[j] == s.nodes[j])
            && s'.now == s.now + if step.Tick? then step.dt else 0.0
  {
  }

  /** Nothing holds a peer up: it can always begin, ask anybody else, wait for the answer or give up, and finish. */
  lemma PeersCanGoOn(s: State, i: nat)
    requires i < |s.nodes|
    ensures s.nodes[i].phase.Resting? ==> Enabled(s, Begin(i)) && forall delta :: Enabled(s, Drift(i, delta))
    ensures Waits(s, i) ==> (forall j: nat :: j < |s.nodes| && j != i ==> Enabled(s, SendAsk(i, j)))
    ensures Waits(s, i) && s.nodes[i].phase.samples != [] ==> Enabled(s, Finish(i))
    ensures Asks(s, i) ==> Enabled(s, GiveUp(i))
    ensures Asks(s, i) && s.nodes[i].phase.ask.Answered? ==> Enabled(s, Receive(i))
    ensures forall dt :: dt >= 0.0 ==> Enabled(s, Tick(dt))
  {
  }

  // ---------------------------------------------------------------- the hull

  /** The requests of a cycle that are done took their time one after the other, up to this time. */
  function BusyUntil(c: Phase, now: real): real
    requires c.Collecting?
  {
    if c.ask.NoAsk? then now else c.ask.askedAt
  }

  /**
   How late the samples are in all: each reply is at most as old as the cycle, and half of all round trips is added on
   top; the own time is neither late nor moved on.
   */
  predicate SumInHull(c: Phase, now: real, hi: real)
    requires c.Collecting? && c.samples != []
  {
    Sum(c.samples) <=
    Times(|c.samples|, c.began + hi) + Times(|c.samples| - 1, now - c.began) + (BusyUntil(c, now) - c.began) / 2.0
  }

  /** A cycle began at the own time; no sample is behind the slowest clock, or too far ahead of the fastest. */
  predicate CycleInHull(node: Node, now: real, lo: real, hi: real) {
    node.phase.Collecting? ==>
      var c := node.phase;
      && c.began <= now
      && c.ownTime == c.began + node.Skew()
      && c.samples != [] && c.samples[0] == c.ownTime
      && AllWithin(c.samples, c.began + lo, c.began + hi + 1.5 * (now - c.began))
      && SumInHull(c, now, hi)
      && (!c.ask.NoAsk? ==> c.began <= c.ask.askedAt <= now)
      && (c.ask.Answered? ==>
            c.ask.askedAt <= c.ask.stampedAt <= now && lo <= c.ask.stamp - c.ask.stampedAt <= hi)
  }

  predicate NodeInHull(node: Node, now: real, lo: real, hi: real) {
    lo <= node.Skew() <= hi && CycleInHull(node, now, lo, hi)
  }

  predicate Hull(s: State, lo: real, hi: real) {
    forall i :: 0 <= i < |s.nodes| ==> NodeInHull(s.nodes[i], s.now, lo, hi)
  }

  /** How far a step may lower the slowest clock: only drift does. */
  function Lowers(step: Step): real {
    if step.Drift? && step.delta < 0.0 then -step.delta else 0.0
  }

  /** How far a cycle of this duration with n samples may be ahead: all of the duration but its 2 n-th part. */
  function Ahead(duration: real, n: nat): real
    requires n > 0
  {
    if n == 1 then 0.0 else duration - duration / (2 * n) as real
  }

  /** How far a step may raise the fastest clock: drift does, and a cycle that took time. */
  function Raises(s: State, step: Step): real
    requires Enabled(s, step)
  {
    match step
    case Drift(_, delta) => if delta > 0.0 then delta else 0.0
    case Finish(i) => Ahead(s.now - s.nodes[i].phase.began, |s.nodes[i].phase.samples|)
    case _ => 0.0
  }

  lemma {:induction false} TimesMonotone(n: nat, c: real, d: real)
    requires c <= d
    ensures Times(n, c) <= Times(n, d)
  {
    if n == 0 {
    } else {
      TimesMonotone(n - 1, c, d);
    }
  }

  lemma WiderHull(node: Node, now: real, lo: real, hi: real, now': real, lo': real, hi': real)
    requires NodeInHull(node, now, lo, hi) && lo' <= lo && hi <= hi' && now <= now'
    ensures NodeInHull(node, now', lo', hi')
  {
    if node.phase.Collecting? {
      var c := node.phase;
      TimesMonotone(|c.samples|, c.began + hi, c.began + hi');
      TimesMonotone(|c.samples| - 1, now - c.began, now' - c.began);
    }
  }

  lemma DriftStaysInHull(node: Node, delta: real, now: real, lo: real, hi: real)
    requires NodeInHull(node, now, lo, hi) && node.phase.Resting?
    ensures NodeInHull(Drifted(node, delta), now, if delta < 0.0 then lo + delta else lo,
                       if delta > 0.0 then hi + delta else hi)
  {
  }

  lemma BeginStaysInHull(node: Node, now: real, lo: real, hi: real)
    requires NodeInHull(node, now, lo, hi) && node.phase.Resting?
    ensures NodeInHull(Begun(node, now), now, lo, hi)
  {
    var c := Begun(node, now).phase;
    assert c.samples[..0] == [];
    assert Sum(c.samples) == c.ownTime;
    assert Times(1, c.began + hi) == c.began + hi;
  }

  lemma AskStaysInHull(node: Node, j: nat, now: real, lo: real, hi: real)
    requires NodeInHull(node, now, lo, hi) && node.phase.Collecting? && node.phase.ask.NoAsk?
    ensures NodeInHull(WithAsk(node, Asked(j, now)), now, lo, hi)
  {
  }

  lemma AnswerStaysInHull(node: Node, now: real, stamp: real, lo: real, hi: real)
    requires NodeInHull(node, now, lo, hi) && node.phase.Collecting? && node.phase.ask.Asked?
    requires lo <= stamp - now <= hi
    ensures NodeInHull(WithAsk(node, Stamped(node.phase.ask, now, stamp)), now, lo, hi)
  {
  }

  lemma GiveUpStaysInHull(node: Node, now: real, lo: real, hi: real)
    requires NodeInHull(node, now, lo, hi) && node.phase.Collecting?
    ensures NodeInHull(WithAsk(node, NoAsk), now, lo, hi)
  {
  }

  lemma SampleIsInHull(node: Node, now: real, lo: real, hi: real)
    requires NodeInHull(node, now, lo, hi) && node.phase.Collecting? && node.phase.ask.Answered?
    ensures var c := node.phase;
            && c.began + lo <= Estimate(c.ask, now) <= c.began + hi + 1.5 * (now - c.began)
            && Estimate(c.ask, now) <= c.began + hi + (now - c.began) + (now - c.ask.askedAt) / 2.0
  {
  }

  lemma ReceiveStaysInHull(node: Node, now: real, lo: real, hi: real)
    requires NodeInHull(node, now, lo, hi) && node.phase.Collecting? && node.phase.ask.Answered?
    ensures NodeInHull(Received(node, now), now, lo, hi)
  {
    var c := node.phase;
    SampleIsInHull(node, now, lo, hi);
    SumOfAppend(c.samples, Estimate(c.ask, now));
    GiveUpStaysInHull(node, now, lo, hi);
  }

  lemma MeanOfLate(x: seq<real>, b: real, d: real)
    requires x != [] && Sum(x) <= Times(|x|, b) + Times(|x| - 1, d) + d / 2.0
    ensures Mean(x) <= b + d - d / (2 * |x|) as real
  {
    var n := |x| as real;
    TimesIsProduct(|x|, b);
    TimesIsProduct(|x| - 1, d);
    assert (2 * |x|) as real == 2.0 * n;
    HalfShare(d, n);
    assert Sum(x) <= n * (b + d - d / (2.0 * n));
  }

  lemma HalfShare(d: real, n: real)
    requires n > 0.0
    ensures n * (d / (2.0 * n)) == d / 2.0
  {
    assert d / (2.0 * n) * (2.0 * n) == d;
  }

  lemma FinishStaysInHull(node: Node, now: real, lo: real, hi: real)
    requires NodeInHull(node, now, lo, hi) && node.phase.Collecting? && node.phase.ask.NoAsk?
    ensures NodeInHull(Finished(node), now, lo, hi + Ahead(now - node.phase.began, |node.phase.samples|))
  {
    var c := node.phase;
    MeanIsWithin(c.samples, c.began + lo, c.began + hi + 1.5 * (now - c.began));
    MeanOfLate(c.samples, c.began + hi, now - c.began);
  }

  lemma AheadIsAtMost(duration: real, n: nat)
    requires duration >= 0.0 && n > 0
    ensures 0.0 <= Ahead(duration, n) <= duration
  {
    if n > 1 {
      HalfShare(duration, n as real);
      assert (2 * n) as real == 2.0 * n as real;
      var part := duration / (2.0 * n as real);
      assert n as real * part == duration / 2.0 && part >= 0.0;
      assert part <= n as real * part;
    }
  }

  /** The step is one of node i. */
  predicate IsOf(step: Step, i: nat) {
    !step.Tick? && step.node == i
  }

  lemma OwnStepStaysInHull(s: State, step: Step, i: nat, lo: real, hi: real)
    requires Hull(s, lo, hi) && Enabled(s, step) && IsOf(step, i)
    ensures i < |s.nodes|
    ensures NodeInHull(Next(s, step).nodes[i], s.now, lo - Lowers(step), hi + Raises(s, step))
  {
    var node := s.nodes[i];
    assert NodeInHull(node, s.now, lo, hi);
    match step {
      case Drift(_, delta) => DriftStaysInHull(node, delta, s.now, lo, hi);
      case Begin(_) => BeginStaysInHull(node, s.now, lo, hi);
      case SendAsk(_, j) => AskStaysInHull(node, j, s.now, lo, hi);
      case Answer(_) =>
        assert NodeInHull(s.nodes[node.phase.ask.peer], s.now, lo, hi);
        AnswerStaysInHull(node, s.now, LocalTime(s, node.phase.ask.peer), lo, hi);
      case Receive(_) => ReceiveStaysInHull(node, s.now, lo, hi);
      case GiveUp(_) => GiveUpStaysInHull(node, s.now, lo, hi);
      case Finish(_) => FinishStaysInHull(node, s.now, lo, hi);
    }
  }

  lemma StepWidens(s: State, step: Step, lo: real, hi: real)
    requires Hull(s, lo, hi) && Enabled(s, step)
    ensures Lowers(step) >= 0.0 && Raises(s, step) >= 0.0
  {
    if step.Finish? {
      assert NodeInHull(s.nodes[step.node], s.now, lo, hi);
      AheadIsAtMost(s.now - s.nodes[step.node].phase.began, |s.nodes[step.node].phase.samples|);
    }
  }

  /** No step takes a clock out of the hull, widened by drift and by less than the duration of a finished cycle. */
  lemma StepStaysInHull(s: State, step: Step, lo: real, hi: real)
    requires Hull(s, lo, hi) && Enabled(s, step)
    ensures Hull(Next(s, step), lo - Lowers(step), hi + Raises(s, step))
  {
    var s' := Next(s, step);
    StepWidens(s, step, lo, hi);
    forall i | 0 <= i < |s'.nodes|
      ensures NodeInHull(s'.nodes[i], s'.now, lo - Lowers(step), hi + Raises(s, step))
    {
      if IsOf(step, i) {
        OwnStepStaysInHull(s, step, i, lo, hi);
      } else {
        assert NodeInHull(s.nodes[i], s.now, lo, hi);
        WiderHull(s.nodes[i], s.now, lo, hi, s'.now, lo - Lowers(step), hi + Raises(s, step));
      }
    }
  }

  // ---------------------------------------------------------------- whole runs

  predicate EnabledRun(s: State, steps: seq<Step>)
    decreases |steps|, 0
  {
    steps == [] ||
    (EnabledRun(s, steps[..|steps| - 1]) && Enabled(After(s, steps[..|steps| - 1]), steps[|steps| - 1]))
  }

  function After(s: State, steps: seq<Step>): State
    requires EnabledRun(s, steps)
    decreases |steps|, 1
  {
    if steps == [] then s else Next(After(s, steps[..|steps| - 1]), steps[|steps| - 1])
  }

  function LowersBy(steps: seq<Step>): real {
    if steps == [] then 0.0 else LowersBy(steps[..|steps| - 1]) + Lowers(steps[|steps| - 1])
  }

  function RaisesBy(s: State, steps: seq<Step>): real
    requires EnabledRun(s, steps)
  {
    if steps == [] then 0.0
    else RaisesBy(s, steps[..|steps| - 1]) + Raises(After(s, steps[..|steps| - 1]), steps[|steps| - 1])
  }

  /**
   In every interleaving no clock falls behind the slowest by more than the negative drift, or runs ahead of the fastest
   by more than the positive drift and what each cycle that ended was ahead, which is less than the time that it took.
   */
  lemma {:induction false} RunStaysInHull(s: State, steps: seq<Step>, lo: real, hi: real)
    requires Hull(s, lo, hi) && EnabledRun(s, steps)
    ensures Hull(After(s, steps), lo - LowersBy(steps), hi + RaisesBy(s, steps))
  {
    if steps == [] {
    } else {
      var front, last := steps[..|steps| - 1], steps[|steps| - 1];
      RunStaysInHull(s, front, lo, hi);
      StepStaysInHull(After(s, front), last, lo - LowersBy(front), hi + RaisesBy(s, front));
    }
  }

  function DriftOf(steps: seq<Step>, i: nat): real {
    if steps == [] then 0.0
    else
      var last := steps[|steps| - 1];
      DriftOf(steps[..|steps| - 1], i) + if last.Drift? && last.node == i then last.delta else 0.0
  }

  /** No correction ever undoes or hides the drift of a crystal: a clock carries all drift that it was given. */
  lemma {:induction false} DriftAccumulates(s: State, steps: seq<Step>, i: nat)
    requires EnabledRun(s, steps) && i < |s.nodes|
    ensures |After(s, steps).nodes| == |s.nodes|
    ensures After(s, steps).nodes[i].drift == s.nodes[i].drift + DriftOf(steps, i)
  {
    if steps == [] {
    } else {
      DriftAccumulates(s, steps[..|steps| - 1], i);
    }
  }

  function Elapsed(steps: seq<Step>): real {
    if steps == [] then 0.0
    else
      var last := steps[|steps| - 1];
      Elapsed(steps[..|steps| - 1]) + if last.Tick? then last.dt else 0.0
  }

  /** The step is a drift or an adjustment of node i. */
  predicate Changes(step: Step, i: nat) {
    (step.Drift? || step.Finish?) && step.node == i
  }

  /** Whatever the others do, between its own drifts and adjustments a clock runs as fast as that of the system. */
  lemma {:induction false} ClockRunsOn(s: State, steps: seq<Step>, i: nat)
    requires EnabledRun(s, steps) && i < |s.nodes|
    requires forall k :: 0 <= k < |steps| ==> !Changes(steps[k], i)
    ensures |After(s, steps).nodes| == |s.nodes|
    ensures LocalTime(After(s, steps), i) == LocalTime(s, i) + Elapsed(steps)
  {
    if steps == [] {
    } else {
      ClockRunsOn(s, steps[..|steps| - 1], i);
      assert !Changes(steps[|steps| - 1], i);
    }
  }

  predicate AllResting(s: State) {
    forall i :: 0 <= i < |s.nodes| ==> s.nodes[i].phase.Resting?
  }

  /** Replies are instant: time only passes between cycles. */
  predicate InstantReplies(s: State, steps: seq<Step>)
    requires EnabledRun(s, steps)
  {
    steps == [] ||
    (InstantReplies(s, steps[..|steps| - 1]) &&
     (steps[|steps| - 1].Tick? ==> AllResting(After(s, steps[..|steps| - 1]))))
  }

  predicate CyclesBeganNow(s: State) {
    forall i :: 0 <= i < |s.nodes| && s.nodes[i].phase.Collecting? ==>
      var c := s.nodes[i].phase;
      c.began == s.now && (!c.ask.NoAsk? ==> c.ask.askedAt == s.now) && (c.ask.Answered? ==> c.ask.stampedAt == s.now)
  }

  lemma {:induction false} InstantCyclesBeganNow(s: State, steps: seq<Step>)
    requires CyclesBeganNow(s) && EnabledRun(s, steps) && InstantReplies(s, steps)
    ensures CyclesBeganNow(After(s, steps))
  {
    if steps == [] {
    } else {
      InstantCyclesBeganNow(s, steps[..|steps| - 1]);
    }
  }

  /** With at most this drift in every step. */
  predicate DriftsWithin(steps: seq<Step>, driftMax: real) {
    forall k :: 0 <= k < |steps| && steps[k].Drift? ==> -driftMax <= steps[k].delta <= driftMax
  }

  function CountDrifts(steps: seq<Step>): nat {
    if steps == [] then 0 else CountDrifts(steps[..|steps| - 1]) + if steps[|steps| - 1].Drift? then 1 else 0
  }

  lemma {:induction false} InstantRunWidensByDrift(s: State, steps: seq<Step>, driftMax: real)
    requires CyclesBeganNow(s) && EnabledRun(s, steps) && InstantReplies(s, steps)
    requires DriftsWithin(steps, driftMax) && driftMax >= 0.0
    ensures LowersBy(steps) + RaisesBy(s, steps) <= Times(CountDrifts(steps), driftMax)
    ensures LowersBy(steps) >= 0.0 && RaisesBy(s, steps) >= 0.0
  {
    if steps == [] {
    } else {
      InstantRunWidensByDrift(s, steps[..|steps| - 1], driftMax);
      InstantCyclesBeganNow(s, steps[..|steps| - 1]);
    }
  }

  /** All samples of unfinished cycles, and all stamps on their way, lie where clocks of this hull can be now. */
  predicate PendingWithin(s: State, lo: real, hi: real) {
    forall i :: 0 <= i < |s.nodes| && s.nodes[i].phase.Collecting? ==>
      && AllWithin(s.nodes[i].phase.samples, s.now + lo, s.now + hi)
      && (s.nodes[i].phase.ask.Answered? ==> s.now + lo <= s.nodes[i].phase.ask.stamp <= s.now + hi)
  }

  lemma PendingIsWithin(s: State, lo: real, hi: real)
    requires Hull(s, lo, hi) && CyclesBeganNow(s)
    ensures PendingWithin(s, lo, hi)
  {
    forall i | 0 <= i < |s.nodes| && s.nodes[i].phase.Collecting?
      ensures AllWithin(s.nodes[i].phase.samples, s.now + lo, s.now + hi)
      ensures s.nodes[i].phase.ask.Answered? ==> s.now + lo <= s.nodes[i].phase.ask.stamp <= s.now + hi
    {
      assert NodeInHull(s.nodes[i], s.now, lo, hi);
    }
  }

  /**
   With instant replies the hull of all clocks and of all pending samples grows by at most driftMax per drift, in every
   interleaving; without drift all of them stay between the first slowest and the first fastest.
   */
  lemma InstantRunStaysInHull(s: State, steps: seq<Step>, driftMax: real, lo: real, hi: real)
      returns (lo': real, hi': real)
    requires AllResting(s) && Hull(s, lo, hi) && EnabledRun(s, steps) && InstantReplies(s, steps)
    requires DriftsWithin(steps, driftMax) && driftMax >= 0.0
    ensures Hull(After(s, steps), lo', hi') && lo' <= lo && hi <= hi'
    ensures PendingWithin(After(s, steps), lo', hi')
    ensures hi' - lo' <= hi - lo + Times(CountDrifts(steps), driftMax)
    ensures CountDrifts(steps) == 0 ==> lo' == lo && hi' == hi
  {
    RunStaysInHull(s, steps, lo, hi);
    InstantRunWidensByDrift(s, steps, driftMax);
    InstantCyclesBeganNow(s, steps);
    lo', hi' := lo - LowersBy(steps), hi + RaisesBy(s, steps);
    PendingIsWithin(After(s, steps), lo', hi');
  }

  // ---------------------------------------------------------------- replies

  /** A reply that arrives is only discarded if the clocks are far apart or the reply was long on its way. */
  lemma ReplyIsAccepted(s: State, i: nat, lo: real, hi: real)
    requires Hull(s, lo, hi) && Enabled(s, Receive(i)) && s.nodes[i].phase.ask.stamp > 0.0
    requires hi - lo + (s.now - s.nodes[i].phase.ask.stampedAt) <= MAX_PLAUSIBLE_SKEW_S
    ensures Accepted(s.nodes[i].phase.ask.stamp, LocalTime(s, i))
    ensures Next(s, Receive(i)).nodes[i].phase.samples ==
            s.nodes[i].phase.samples + [Estimate(s.nodes[i].phase.ask, s.now)]
  {
    assert NodeInHull(s.nodes[i], s.now, lo, hi);
  }

  /** With instant replies, no drift and at most the plausible distance at the start, no reply is ever discarded. */
  lemma InstantRepliesAreAccepted(s: State, steps: seq<Step>, i: nat, lo: real, hi: real)
    requires AllResting(s) && Hull(s, lo, hi) && EnabledRun(s, steps) && InstantReplies(s, steps)
    requires CountDrifts(steps) == 0 && hi - lo <= MAX_PLAUSIBLE_SKEW_S
    requires Enabled(After(s, steps), Receive(i)) && After(s, steps).nodes[i].phase.ask.stamp > 0.0
    ensures Accepted(After(s, steps).nodes[i].phase.ask.stamp, LocalTime(After(s, steps), i))
  {
    NoDrifts(steps);
    var lo', hi' := InstantRunStaysInHull(s, steps, 0.0, lo, hi);
    InstantCyclesBeganNow(s, steps);
    ReplyIsAccepted(After(s, steps), i, lo, hi);
  }

  lemma {:induction false} NoDrifts(steps: seq<Step>)
    requires CountDrifts(steps) == 0
    ensures forall k :: 0 <= k < |steps| ==> !steps[k].Drift?
  {
    if steps == [] {
    } else {
      NoDrifts(steps[..|steps| - 1]);
    }
  }

  lemma HalfRoundTrip(ask: Ask, now: real, skew: real)
    requires ask.Answered? && ask.askedAt <= ask.stampedAt <= now && ask.stamp == ask.stampedAt + skew
    ensures var rtt := now - ask.askedAt;
            -rtt / 2.0 <= Estimate(ask, now) - (now + skew) <= rtt / 2.0
  {
  }

  predicate AsksArePast(s: State) {
    forall i :: 0 <= i < |s.nodes| && s.nodes[i].phase.Collecting? && !s.nodes[i].phase.ask.NoAsk? ==>
      s.nodes[i].phase.ask.askedAt <= s.now
  }

  lemma {:induction false} AsksStayPast(s: State, steps: seq<Step>)
    requires AsksArePast(s) && EnabledRun(s, steps)
    ensures AsksArePast(After(s, steps))
  {
    if steps == [] {
    } else {
      AsksStayPast(s, steps[..|steps| - 1]);
    }
  }

  lemma {:induction false} TimeRunsOn(s: State, steps: seq<Step>)
    requires EnabledRun(s, steps)
    ensures After(s, steps).now == s.now + Elapsed(steps) && Elapsed(steps) >= 0.0
  {
    if steps == [] {
    } else {
      TimeRunsOn(s, steps[..|steps| - 1]);
    }
  }

  /** The step ends the request of node i. */
  predicate EndsAsk(step: Step, i: nat) {
    (step.Receive? || step.GiveUp?) && step.node == i
  }

  /** A reply on its way stays what it is until it arrives or is given up. */
  lemma {:induction false} ReplyIsKept(s: State, steps: seq<Step>, i: nat)
    requires EnabledRun(s, steps) && Enabled(s, Receive(i))
    requires forall k :: 0 <= k < |steps| ==> !EndsAsk(steps[k], i)
    ensures var s' := After(s, steps);
            Enabled(s', Receive(i)) && s'.nodes[i].phase.ask == s.nodes[i].phase.ask && |s'.nodes| == |s.nodes|
  {
    if steps == [] {
    } else {
      ReplyIsKept(s, steps[..|steps| - 1], i);
      assert !EndsAsk(steps[|steps| - 1], i);
    }
  }

  /**
   Cristian's compensation, in any run: node i's request is answered after the steps `before` and received after the
   steps `after`.  Unless the peer's clock drifts or is adjusted in between, the estimate is off from what that clock
   shows at receipt by at most half of the round trip.
   */
  lemma EstimateIsWithinHalfRoundTrip(s0: State, before: seq<Step>, i: nat, after: seq<Step>)
    requires AllResting(s0) && EnabledRun(s0, before) && Enabled(After(s0, before), Answer(i))
    requires EnabledRun(Next(After(s0, before), Answer(i)), after)
    requires var peer := After(s0, before).nodes[i].phase.ask.peer;
             forall k :: 0 <= k < |after| ==> !Changes(after[k], peer) && !EndsAsk(after[k], i)
    ensures var s := After(Next(After(s0, before), Answer(i)), after);
            && Enabled(s, Receive(i))
            && var ask := s.nodes[i].phase.ask;
               var rtt := s.now - ask.askedAt;
               && ask.peer == After(s0, before).nodes[i].phase.ask.peer < |s.nodes|
               && -rtt / 2.0 <= Estimate(ask, s.now) - LocalTime(s, ask.peer) <= rtt / 2.0
  {
    var asked := After(s0, before);
    var answered := Next(asked, Answer(i));
    var s, peer := After(answered, after), asked.nodes[i].phase.ask.peer;
    AsksStayPast(s0, before);
    ReplyIsKept(answered, after, i);
    ClockRunsOn(answered, after, peer);
    TimeRunsOn(answered, after);
    HalfRoundTrip(s.nodes[i].phase.ask, s.now, LocalTime(s, peer) - s.now);
  }

  // ---------------------------------------------------------------- a cycle on its own

  function SkewsOf(s: State): (r: seq<real>)
    ensures |r| == |s.nodes| && forall i :: 0 <= i < |r| ==> r[i] == s.nodes[i].Skew()
  {
    seq(|s.nodes|, i requires 0 <= i < |s.nodes| => s.nodes[i].Skew())
  }

  /** The steps by which node i asks node j; a silent one is given up. */
  function OneAsk(i: nat, j: nat, silent: set<nat>): seq<Step> {
    if j == i then []
    else if j in silent then [SendAsk(i, j), GiveUp(i)]
    else [SendAsk(i, j), Answer(i), Receive(i)]
  }

  /** The steps by which node i begins a cycle and asks the first k nodes, itself excepted. */
  function AskingSteps(i: nat, k: nat, silent: set<nat>): seq<Step> {
    if k == 0 then [Begin(i)] else AskingSteps(i, k - 1, silent) + OneAsk(i, k - 1, silent)
  }

  ghost predicate Leads(s: State, steps: seq<Step>, s': State) {
    EnabledRun(s, steps) && After(s, steps) == s'
  }

  lemma LeadsOneMore(s: State, steps: seq<Step>, s1: State, step: Step)
    requires Leads(s, steps, s1) && Enabled(s1, step)
    ensures Leads(s, steps + [step], Next(s1, step))
  {
    assert (steps + [step])[..|steps|] == steps;
  }

  ghost predicate HasAsked(s: State, s': State, i: nat, k: nat, silent: set<nat>)
    requires i < |s.nodes| && k <= |s.nodes|
  {
    && s'.now == s.now && |s'.nodes| == |s.nodes|
    && (forall j :: 0 <= j < |s.nodes| && j != i ==> s'.nodes[j] == s.nodes[j])
    && s'.nodes[i] ==
       s.nodes[i].(phase := Collecting(s.now, LocalTime(s, i), Samples(s.now, SkewsOf(s), i, k, silent), NoAsk))
  }

  lemma AskOneMore(s: State, s1: State, i: nat, k: nat, silent: set<nat>) returns (s2: State, s3: State, s4: State)
    requires i < |s.nodes| && k < |s.nodes| && k != i && k !in silent && HasAsked(s, s1, i, k, silent)
    ensures Enabled(s1, SendAsk(i, k)) && s2 == Next(s1, SendAsk(i, k))
    ensures Enabled(s2, Answer(i)) && s3 == Next(s2, Answer(i))
    ensures Enabled(s3, Receive(i)) && s4 == Next(s3, Receive(i))
    ensures HasAsked(s, s4, i, k + 1, silent)
  {
    s2 := Next(s1, SendAsk(i, k));
    s3 := Next(s2, Answer(i));
    s4 := Next(s3, Receive(i));
  }

  lemma AskInVain(s: State, s1: State, i: nat, k: nat, silent: set<nat>) returns (s2: State, s3: State)
    requires i < |s.nodes| && k < |s.nodes| && k != i && k in silent && HasAsked(s, s1, i, k, silent)
    ensures Enabled(s1, SendAsk(i, k)) && s2 == Next(s1, SendAsk(i, k))
    ensures Enabled(s2, GiveUp(i)) && s3 == Next(s2, GiveUp(i))
    ensures HasAsked(s, s3, i, k + 1, silent)
  {
    s2 := Next(s1, SendAsk(i, k));
    s3 := Next(s2, GiveUp(i));
  }

  lemma LeadsThroughAsk(s: State, steps: seq<Step>, s1: State, i: nat, k: nat, s2: State, s3: State, s4: State)
    requires Leads(s, steps, s1)
    requires Enabled(s1, SendAsk(i, k)) && s2 == Next(s1, SendAsk(i, k))
    requires Enabled(s2, Answer(i)) && s3 == Next(s2, Answer(i))
    requires Enabled(s3, Receive(i)) && s4 == Next(s3, Receive(i))
    ensures Leads(s, steps + [SendAsk(i, k), Answer(i), Receive(i)], s4)
  {
    LeadsOneMore(s, steps, s1, SendAsk(i, k));
    LeadsOneMore(s, steps + [SendAsk(i, k)], s2, Answer(i));
    LeadsOneMore(s, steps + [SendAsk(i, k)] + [Answer(i)], s3, Receive(i));
    assert steps + [SendAsk(i, k)] + [Answer(i)] + [Receive(i)] == steps + [SendAsk(i, k), Answer(i), Receive(i)];
  }

  lemma LeadsInTwo(s: State, steps: seq<Step>, s1: State, step1: Step, step2: Step)
    requires Leads(s, steps, s1) && Enabled(s1, step1) && Enabled(Next(s1, step1), step2)
    ensures Leads(s, steps + [step1, step2], Next(Next(s1, step1), step2))
  {
    LeadsOneMore(s, steps, s1, step1);
    LeadsOneMore(s, steps + [step1], Next(s1, step1), step2);
    assert steps + [step1] + [step2] == steps + [step1, step2];
  }

  lemma AskingOneMore(s: State, s1: State, i: nat, k: nat, silent: set<nat>, steps: seq<Step>) returns (s': State)
    requires i < |s.nodes| && k < |s.nodes| && HasAsked(s, s1, i, k, silent) && Leads(s, steps, s1)
    ensures Leads(s, steps + OneAsk(i, k, silent), s') && HasAsked(s, s', i, k + 1, silent)
  {
    if k == i {
      assert steps + [] == steps;
      s' := s1;
    } else if k in silent {
      var s2, s3 := AskInVain(s, s1, i, k, silent);
      LeadsInTwo(s, steps, s1, SendAsk(i, k), GiveUp(i));
      s' := s3;
    } else {
      var s2, s3, s4 := AskOneMore(s, s1, i, k, silent);
      LeadsThroughAsk(s, steps, s1, i, k, s2, s3, s4);
      s' := s4;
    }
  }

  lemma {:induction false} AskingCollectsSamples(s: State, i: nat, k: nat, silent: set<nat>) returns (s': State)
    requires i < |s.nodes| && k <= |s.nodes| && s.nodes[i].phase.Resting?
    ensures Leads(s, AskingSteps(i, k, silent), s') && HasAsked(s, s', i, k, silent)
    decreases k
  {
    if k == 0 {
      LeadsOneMore(s, [], s, Begin(i));
      assert [] + [Begin(i)] == AskingSteps(i, 0, silent);
      s' := Next(s, Begin(i));
    } else {
      var s1 := AskingCollectsSamples(s, i, k - 1, silent);
      s' := AskingOneMore(s, s1, i, k - 1, silent, AskingSteps(i, k - 1, silent));
    }
  }

  lemma FinishAdjusts(s: State, s': State, i: nat, silent: set<nat>)
    requires i < |s.nodes| && HasAsked(s, s', i, |s.nodes|, silent)
    ensures Enabled(s', Finish(i))
    ensures SkewsOf(Next(s', Finish(i))) == SkewsOf(s)[i := AdjustedSkew(s.now, SkewsOf(s), i, silent)]
    ensures Next(s', Finish(i)).nodes[i].phase.Resting?
  {
  }

  /**
   A cycle that runs without interruption computes what `PeerNode.Cycle` does, for any set of peers that are given up:
   the clock moves to the mean of itself and the near clocks among those that answer.
   */
  lemma UninterruptedCycle(s: State, i: nat, silent: set<nat>) returns (s': State)
    requires i < |s.nodes| && s.nodes[i].phase.Resting?
    ensures Leads(s, AskingSteps(i, |s.nodes|, silent) + [Finish(i)], s')
    ensures SkewsOf(s') == SkewsOf(s)[i := AdjustedSkew(s.now, SkewsOf(s), i, silent)]
    ensures s'.nodes[i].Skew() == Mean(NearSkews(s.now, SkewsOf(s), i, silent, |s.nodes|))
    ensures s'.nodes[i].phase.Resting? && s'.now == s.now && |s'.nodes| == |s.nodes|
    ensures forall j :: 0 <= j < |s.nodes| && j != i ==> s'.nodes[j] == s.nodes[j]
  {
    var s1 := AskingCollectsSamples(s, i, |s.nodes|, silent);
    FinishAdjusts(s, s1, i, silent);
    LeadsOneMore(s, AskingSteps(i, |s.nodes|, silent), s1, Finish(i));
    s' := Next(s1, Finish(i));
    AdjustedSkewIsMeanOfNear(s.now, SkewsOf(s), i, silent);
    assert s'.nodes[i].Skew() == SkewsOf(s')[i];
  }

  // ---------------------------------------------------------------- rounds

  /** One cycle after the other, in this order, each without interruption. */
  function RoundSteps(order: seq<nat>, n: nat): seq<Step> {
    if order == [] then [] else AskingSteps(order[0], n, {}) + [Finish(order[0])] + RoundSteps(order[1..], n)
  }

  lemma {:induction false} LeadsOn(s: State, steps: seq<Step>, s1: State, more: seq<Step>, s2: State)
    requires Leads(s, steps, s1) && Leads(s1, more, s2)
    ensures Leads(s, steps + more, s2)
    decreases |more|
  {
    if more == [] {
      assert steps + more == steps;
    } else {
      var front, last := more[..|more| - 1], more[|more| - 1];
      LeadsOn(s, steps, s1, front, After(s1, front));
      LeadsOneMore(s, steps + front, After(s1, front), last);
      assert steps + front + [last] == steps + more;
    }
  }

  /** A round of uninterrupted cycles computes the round of the averaging model. */
  lemma {:induction false} SerialRoundIsRound(s: State, order: seq<nat>) returns (s': State)
    requires AllResting(s) && Order(order, |s.nodes|) && AllPlausible(s.now, SkewsOf(s))
    ensures Leads(s, RoundSteps(order, |s.nodes|), s') && AllResting(s')
    ensures SkewsOf(s') == Round(SkewsOf(s), order)
    decreases |order|
  {
    if order == [] {
      s' := s;
    } else {
      var i, skews := order[0], SkewsOf(s);
      var s1 := UninterruptedCycle(s, i, {});
      AdjustedSkewIsMean(s.now, skews, i);
      MeanKeepsPlausible(s.now, skews, i);
      assert |s1.nodes| == |SkewsOf(s1)|;
      s' := SerialRoundIsRound(s1, order[1..]);
      LeadsOn(s, AskingSteps(i, |s.nodes|, {}) + [Finish(i)], s1, RoundSteps(order[1..], |s.nodes|), s');
    }
  }

  /** So in this model, too, a serial round of all peers brings the clocks closer by the factor 1 - 2 / n^2. */
  lemma SerialRoundContracts(s: State, order: seq<nat>, n: nat, d: real) returns (s': State)
    requires |s.nodes| == n > 1 && AllResting(s) && FullOrder(order, n) && AllPlausible(s.now, SkewsOf(s))
    requires Close(SkewsOf(s), d)
    ensures Leads(s, RoundSteps(order, n), s') && AllResting(s')
    ensures Close(SkewsOf(s'), (1.0 - Shrink(n)) * d)
  {
    var skews := SkewsOf(s);
    RoundContracts(skews, order, n, d);
    s' := SerialRoundIsRound(s, order);
    assert SkewsOf(s') == Round(skews, order);
  }

  // ---------------------------------------------------------------- the widening is needed

  /** Node 0 asks node 1, which answers after the time d; then it asks the next nodes up to k, which answer at once. */
  function SlowAskingSteps(d: real, k: nat): seq<Step> {
    if k == 0 then [Begin(0)]
    else if k == 1 then [Begin(0), SendAsk(0, 1), Tick(d), Answer(0), Receive(0)]
    else SlowAskingSteps(d, k - 1) + [SendAsk(0, k), Answer(0), Receive(0)]
  }

  /** The samples of k requests, the first of which is moved on by half of its round trip. */
  function LateSamples(own: real, d: real, k: nat): (r: seq<real>)
    ensures |r| == k + 1 && r[0] == own
  {
    if k == 0 then [own] else LateSamples(own, d, k - 1) + [if k == 1 then own + d + d / 2.0 else own + d]
  }

  lemma {:induction false} SumOfLateSamples(own: real, d: real, k: nat)
    ensures Sum(LateSamples(own, d, k)) == Times(k + 1, own) + Times(k, d) + if k == 0 then 0.0 else d / 2.0
  {
    if k == 0 {
      assert LateSamples(own, d, 0)[..0] == [];
    } else {
      SumOfLateSamples(own, d, k - 1);
      SumOfAppend(LateSamples(own, d, k - 1), if k == 1 then own + d + d / 2.0 else own + d);
    }
  }

  lemma MeanOfLateSamples(own: real, d: real, k: nat)
    requires k > 0
    ensures Mean(LateSamples(own, d, k)) == own + Ahead(d, k + 1)
  {
    var n := (k + 1) as real;
    SumOfLateSamples(own, d, k);
    TimesIsProduct(k + 1, own);
    TimesIsProduct(k, d);
    HalfShare(d, n);
    assert (2 * (k + 1)) as real == 2.0 * n;
    assert Sum(LateSamples(own, d, k)) == n * (own + (d - d / (2.0 * n)));
  }

  /** All clocks agree, and node 0 has asked the nodes 1 to k, the first of them slowly. */
  ghost predicate HasAskedLate(s: State, s': State, skew: real, d: real, k: nat) {
    && s'.now == s.now + d && |s'.nodes| == |s.nodes| && 0 < k < |s.nodes|
    && (forall j :: 0 < j < |s.nodes| ==> s'.nodes[j] == s.nodes[j])
    && s'.nodes[0] == s.nodes[0].(phase := Collecting(s.now, s.now + skew, LateSamples(s.now + skew, d, k), NoAsk))
  }

  ghost predicate Agree(s: State, skew: real) {
    AllResting(s) && s.now + skew > 0.0 && forall i :: 0 <= i < |s.nodes| ==> s.nodes[i].Skew() == skew
  }

  lemma SlowAnswer(s: State, skew: real, d: real) returns (s2: State, s4: State)
    requires |s.nodes| > 1 && Agree(s, skew) && d >= 0.0
    ensures Leads(s, [] + [Begin(0), SendAsk(0, 1)], s2)
    ensures Enabled(s2, Tick(d)) && Enabled(Next(s2, Tick(d)), Answer(0)) && s4 == Next(Next(s2, Tick(d)), Answer(0))
    ensures s4.now == s.now + d && |s4.nodes| == |s.nodes|
    ensures forall j :: 0 < j < |s.nodes| ==> s4.nodes[j] == s.nodes[j]
    ensures s4.nodes[0] == s.nodes[0].(phase :=
      Collecting(s.now, s.now + skew, [s.now + skew], Answered(1, s.now, s4.now, s4.now + skew)))
  {
    LeadsInTwo(s, [], s, Begin(0), SendAsk(0, 1));
    s2 := Next(Next(s, Begin(0)), SendAsk(0, 1));
    s4 := Next(Next(s2, Tick(d)), Answer(0));
  }

  lemma FirstLateSample(s: State, skew: real, d: real) returns (s': State)
    requires |s.nodes| > 1 && Agree(s, skew) && d >= 0.0
    ensures Leads(s, SlowAskingSteps(d, 1), s') && HasAskedLate(s, s', skew, d, 1)
  {
    var s2, s4 := SlowAnswer(s, skew, d);
    var steps2 := [] + [Begin(0), SendAsk(0, 1)];
    LeadsInTwo(s, steps2, s2, Tick(d), Answer(0));
    var steps4 := steps2 + [Tick(d), Answer(0)];
    LeadsOneMore(s, steps4, s4, Receive(0));
    assert steps4 + [Receive(0)] == SlowAskingSteps(d, 1);
    s' := Next(s4, Receive(0));
    var own := s.now + skew;
    assert LateSamples(own, d, 1) == [own] + [own + d + d / 2.0];
  }

  lemma OneMoreLateSample(s: State, s1: State, skew: real, d: real, k: nat) returns (s2: State, s3: State, s4: State)
    requires Agree(s, skew) && d >= 0.0 && 0 < k && k + 1 < |s.nodes| && HasAskedLate(s, s1, skew, d, k)
    ensures Enabled(s1, SendAsk(0, k + 1)) && s2 == Next(s1, SendAsk(0, k + 1))
    ensures Enabled(s2, Answer(0)) && s3 == Next(s2, Answer(0))
    ensures Enabled(s3, Receive(0)) && s4 == Next(s3, Receive(0))
    ensures HasAskedLate(s, s4, skew, d, k + 1)
  {
    s2 := Next(s1, SendAsk(0, k + 1));
    s3 := Next(s2, Answer(0));
    s4 := Next(s3, Receive(0));
    assert Estimate(s3.nodes[0].phase.ask, s3.now) == s.now + skew + d;
  }

  lemma {:induction false} SlowAskingIsLate(s: State, skew: real, d: real, k: nat) returns (s': State)
    requires Agree(s, skew) && d >= 0.0 && 0 < k < |s.nodes|
    ensures Leads(s, SlowAskingSteps(d, k), s') && HasAskedLate(s, s', skew, d, k)
  {
    if k == 1 {
      s' := FirstLateSample(s, skew, d);
    } else {
      var s1 := SlowAskingIsLate(s, skew, d, k - 1);
      var s2, s3, s4 := OneMoreLateSample(s, s1, skew, d, k - 1);
      LeadsThroughAsk(s, SlowAskingSteps(d, k - 1), s1, 0, k, s2, s3, s4);
      s' := s4;
    }
  }

  lemma LateFinish(s: State, s1: State, skew: real, d: real, k: nat)
    requires Agree(s, skew) && HasAskedLate(s, s1, skew, d, k)
    ensures Enabled(s1, Finish(0)) && Next(s1, Finish(0)).nodes[0].Skew() == skew + Ahead(d, k + 1)
  {
    MeanOfLateSamples(s.now + skew, d, k);
  }

  /** Clocks that agree, two or more: after one slow cycle the one that asked is ahead by all that the hull allows. */
  lemma SlowCycleRunsAhead(s: State, skew: real, d: real, n: nat) returns (s': State)
    requires |s.nodes| == n > 1 && Agree(s, skew) && d >= 0.0
    ensures Hull(s, skew, skew) && Leads(s, SlowAskingSteps(d, n - 1) + [Finish(0)], s')
    ensures s'.nodes != [] && s'.nodes[0].Skew() == skew + Ahead(d, n)
  {
    var s1 := SlowAskingIsLate(s, skew, d, n - 1);
    LateFinish(s, s1, skew, d, n - 1);
    LeadsOneMore(s, SlowAskingSteps(d, n - 1), s1, Finish(0));
    s' := Next(s1, Finish(0));
  }
}
