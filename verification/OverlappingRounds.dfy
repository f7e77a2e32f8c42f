/**
 Rounds of peers that run their cycles at the same time, as threads do: with instant replies every overlap of the
 cycles brings the clocks together by the same factor as a serial round.

 The proof follows what one extreme clock does to the others.  It is in the mean of its own cycle, so it stays far from
 the other extreme; and it is in the mean of everybody else, whenever they asked it.
 */
module OverlappingRounds {
  import opened Averaging
  import opened PeerReply
  import opened PeerNode
  import opened ClockNetwork

  function Count(steps: seq<Step>, step: Step): nat {
    if steps == [] then 0 else Count(steps[..|steps| - 1], step) + if steps[|steps| - 1] == step then 1 else 0
  }

  /** No time passes, nobody drifts, and no request is given up. */
  predicate Quiet(steps: seq<Step>) {
    forall k :: 0 <= k < |steps| ==> !steps[k].Tick? && !steps[k].Drift? && !steps[k].GiveUp?
  }

  /** Every one of n peers runs one cycle, in which it asks each of the others once. */
  predicate OneCycleEach(steps: seq<Step>, n: nat) {
    && Quiet(steps)
    && (forall i: nat :: i < n ==> Count(steps, Begin(i)) == 1)
    && (forall i: nat, j: nat :: i < n && j < n ==> Count(steps, SendAsk(i, j)) == if i == j then 0 else 1)
  }

  /** The number of requests of node i to the first m nodes. */
  function AsksUpTo(steps: seq<Step>, i: nat, m: nat): nat {
    if m == 0 then 0 else AsksUpTo(steps, i, m - 1) + Count(steps, SendAsk(i, m - 1))
  }

  lemma {:induction false} AsksOfCycle(steps: seq<Step>, n: nat, i: nat, m: nat)
    requires OneCycleEach(steps, n) && i < n && m <= n
    ensures AsksUpTo(steps, i, m) == m - if i < m then 1 else 0
  {
    if m == 0 {
    } else {
      AsksOfCycle(steps, n, i, m - 1);
    }
  }

  lemma {:induction false} AsksAfterStep(steps: seq<Step>, i: nat, m: nat)
    requires steps != []
    ensures var last := steps[|steps| - 1];
            AsksUpTo(steps, i, m) ==
            AsksUpTo(steps[..|steps| - 1], i, m) + if last.SendAsk? && last.node == i && last.peer < m then 1 else 0
  {
    if m == 0 {
    } else {
      AsksAfterStep(steps, i, m - 1);
    }
  }

  // ---------------------------------------------------------------- the pull of one clock

  /**
   The clock of node w starts far above a bound lo that no clock is below.  Seen upside down (`flip`) it starts far
   below a bound that no clock is above.
   */
  datatype Pull = Pull(now: real, flip: bool, lo: real, part: real, n: nat, w: nat) {
    predicate Valid() {
      n > 0 && part >= 0.0 && w < n
    }

    function Skew(skew: real): real {
      if flip then -skew else skew
    }

    function Time(time: real): real {
      Skew(time - now)
    }

    /** One part above the bound: where everybody ends up. */
    function One(): real {
      lo + part
    }

    /** n parts above it: where w stays. */
    function Few(): real {
      lo + Times(n, part)
    }

    /** n n parts above it: where w starts. */
    function All(): real {
      lo + Times(n, Times(n, part))
    }
  }

  lemma {:induction false} TimesFewer(k: nat, n: nat, c: real)
    requires k <= n && c >= 0.0
    ensures 0.0 <= Times(k, c) <= Times(n, c)
  {
    if n == 0 {
    } else if k == n {
      TimesFewer(k - 1, n - 1, c);
    } else {
      TimesFewer(k, n - 1, c);
    }
  }

  lemma Levels(p: Pull)
    requires p.Valid()
    ensures p.lo <= p.One() <= p.Few() <= p.All()
  {
    TimesGrows(p.n, p.part);
    TimesGrows(p.n, Times(p.n, p.part));
  }

  /** Some sample is at least as high as this. */
  predicate Holds(p: Pull, samples: seq<real>, level: real) {
    exists k :: 0 <= k < |samples| && p.Time(samples[k]) >= level
  }

  predicate AllAbove(p: Pull, samples: seq<real>) {
    forall k :: 0 <= k < |samples| ==> p.Time(samples[k]) >= p.lo
  }

  /** A request that is on its way was sent now, and what it brings back is above the bound, from w far above. */
  predicate AskPulled(p: Pull, ask: Ask) {
    && (!ask.NoAsk? ==> ask.askedAt == p.now)
    && (ask.Answered? ==> p.Time(ask.stamp) >= p.lo && (ask.peer == p.w ==> p.Time(ask.stamp) >= p.Few()))
  }

  /** Node i in its cycle: `asked` says whether it has asked w, `asks` how many requests it has sent. */
  predicate CyclePulled(p: Pull, i: nat, node: Node, asked: bool, asks: nat)
    requires node.phase.Collecting?
  {
    var c := node.phase;
    && c.samples != [] && c.samples[0] == c.ownTime == p.now + node.Skew()
    && AllAbove(p, c.samples)
    && |c.samples| + (if c.ask.NoAsk? then 0 else 1) <= 1 + asks
    && (i == p.w ==> p.Time(c.ownTime) >= p.All())
    && (i != p.w && asked ==> Holds(p, c.samples, p.Few()) || (!c.ask.NoAsk? && c.ask.peer == p.w))
    && AskPulled(p, c.ask)
  }

  /** Node i before, in and after its cycle: a node that has asked w ends up above the bound. */
  predicate NodePulled(p: Pull, i: nat, node: Node, begun: bool, asked: bool, asks: nat) {
    && p.Skew(node.Skew()) >= p.lo
    && (i == p.w ==> p.Skew(node.Skew()) >= p.Few())
    && (!begun ==> node.phase.Resting? && !asked && (i == p.w ==> p.Skew(node.Skew()) >= p.All()))
    && (begun && asked && node.phase.Resting? ==> p.Skew(node.Skew()) >= p.One())
    && (node.phase.Collecting? ==> CyclePulled(p, i, node, asked, asks))
  }

  lemma BeginPulls(p: Pull, i: nat, node: Node, asks: nat)
    requires p.Valid() && NodePulled(p, i, node, false, false, asks)
    ensures NodePulled(p, i, Begun(node, p.now), true, false, asks)
  {
  }

  lemma AskPulls(p: Pull, i: nat, node: Node, asked: bool, asks: nat, j: nat)
    requires p.Valid() && NodePulled(p, i, node, true, asked, asks)
    requires node.phase.Collecting? && node.phase.ask.NoAsk?
    ensures NodePulled(p, i, WithAsk(node, Asked(j, p.now)), true, asked || j == p.w, asks + 1)
  {
  }

  lemma AnswerPulls(p: Pull, i: nat, node: Node, asked: bool, asks: nat, skew: real)
    requires p.Valid() && NodePulled(p, i, node, true, asked, asks)
    requires node.phase.Collecting? && node.phase.ask.Asked?
    requires p.Skew(skew) >= p.lo && (node.phase.ask.peer == p.w ==> p.Skew(skew) >= p.Few())
    ensures NodePulled(p, i, WithAsk(node, Stamped(node.phase.ask, p.now, p.now + skew)), true, asked, asks)
  {
  }

  lemma ReceivePulls(p: Pull, i: nat, node: Node, asked: bool, asks: nat, node': Node)
    requires p.Valid() && NodePulled(p, i, node, true, asked, asks)
    requires node.phase.Collecting? && node.phase.ask.Answered?
    requires node' == node.(phase := node.phase.(ask := NoAsk, samples := node.phase.samples + [node.phase.ask.stamp]))
    ensures NodePulled(p, i, node', true, asked, asks)
  {
    var samples, samples' := node.phase.samples, node'.phase.samples;
    if Holds(p, samples, p.Few()) {
      var k :| 0 <= k < |samples| && p.Time(samples[k]) >= p.Few();
      assert p.Time(samples'[k]) >= p.Few();
    }
    assert samples'[|samples|] == node.phase.ask.stamp;
  }

  // ---------------------------------------------------------------- the mean of a cycle

  function Views(p: Pull, samples: seq<real>): (r: seq<real>)
    ensures |r| == |samples| && forall k :: 0 <= k < |r| ==> r[k] == p.Time(samples[k])
  {
    seq(|samples|, k requires 0 <= k < |samples| => p.Time(samples[k]))
  }

  lemma {:induction false} SumOfViews(p: Pull, samples: seq<real>)
    ensures Sum(Views(p, samples)) == p.Skew(Sum(samples) - Times(|samples|, p.now))
  {
    if samples == [] {
    } else {
      var front := samples[..|samples| - 1];
      SumOfViews(p, front);
      assert Views(p, samples)[..|samples| - 1] == Views(p, front);
    }
  }

  lemma QuotientOfSkew(p: Pull, total: real, n: nat)
    requires n > 0
    ensures p.Skew(total - Times(n, p.now)) / n as real == p.Time(total / n as real)
  {
    TimesIsProduct(n, p.now);
    var m := n as real;
    assert total / m * m == total;
    assert p.Skew(total - m * p.now) == m * p.Skew(total / m - p.now);
  }

  lemma MeanOfViews(p: Pull, samples: seq<real>)
    requires samples != []
    ensures Mean(Views(p, samples)) == p.Time(Mean(samples))
  {
    SumOfViews(p, samples);
    QuotientOfSkew(p, Sum(samples), |samples|);
  }

  /** One high sample among at most n lifts the mean by the n-th part. */
  lemma MeanIsLifted(p: Pull, samples: seq<real>, c: real)
    requires 0 < |samples| <= p.n && c >= 0.0 && AllAbove(p, samples) && Holds(p, samples, p.lo + Times(p.n, c))
    ensures p.Time(Mean(samples)) >= p.lo + c
  {
    var k :| 0 <= k < |samples| && p.Time(samples[k]) >= p.lo + Times(p.n, c);
    TimesFewer(|samples|, p.n, c);
    MeanWithExcess(Views(p, samples), p.lo, k, c);
    MeanOfViews(p, samples);
  }

  lemma MeanIsAbove(p: Pull, samples: seq<real>)
    requires samples != [] && AllAbove(p, samples)
    ensures p.Time(Mean(samples)) >= p.lo
  {
    MeanAtLeast(Views(p, samples), p.lo);
    MeanOfViews(p, samples);
  }

  lemma FinishedSkew(p: Pull, node: Node)
    requires node.phase.Collecting? && node.phase.samples != []
    requires node.phase.samples[0] == node.phase.ownTime == p.now + node.Skew()
    ensures Finished(node).Skew() == Mean(node.phase.samples) - p.now
  {
    var samples := node.phase.samples;
    if |samples| == 1 {
      assert samples[..0] == [];
      assert Sum(samples) == samples[0];
      assert Mean(samples) == samples[0] / 1.0;
    }
  }

  lemma FinishPulls(p: Pull, i: nat, node: Node, asked: bool, asks: nat)
    requires p.Valid() && NodePulled(p, i, node, true, asked, asks) && asks < p.n
    requires node.phase.Collecting? && node.phase.ask.NoAsk?
    ensures NodePulled(p, i, Finished(node), true, asked, asks)
  {
    var samples := node.phase.samples;
    Levels(p);
    FinishedSkew(p, node);
    MeanIsAbove(p, samples);
    if i == p.w {
      TimesFewer(0, p.n, p.part);
      assert Holds(p, samples, p.All());
      MeanIsLifted(p, samples, Times(p.n, p.part));
    } else if asked {
      MeanIsLifted(p, samples, p.part);
    }
  }

  // ---------------------------------------------------------------- any overlap

  /** At most one cycle each, with at most n - 1 requests. */
  predicate AtMostOneCycle(steps: seq<Step>, n: nat) {
    && Quiet(steps)
    && (forall i: nat :: i < n ==> Count(steps, Begin(i)) <= 1 && AsksUpTo(steps, i, n) < n)
  }

  predicate NodeOf(p: Pull, s: State, steps: seq<Step>, i: nat)
    requires i < |s.nodes|
  {
    NodePulled(p, i, s.nodes[i], Count(steps, Begin(i)) > 0, Count(steps, SendAsk(i, p.w)) > 0,
               AsksUpTo(steps, i, p.n))
  }

  predicate Pulled(p: Pull, s: State, steps: seq<Step>) {
    && s.now == p.now && |s.nodes| == p.n
    && forall i :: 0 <= i < p.n ==> NodeOf(p, s, steps, i)
  }

  lemma {:induction false} QuietIsInstant(s: State, steps: seq<Step>)
    requires EnabledRun(s, steps) && Quiet(steps)
    ensures InstantReplies(s, steps) && CountDrifts(steps) == 0
  {
    if steps == [] {
    } else {
      QuietIsInstant(s, steps[..|steps| - 1]);
    }
  }

  /** The reply on its way to this node is taken as it is stamped. */
  predicate Takes(node: Node, now: real)
    requires node.phase.Collecting? && node.phase.ask.Answered?
  {
    Received(node, now) ==
    node.(phase := node.phase.(ask := NoAsk, samples := node.phase.samples + [node.phase.ask.stamp]))
  }

  lemma ReplyIsTaken(s: State, steps: seq<Step>, i: nat, lo: real, hi: real)
    requires AllResting(s) && Hull(s, lo, hi) && EnabledRun(s, steps) && Quiet(steps)
    requires s.now + lo > 0.0 && hi - lo <= MAX_PLAUSIBLE_SKEW_S && After(s, steps).now == s.now
    requires Enabled(After(s, steps), Receive(i))
    ensures Takes(After(s, steps).nodes[i], s.now)
  {
    QuietIsInstant(s, steps);
    NoDrifts(steps);
    var lo', hi' := InstantRunStaysInHull(s, steps, 0.0, lo, hi);
    InstantRepliesAreAccepted(s, steps, i, lo, hi);
    InstantCyclesBeganNow(s, steps);
  }

  lemma OwnStepPulls(p: Pull, s: State, front: seq<Step>, step: Step, i: nat)
    requires p.Valid() && Pulled(p, s, front) && Enabled(s, step) && IsOf(step, i)
    requires AtMostOneCycle(front + [step], p.n)
    requires step.Receive? ==> Takes(s.nodes[i], s.now)
    ensures i < p.n && NodeOf(p, Next(s, step), front + [step], i)
  {
    var steps, node := front + [step], s.nodes[i];
    assert steps[..|steps| - 1] == front && steps[|steps| - 1] == step;
    assert !step.Drift? && !step.GiveUp?;
    assert NodeOf(p, s, front, i);
    AsksAfterStep(steps, i, p.n);
    var asked, asks := Count(front, SendAsk(i, p.w)) > 0, AsksUpTo(front, i, p.n);
    match step {
      case Begin(_) => BeginPulls(p, i, node, asks);
      case SendAsk(_, j) => AskPulls(p, i, node, asked, asks, j);
      case Answer(_) =>
        var peer := node.phase.ask.peer;
        assert NodeOf(p, s, front, peer);
        AnswerPulls(p, i, node, asked, asks, s.nodes[peer].Skew());
      case Receive(_) => ReceivePulls(p, i, node, asked, asks, Received(node, s.now));
      case Finish(_) => FinishPulls(p, i, node, asked, asks);
      case _ => assert false;
    }
  }

  lemma OtherStepKeeps(p: Pull, s: State, front: seq<Step>, step: Step, i: nat)
    requires p.Valid() && Pulled(p, s, front) && Enabled(s, step) && !step.Tick? && !IsOf(step, i) && i < p.n
    ensures NodeOf(p, Next(s, step), front + [step], i)
  {
    var steps := front + [step];
    assert steps[..|steps| - 1] == front && steps[|steps| - 1] == step;
    assert NodeOf(p, s, front, i);
    AsksAfterStep(steps, i, p.n);
  }

  lemma FrontHasAtMostOneCycle(steps: seq<Step>, n: nat)
    requires steps != [] && AtMostOneCycle(steps, n)
    ensures AtMostOneCycle(steps[..|steps| - 1], n)
  {
    forall i: nat | i < n
      ensures Count(steps[..|steps| - 1], Begin(i)) <= 1 && AsksUpTo(steps[..|steps| - 1], i, n) < n
    {
      AsksAfterStep(steps, i, n);
    }
  }

  /** Whatever the interleaving of the cycles is, the pull of w is kept. */
  lemma {:induction false} OverlapPulls(p: Pull, s: State, steps: seq<Step>, lo: real, hi: real)
    requires p.Valid() && Pulled(p, s, []) && AtMostOneCycle(steps, p.n)
    requires AllResting(s) && Hull(s, lo, hi) && EnabledRun(s, steps)
    requires s.now + lo > 0.0 && hi - lo <= MAX_PLAUSIBLE_SKEW_S
    ensures Pulled(p, After(s, steps), steps)
  {
    if steps == [] {
    } else {
      var front, last := steps[..|steps| - 1], steps[|steps| - 1];
      var t := After(s, front);
      assert steps == front + [last];
      FrontHasAtMostOneCycle(steps, p.n);
      OverlapPulls(p, s, front, lo, hi);
      forall i | 0 <= i < p.n
        ensures NodeOf(p, Next(t, last), steps, i)
      {
        if IsOf(last, i) {
          if last.Receive? {
            ReplyIsTaken(s, front, i, lo, hi);
          }
          OwnStepPulls(p, t, front, last, i);
        } else {
          OtherStepKeeps(p, t, front, last, i);
        }
      }
    }
  }

  /** So every clock ends up one part above the bound. */
  lemma EverybodyIsPulled(p: Pull, s: State, steps: seq<Step>, lo: real, hi: real)
    requires p.Valid() && Pulled(p, s, []) && OneCycleEach(steps, p.n)
    requires AllResting(s) && Hull(s, lo, hi) && EnabledRun(s, steps) && AllResting(After(s, steps))
    requires s.now + lo > 0.0 && hi - lo <= MAX_PLAUSIBLE_SKEW_S
    ensures |After(s, steps).nodes| == p.n && After(s, steps).now == s.now
    ensures forall i :: 0 <= i < p.n ==> p.Skew(After(s, steps).nodes[i].Skew()) >= p.One()
  {
    forall i: nat | i < p.n
      ensures Count(steps, Begin(i)) <= 1 && AsksUpTo(steps, i, p.n) < p.n
    {
      AsksOfCycle(steps, p.n, i, p.n);
    }
    OverlapPulls(p, s, steps, lo, hi);
    Levels(p);
    forall i | 0 <= i < p.n
      ensures p.Skew(After(s, steps).nodes[i].Skew()) >= p.One()
    {
      assert NodeOf(p, After(s, steps), steps, i);
    }
  }

  predicate Extreme(x: seq<real>, top: nat, bottom: nat) {
    top < |x| && bottom < |x| && forall i :: 0 <= i < |x| ==> x[bottom] <= x[i] <= x[top]
  }

  lemma BothEndsArePulled(s: State, steps: seq<Step>, n: nat, top: nat, bottom: nat, part: real)
    requires |s.nodes| == n > 0 && AllResting(s) && AllPlausible(s.now, SkewsOf(s)) && Extreme(SkewsOf(s), top, bottom)
    requires part >= 0.0 && SkewsOf(s)[top] - SkewsOf(s)[bottom] == Times(n, Times(n, part))
    requires EnabledRun(s, steps) && OneCycleEach(steps, n) && AllResting(After(s, steps))
    ensures After(s, steps).now == s.now && |After(s, steps).nodes| == n
    ensures AllWithin(SkewsOf(After(s, steps)), SkewsOf(s)[bottom] + part, SkewsOf(s)[top] - part)
  {
    var x := SkewsOf(s);
    var up, down := Pull(s.now, false, x[bottom], part, n, top), Pull(s.now, true, -x[top], part, n, bottom);
    assert x[top] - x[bottom] <= MAX_PLAUSIBLE_SKEW_S;
    Levels(up);
    Levels(down);
    forall i | 0 <= i < n
      ensures NodeOf(up, s, [], i) && NodeOf(down, s, [], i)
    {
      assert x[bottom] <= x[i] <= x[top];
    }
    EverybodyIsPulled(up, s, steps, x[bottom], x[top]);
    EverybodyIsPulled(down, s, steps, x[bottom], x[top]);
  }

  /**
   In every overlap of one cycle of each of n peers, with instant replies and without drift, the greatest distance of
   two clocks shrinks by the factor 1 - 2 / n^2.
   */
  lemma OverlappingRoundContracts(s: State, steps: seq<Step>, n: nat, d: real)
    requires |s.nodes| == n > 1 && AllResting(s) && AllPlausible(s.now, SkewsOf(s)) && Close(SkewsOf(s), d)
    requires EnabledRun(s, steps) && OneCycleEach(steps, n) && AllResting(After(s, steps))
    ensures After(s, steps).now == s.now && |After(s, steps).nodes| == n
    ensures Close(SkewsOf(After(s, steps)), (1.0 - Shrink(n)) * d)
    ensures AllPlausible(s.now, SkewsOf(After(s, steps)))
  {
    var x, y := SkewsOf(s), SkewsOf(After(s, steps));
    var top, bottom := Extremes(x);
    var spread := x[top] - x[bottom];
    ShareMakesWhole(spread, n);
    var part := Share(spread, n);
    BothEndsArePulled(s, steps, n, top, bottom, part);
    WithinIsClose(y, x[bottom] + part, x[top] - part);
    TwoSharesLess(spread, n, d);
    CloserIsClose(y, spread - part - part, (1.0 - Shrink(n)) * d);
    CloserIsClose(y, spread - part - part, MAX_PLAUSIBLE_SKEW_S);
  }

  lemma WithinIsClose(y: seq<real>, lo: real, hi: real)
    requires AllWithin(y, lo, hi)
    ensures Close(y, hi - lo)
  {
  }

  // ---------------------------------------------------------------- many rounds

  /** A round, and the time that passes before it. */
  datatype TimedRound = TimedRound(pause: real, steps: seq<Step>)

  /** The state before the cycles of the first round. */
  function Paused(s: State, round: TimedRound): State {
    s.(now := s.now + round.pause)
  }

  /** Round after round, every peer runs one cycle. */
  predicate EnabledRounds(s: State, rounds: seq<TimedRound>)
    decreases |rounds|
  {
    rounds == [] ||
    (var start := Paused(s, rounds[0]);
     && rounds[0].pause >= 0.0
     && EnabledRun(start, rounds[0].steps) && OneCycleEach(rounds[0].steps, |s.nodes|)
     && AllResting(After(start, rounds[0].steps))
     && EnabledRounds(After(start, rounds[0].steps), rounds[1..]))
  }

  function AfterRounds(s: State, rounds: seq<TimedRound>): State
    requires EnabledRounds(s, rounds)
    decreases |rounds|
  {
    if rounds == [] then s else AfterRounds(After(Paused(s, rounds[0]), rounds[0].steps), rounds[1..])
  }

  lemma PauseKeepsPlausible(s: State, round: TimedRound)
    requires AllResting(s) && AllPlausible(s.now, SkewsOf(s)) && round.pause >= 0.0
    ensures var start := Paused(s, round);
            AllResting(start) && SkewsOf(start) == SkewsOf(s) && AllPlausible(start.now, SkewsOf(start))
  {
    LaterIsPlausible(s.now, s.now + round.pause, SkewsOf(s));
  }

  lemma FirstRoundContracts(s: State, rounds: seq<TimedRound>, n: nat, d: real) returns (s': State, d': real)
    requires |s.nodes| == n > 1 && AllResting(s) && AllPlausible(s.now, SkewsOf(s)) && Close(SkewsOf(s), d)
    requires rounds != [] && EnabledRounds(s, rounds)
    ensures EnabledRounds(s', rounds[1..]) && AfterRounds(s, rounds) == AfterRounds(s', rounds[1..])
    ensures |s'.nodes| == n && AllResting(s') && AllPlausible(s'.now, SkewsOf(s')) && Close(SkewsOf(s'), d')
    ensures d' == (1.0 - Shrink(n)) * d
  {
    var start := Paused(s, rounds[0]);
    s', d' := After(start, rounds[0].steps), (1.0 - Shrink(n)) * d;
    PauseKeepsPlausible(s, rounds[0]);
    OverlappingRoundContracts(start, rounds[0].steps, n, d);
  }

  /** Every round takes the distance from one bound to the next. */
  predicate Chain(n: nat, ds: seq<real>)
    requires n > 0
  {
    forall k :: 0 < k < |ds| ==> ds[k] == (1.0 - Shrink(n)) * ds[k - 1]
  }

  lemma {:induction false} OverlappingRoundsCloseIn(s: State, rounds: seq<TimedRound>, n: nat, d: real)
      returns (ds: seq<real>)
    requires |s.nodes| == n > 1 && AllResting(s) && AllPlausible(s.now, SkewsOf(s)) && Close(SkewsOf(s), d)
    requires EnabledRounds(s, rounds)
    ensures |ds| == |rounds| + 1 && ds[0] == d && Chain(n, ds)
    ensures Close(SkewsOf(AfterRounds(s, rounds)), ds[|rounds|])
    decreases |rounds|
  {
    if rounds == [] {
      ds := [d];
    } else {
      var s', d' := FirstRoundContracts(s, rounds, n, d);
      var rest := OverlappingRoundsCloseIn(s', rounds[1..], n, d');
      ds := [d] + rest;
      ChainOn(n, d, rest);
    }
  }

  lemma ChainOn(n: nat, d: real, rest: seq<real>)
    requires n > 0 && rest != [] && Chain(n, rest) && rest[0] == (1.0 - Shrink(n)) * d
    ensures Chain(n, [d] + rest)
  {
  }

  lemma {:induction false} ChainIsPower(n: nat, ds: seq<real>, k: nat)
    requires n > 0 && Chain(n, ds) && k < |ds|
    ensures ds[k] == Power(1.0 - Shrink(n), k) * ds[0]
  {
    if k == 0 {
    } else {
      ChainIsPower(n, ds, k - 1);
      PowerStep(1.0 - Shrink(n), k - 1, ds[0], ds[k - 1]);
    }
  }

  /** The distance falls geometrically with the number of rounds, however the cycles within each round overlap. */
  lemma OverlappingRoundsContract(s: State, rounds: seq<TimedRound>, n: nat, d: real) returns (e: real)
    requires |s.nodes| == n > 1 && AllResting(s) && AllPlausible(s.now, SkewsOf(s)) && Close(SkewsOf(s), d)
    requires EnabledRounds(s, rounds)
    ensures Close(SkewsOf(AfterRounds(s, rounds)), e) && e == Power(1.0 - Shrink(n), |rounds|) * d
  {
    var ds := OverlappingRoundsCloseIn(s, rounds, n, d);
    e := ds[|rounds|];
    ChainIsPower(n, ds, |rounds|);
  }

  /** So the clocks converge, whatever the overlaps are: below any bound, from some number of rounds on. */
  lemma OverlappingClocksConverge(s: State, n: nat, d: real, bound: real) returns (enough: nat)
    requires |s.nodes| == n > 1 && AllResting(s) && AllPlausible(s.now, SkewsOf(s)) && Close(SkewsOf(s), d)
    requires d >= 0.0 && bound > 0.0
    ensures forall rounds :: EnabledRounds(s, rounds) && |rounds| >= enough ==>
      Close(SkewsOf(AfterRounds(s, rounds)), bound)
  {
    ShrinkIsProper(n);
    enough := DistanceFallsBelow(1.0 - Shrink(n), d, bound);
    forall rounds | EnabledRounds(s, rounds) && |rounds| >= enough
      ensures Close(SkewsOf(AfterRounds(s, rounds)), bound)
    {
      var e := OverlappingRoundsContract(s, rounds, n, d);
      CloserIsClose(SkewsOf(AfterRounds(s, rounds)), e, bound);
    }
  }

  // ---------------------------------------------------------------- a serial round is an overlap

  lemma {:induction false} CountOfConcatenation(a: seq<Step>, b: seq<Step>, step: Step)
    ensures Count(a + b, step) == Count(a, step) + Count(b, step)
  {
    if b == [] {
      assert a + b == a;
    } else {
      CountOfConcatenation(a, b[..|b| - 1], step);
      assert (a + b)[..|a + b| - 1] == a + b[..|b| - 1];
    }
  }

  predicate Counted(step: Step) {
    step.Begin? || step.SendAsk?
  }

  lemma CountInAsk(i: nat, j: nat, step: Step)
    requires Counted(step)
    ensures Count([SendAsk(i, j), Answer(i), Receive(i)], step) == if step == SendAsk(i, j) then 1 else 0
  {
    var one, two, three := [SendAsk(i, j)], [SendAsk(i, j), Answer(i)], [SendAsk(i, j), Answer(i), Receive(i)];
    assert one[..0] == [] && two[..1] == one && three[..2] == two;
    assert Count(one, step) == if step == SendAsk(i, j) then 1 else 0;
    assert Count(three, step) == Count(two, step) == Count(one, step);
  }

  lemma {:induction false} CountInCycle(i: nat, k: nat, step: Step)
    requires Counted(step)
    ensures Count(AskingSteps(i, k, {}), step) ==
            if step == Begin(i) || (step.SendAsk? && step.node == i && step.peer < k && step.peer != i) then 1 else 0
    ensures Quiet(AskingSteps(i, k, {}))
  {
    if k == 0 {
      assert AskingSteps(i, 0, {})[..0] == [];
    } else {
      CountInCycle(i, k - 1, step);
      if k - 1 != i {
        CountOfConcatenation(AskingSteps(i, k - 1, {}), [SendAsk(i, k - 1), Answer(i), Receive(i)], step);
        CountInAsk(i, k - 1, step);
      } else {
        assert AskingSteps(i, k, {}) == AskingSteps(i, k - 1, {});
      }
    }
  }

  lemma CountInWholeCycle(i: nat, n: nat, step: Step)
    requires Counted(step)
    ensures Count(AskingSteps(i, n, {}) + [Finish(i)], step) == Count(AskingSteps(i, n, {}), step)
    ensures Quiet(AskingSteps(i, n, {}) + [Finish(i)])
  {
    CountInCycle(i, n, step);
    assert (AskingSteps(i, n, {}) + [Finish(i)])[..|AskingSteps(i, n, {})|] == AskingSteps(i, n, {});
  }

  lemma {:induction false} CountInRound(order: seq<nat>, n: nat, step: Step)
    requires Order(order, n) && Counted(step)
    ensures Count(RoundSteps(order, n), step) ==
            if step.node in order && (step.Begin? || (step.peer < n && step.peer != step.node)) then 1 else 0
    ensures Quiet(RoundSteps(order, n))
    decreases |order|
  {
    if order == [] {
    } else {
      var i, rest := order[0], order[1..];
      CountInRound(rest, n, step);
      CountInCycle(i, n, step);
      CountInWholeCycle(i, n, step);
      CountOfConcatenation(AskingSteps(i, n, {}) + [Finish(i)], RoundSteps(rest, n), step);
      assert order == [i] + rest;
    }
  }

  /** One cycle after the other is an overlap, too. */
  lemma SerialRoundIsOverlap(order: seq<nat>, n: nat)
    requires FullOrder(order, n)
    ensures OneCycleEach(RoundSteps(order, n), n)
  {
    CountInRound(order, n, Begin(0));
    forall i: nat | i < n
      ensures Count(RoundSteps(order, n), Begin(i)) == 1
    {
      CountInRound(order, n, Begin(i));
    }
    forall i: nat, j: nat | i < n && j < n
      ensures Count(RoundSteps(order, n), SendAsk(i, j)) == if i == j then 0 else 1
    {
      CountInRound(order, n, SendAsk(i, j));
    }
  }
}
