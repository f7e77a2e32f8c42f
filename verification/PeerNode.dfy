/**
 A peer with its own clock, and one synchronization cycle: ask all peers for their time, average, adjust.

 A clock shows the time of the operating system plus its skew.  Here every peer answers at once, so that no time passes
 within a cycle; module ClockNetwork lets time pass and cycles overlap.
 */
module PeerNode {
  import opened Averaging
  import opened PeerReply

  class Peer {
    var drift: real   // injected by the simulated crystal
    var offset: real  // correction computed by the algorithm

    constructor ()
      ensures Skew() == 0.0
    {
      drift, offset := 0.0, 0.0;
    }

    function Skew(): real
      reads this
    {
      drift + offset
    }

    function LocalTime(now: real): real
      reads this
    {
      now + drift + offset
    }

    method Adjust(delta: real)
      modifies `offset
      ensures Skew() == old(Skew()) + delta
    {
      offset := offset + delta;
    }

    /** The drift is drawn at random, at most driftMax either way. */
    method InjectDrift(driftMax: real, draw: real) returns (delta: real)
      requires -driftMax <= draw <= driftMax
      modifies `drift
      ensures delta == draw && Skew() == old(Skew()) + draw
    {
      delta := draw;
      drift := drift + delta;
    }

    method PresetSkew(seconds: real)
      modifies `drift
      ensures Skew() == old(Skew()) + seconds
    {
      drift := drift + seconds;
    }
  }

  // ---------------------------------------------------------------- what a cycle computes

  /**
   The samples of node i once it has asked the first k nodes, itself excepted; its own time comes first.  The silent
   peers do not answer in time.
   */
  function Samples(now: real, skews: seq<real>, i: nat, k: nat, silent: set<nat>): (r: seq<real>)
    requires i < |skews| && k <= |skews|
    ensures r != []
  {
    if k == 0 then [now + skews[i]]
    else
      var before := Samples(now, skews, i, k - 1, silent);
      var peerTime := now + skews[k - 1];
      if k - 1 != i && k - 1 !in silent && Accepted(peerTime, now + skews[i]) then before + [peerTime] else before
  }

  /** The skew of node i after its cycle: moved by the distance of its own time to the mean, if anybody answered. */
  function AdjustedSkew(now: real, skews: seq<real>, i: nat, silent: set<nat>): real
    requires i < |skews|
  {
    var samples := Samples(now, skews, i, |skews|, silent);
    if |samples| == 1 then skews[i] else skews[i] + (Mean(samples) - (now + skews[i]))
  }

  lemma {:induction false} SamplesAreWithin(
      now: real, skews: seq<real>, i: nat, k: nat, silent: set<nat>, lo: real, hi: real)
    requires i < |skews| && k <= |skews| && AllWithin(skews, lo, hi)
    ensures AllWithin(Samples(now, skews, i, k, silent), now + lo, now + hi)
  {
    if k == 0 {
    } else {
      SamplesAreWithin(now, skews, i, k - 1, silent, lo, hi);
    }
  }

  /** Whatever replies are used, the adjusted clock stays between the slowest and the fastest. */
  lemma AdjustedSkewIsWithin(now: real, skews: seq<real>, i: nat, silent: set<nat>, lo: real, hi: real)
    requires i < |skews| && AllWithin(skews, lo, hi)
    ensures lo <= AdjustedSkew(now, skews, i, silent) <= hi
  {
    SamplesAreWithin(now, skews, i, |skews|, silent, lo, hi);
    MeanIsWithin(Samples(now, skews, i, |skews|, silent), now + lo, now + hi);
  }

  /** No reply is discarded: all clocks are after the epoch and within the plausible distance of each other. */
  predicate AllPlausible(now: real, skews: seq<real>) {
    && (forall i :: 0 <= i < |skews| ==> now + skews[i] > 0.0)
    && Close(skews, MAX_PLAUSIBLE_SKEW_S)
  }

  // ---------------------------------------------------------------- the mean of the near clocks

  /** Node j answers node i with a time after the epoch that is at most an hour before or after that of node i. */
  predicate Near(now: real, skews: seq<real>, i: nat, silent: set<nat>, j: nat)
    requires i < |skews| && j < |skews|
  {
    && j !in silent && now + skews[j] > 0.0
    && skews[j] <= skews[i] + 3600.0 && skews[i] <= skews[j] + 3600.0
  }

  /** The clocks that count for node i among the first k: its own, and the near ones. */
  function NearSkews(now: real, skews: seq<real>, i: nat, silent: set<nat>, k: nat): (r: seq<real>)
    requires i < |skews| && k <= |skews|
    ensures i < k ==> r != []
  {
    if k == 0 then []
    else
      var before := NearSkews(now, skews, i, silent, k - 1);
      if k - 1 == i || Near(now, skews, i, silent, k - 1) then before + [skews[k - 1]] else before
  }

  lemma SumWithShifted(r: seq<real>, now: real, skew: real, total: real)
    requires Sum(r) == Times(|r|, now) + total
    ensures |r + [now + skew]| == |r| + 1
    ensures Sum(r + [now + skew]) == Times(|r| + 1, now) + (total + skew)
  {
    SumOfAppend(r, now + skew);
  }

  /** The samples are the own time and the near clocks among those asked, each on top of the common time. */
  predicate SamplesAddUp(now: real, skews: seq<real>, i: nat, silent: set<nat>, k: nat)
    requires i < |skews| && k <= |skews|
  {
    var r, near := Samples(now, skews, i, k, silent), NearSkews(now, skews, i, silent, k);
    && |r| == |near| + (if i < k then 0 else 1)
    && Sum(r) == Times(|r|, now) + (Sum(near) + if i < k then 0.0 else skews[i])
  }

  lemma SampleAddsUp(now: real, skews: seq<real>, i: nat, silent: set<nat>, k: nat)
    requires i < |skews| && k < |skews| && SamplesAddUp(now, skews, i, silent, k)
    ensures SamplesAddUp(now, skews, i, silent, k + 1)
  {
    var before, near := Samples(now, skews, i, k, silent), NearSkews(now, skews, i, silent, k);
    FilterIsAnHour(now + skews[k], now + skews[i]);
    if k == i || Near(now, skews, i, silent, k) {
      SumOfAppend(near, skews[k]);
    }
    if k != i && Near(now, skews, i, silent, k) {
      SumWithShifted(before, now, skews[k], Sum(near) + if i < k then 0.0 else skews[i]);
    }
  }

  lemma OwnSampleAddsUp(now: real, skews: seq<real>, i: nat, silent: set<nat>)
    requires i < |skews|
    ensures SamplesAddUp(now, skews, i, silent, 0)
  {
    SumWithShifted([], now, skews[i], 0.0);
    assert [] + [now + skews[i]] == Samples(now, skews, i, 0, silent);
  }

  lemma {:induction false} AllSamplesAddUp(now: real, skews: seq<real>, i: nat, silent: set<nat>, k: nat)
    requires i < |skews| && k <= |skews|
    ensures SamplesAddUp(now, skews, i, silent, k)
  {
    if k == 0 {
      OwnSampleAddsUp(now, skews, i, silent);
    } else {
      AllSamplesAddUp(now, skews, i, silent, k - 1);
      SampleAddsUp(now, skews, i, silent, k - 1);
    }
  }

  lemma MeanOfShifted(total: real, n: nat, now: real)
    requires n > 0
    ensures (Times(n, now) + total) / n as real == now + total / n as real
  {
    TimesIsProduct(n, now);
    var m := n as real;
    assert total / m * m == total;
    assert (now + total / m) * m == m * now + total;
  }

  lemma {:induction false} OwnSkewIsNear(now: real, skews: seq<real>, i: nat, silent: set<nat>, k: nat)
    requires i < k <= |skews| && |NearSkews(now, skews, i, silent, k)| == 1
    ensures NearSkews(now, skews, i, silent, k) == [skews[i]]
  {
    if k == i + 1 {
      assert |NearSkews(now, skews, i, silent, k)| == |NearSkews(now, skews, i, silent, k - 1)| + 1;
    } else {
      OwnSkewIsNear(now, skews, i, silent, k - 1);
    }
  }

  lemma MeanOfOne(x: real)
    ensures Mean([x]) == x
  {
    assert [x][..0] == [];
    assert Sum([x]) == x;
    assert Mean([x]) == x / 1.0;
  }

  /** A cycle moves a clock to the mean of itself and all near clocks, whoever else is silent or too far away. */
  lemma AdjustedSkewIsMeanOfNear(now: real, skews: seq<real>, i: nat, silent: set<nat>)
    requires i < |skews|
    ensures AdjustedSkew(now, skews, i, silent) == Mean(NearSkews(now, skews, i, silent, |skews|))
  {
    var near := NearSkews(now, skews, i, silent, |skews|);
    AllSamplesAddUp(now, skews, i, silent, |skews|);
    MeanOfShifted(Sum(near), |near|, now);
    if |near| == 1 {
      OwnSkewIsNear(now, skews, i, silent, |skews|);
      MeanOfOne(skews[i]);
    }
  }

  lemma {:induction false} NobodyIsNear(now: real, skews: seq<real>, i: nat, silent: set<nat>, k: nat)
    requires i < |skews| && k <= |skews|
    requires forall j: nat :: j < |skews| && j != i ==>
      j in silent || skews[j] > skews[i] + 3600.0 || skews[j] < skews[i] - 3600.0
    ensures NearSkews(now, skews, i, silent, k) == if i < k then [skews[i]] else []
  {
    if k == 0 {
    } else {
      NobodyIsNear(now, skews, i, silent, k - 1);
    }
  }

  /** If every peer is silent, or more than an hour away to either side, the clock is left alone. */
  lemma FarPeersAreIgnored(now: real, skews: seq<real>, i: nat, silent: set<nat>)
    requires i < |skews|
    requires forall j: nat :: j < |skews| && j != i ==>
      j in silent || skews[j] > skews[i] + 3600.0 || skews[j] < skews[i] - 3600.0
    ensures AdjustedSkew(now, skews, i, silent) == skews[i]
  {
    NobodyIsNear(now, skews, i, silent, |skews|);
    AdjustedSkewIsMeanOfNear(now, skews, i, silent);
    MeanOfOne(skews[i]);
  }

  lemma {:induction false} AllAreNear(now: real, skews: seq<real>, i: nat, k: nat)
    requires i < |skews| && k <= |skews| && AllPlausible(now, skews)
    ensures NearSkews(now, skews, i, {}, k) == skews[..k]
  {
    if k == 0 {
    } else {
      AllAreNear(now, skews, i, k - 1);
      assert skews[k - 1] - skews[i] <= MAX_PLAUSIBLE_SKEW_S && skews[i] - skews[k - 1] <= MAX_PLAUSIBLE_SKEW_S;
      assert skews[..k] == skews[..k - 1] + [skews[k - 1]];
    }
  }

  /** When everybody answers and nothing is discarded the node jumps to the mean of all skews. */
  lemma AdjustedSkewIsMean(now: real, skews: seq<real>, i: nat)
    requires i < |skews| && AllPlausible(now, skews)
    ensures AdjustedSkew(now, skews, i, {}) == Mean(skews)
  {
    AdjustedSkewIsMeanOfNear(now, skews, i, {});
    AllAreNear(now, skews, i, |skews|);
    assert skews[..|skews|] == skews;
  }

  // ---------------------------------------------------------------- the cycle and the round

  ghost predicate Separate(nodes: seq<Peer>) {
    forall i, j :: 0 <= i < j < |nodes| ==> nodes[i] != nodes[j]
  }

  ghost function Skews(nodes: seq<Peer>): (r: seq<real>)
    reads nodes
    ensures |r| == |nodes| && forall i :: 0 <= i < |nodes| ==> r[i] == nodes[i].Skew()
  {
    seq(|nodes|, i requires 0 <= i < |nodes| reads nodes => nodes[i].Skew())
  }

  method Average(samples: seq<real>) returns (mean: real)
    requires samples != []
    ensures mean == Mean(samples)
  {
    var total := 0.0;
    for k := 0 to |samples|
      invariant total == Sum(samples[..k])
    {
      assert samples[..k + 1][..k] == samples[..k];
      total := total + samples[k];
    }
    assert samples[..|samples|] == samples;
    mean := total / |samples| as real;
  }

  /** Node i reads its own time and then asks every other node for its time; the silent ones do not answer in time. */
  method Collect(nodes: seq<Peer>, i: nat, now: real, silent: set<nat>) returns (samples: seq<real>)
    requires i < |nodes|
    ensures samples == Samples(now, Skews(nodes), i, |nodes|, silent)
  {
    samples := [nodes[i].LocalTime(now)];
    for j := 0 to |nodes|
      invariant samples == Samples(now, Skews(nodes), i, j, silent)
    {
      if j != i && j !in silent {
        var peerTime := nodes[j].LocalTime(now);
        if Accepted(peerTime, nodes[i].LocalTime(now)) {
          samples := samples + [peerTime];
        }
      }
    }
  }

  /** One cycle of node i, at OS time `now`. */
  method Cycle(nodes: seq<Peer>, i: nat, now: real, silent: set<nat>)
    requires i < |nodes| && Separate(nodes)
    modifies nodes[i]
    ensures Skews(nodes) == old(Skews(nodes))[i := AdjustedSkew(now, old(Skews(nodes)), i, silent)]
  {
    ghost var skews := Skews(nodes);
    var ownTime := nodes[i].LocalTime(now);
    var samples := Collect(nodes, i, now, silent);
    if |samples| != 1 {
      var average := Average(samples);
      nodes[i].Adjust(average - ownTime);
    }
    SkewsAfter(nodes, i, skews, AdjustedSkew(now, skews, i, silent));
  }

  lemma SkewsAfter(nodes: seq<Peer>, i: nat, skews: seq<real>, skew: real)
    requires i < |nodes| == |skews| && nodes[i].Skew() == skew
    requires forall j :: 0 <= j < |nodes| && j != i ==> nodes[j].Skew() == skews[j]
    ensures Skews(nodes) == skews[i := skew]
  {
  }

  lemma MeanKeepsPlausible(now: real, skews: seq<real>, i: nat)
    requires i < |skews| && AllPlausible(now, skews)
    ensures AllPlausible(now, skews[i := Mean(skews)])
  {
    var top, bottom := Extremes(skews);
    MeanIsWithin(skews, skews[bottom], skews[top]);
    assert skews[top] - skews[bottom] <= MAX_PLAUSIBLE_SKEW_S;
  }

  lemma LaterIsPlausible(now: real, later: real, skews: seq<real>)
    requires AllPlausible(now, skews) && now <= later
    ensures AllPlausible(later, skews)
  {
  }

  /** Between two cycles any time may pass. */
  method Wait(now: real) returns (later: real)
    ensures now <= later
  {
    var pause: real := *;
    later := if pause > 0.0 then now + pause else now;
  }

  /** Some time later node i runs its cycle: it jumps to the mean, and afterwards still no reply will be discarded. */
  method WaitAndCycle(nodes: seq<Peer>, i: nat, now: real) returns (later: real)
    requires i < |nodes| && Separate(nodes) && AllPlausible(now, Skews(nodes))
    modifies nodes[i]
    ensures Skews(nodes) == old(Skews(nodes))[i := Mean(old(Skews(nodes)))]
    ensures now <= later && AllPlausible(later, Skews(nodes))
  {
    ghost var skews := Skews(nodes);
    later := Wait(now);
    LaterIsPlausible(now, later, skews);
    AdjustedSkewIsMean(later, skews, i);
    MeanKeepsPlausible(later, skews, i);
    Cycle(nodes, i, later, {});
  }

  /** One round: every node of the order runs its cycle once, one after the other. */
  method SerialRound(nodes: seq<Peer>, order: seq<nat>, now: real) returns (later: real)
    requires Separate(nodes) && Order(order, |nodes|) && AllPlausible(now, Skews(nodes))
    modifies nodes
    ensures Skews(nodes) == Round(old(Skews(nodes)), order)
    ensures now <= later && AllPlausible(later, Skews(nodes))
  {
    later := now;
    for k := 0 to |order|
      invariant Order(order[k..], |nodes|) && now <= later && AllPlausible(later, Skews(nodes))
      invariant Round(Skews(nodes), order[k..]) == Round(old(Skews(nodes)), order)
    {
      assert order[k..][0] == order[k] && order[k..][1..] == order[k + 1..];
      later := WaitAndCycle(nodes, order[k], later);
    }
  }

  /** The draws of the initial skews: at most half the spread either way. */
  predicate Draws(draws: seq<real>, n: nat, spread: real) {
    |draws| == n && AllWithin(draws, -spread / 2.0, spread / 2.0)
  }

  /** A full mesh of n peers, each with a random initial skew. */
  method BuildNodes(n: nat, spread: real, draws: seq<real>) returns (nodes: seq<Peer>)
    requires Draws(draws, n, spread)
    ensures fresh(nodes) && Separate(nodes) && Skews(nodes) == draws
  {
    nodes := [];
    for i := 0 to n
      invariant |nodes| == i && fresh(nodes) && Separate(nodes)
      invariant forall k :: 0 <= k < i ==> nodes[k].Skew() == draws[k]
    {
      var node := new Peer();
      node.PresetSkew(draws[i]);
      nodes := nodes + [node];
    }
  }

  lemma HalfSpreads(skews: seq<real>, spread: real, now: real)
    requires 0.0 <= spread <= MAX_PLAUSIBLE_SKEW_S && spread < now
    requires AllWithin(skews, -spread / 2.0, spread / 2.0)
    ensures Close(skews, spread) && AllPlausible(now, skews)
  {
  }

  /**
   The launcher with its promise: nodes that start up to `spread` apart come closer by the factor 1 - 2 / n^2 with every
   serial round, in whatever order the nodes run in it and however much time passes between their cycles.
   */
  method Synchronize(n: nat, spread: real, draws: seq<real>, orders: seq<seq<nat>>, now: real)
      returns (nodes: seq<Peer>)
    requires n > 1 && FullOrders(orders, n) && Draws(draws, n, spread)
    requires 0.0 <= spread <= MAX_PLAUSIBLE_SKEW_S && spread < now
    ensures |nodes| == n && Skews(nodes) == Rounds(draws, orders)
    ensures Close(Skews(nodes), Power(1.0 - Shrink(n), |orders|) * spread)
  {
    nodes := BuildNodes(n, spread, draws);
    HalfSpreads(draws, spread, now);
    SerialRounds(nodes, orders, now);
    RoundsContract(draws, orders, n, spread);
  }

  method SerialRounds(nodes: seq<Peer>, orders: seq<seq<nat>>, now: real)
    requires Separate(nodes) && FullOrders(orders, |nodes|) && AllPlausible(now, Skews(nodes))
    modifies nodes
    ensures Skews(nodes) == Rounds(old(Skews(nodes)), orders)
  {
    var later := now;
    for k := 0 to |orders|
      invariant AllPlausible(later, Skews(nodes))
      invariant Skews(nodes) == Rounds(old(Skews(nodes)), orders[..k])
    {
      assert orders[..k + 1][..k] == orders[..k];
      later := SerialRound(nodes, orders[k], later);
    }
    assert orders[..|orders|] == orders;
  }
}
