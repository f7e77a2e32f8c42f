/** Mutual exclusion with one token that travels around a ring of n processes. */
module TokenRing {
  import opened Arithmetic

  /** How often a process received the token, and how often it used the resource while it had it. */
  datatype Stats = Stats(passes: nat, uses: nat)

  function TotalPasses(stats: seq<Stats>): nat {
    if stats == [] then 0 else TotalPasses(stats[..|stats| - 1]) + stats[|stats| - 1].passes
  }

  lemma {:induction false} TotalAfterPass(stats: seq<Stats>, p: nat, s: Stats)
    requires p < |stats| && s.passes == stats[p].passes + 1
    ensures TotalPasses(stats[p := s]) == TotalPasses(stats) + 1
  {
    var last := |stats| - 1;
    if p == last {
      assert stats[p := s][..last] == stats[..last];
    } else {
      TotalAfterPass(stats[..last], p, s);
      assert stats[p := s][..last] == stats[..last][p := s];
    }
  }

  lemma {:induction false} NoPassesYet(stats: seq<Stats>)
    requires forall p :: 0 <= p < |stats| ==> stats[p].passes == 0
    ensures TotalPasses(stats) == 0
  {
    if stats == [] {
    } else {
      NoPassesYet(stats[..|stats| - 1]);
    }
  }

  /** The share of process p of the passes in s steps: all equal, the remainder to those first in the ring. */
  function Share(n: nat, s: nat, p: nat): nat
    requires n > 0
  {
    s / n + if p < s % n then 1 else 0
  }

  /** One more step: the token moves on, and only its holder's share has grown. */
  lemma StepMovesOn(n: nat, s: nat, holder: nat)
    requires n > 0 && holder == s % n
    ensures (holder + 1) % n == (s + 1) % n < n
    ensures forall p: nat :: p < n ==> Share(n, s + 1, p) == Share(n, s, p) + if p == holder then 1 else 0
  {
    DivModStep(s, n);
    SmallMod(if holder + 1 == n then 0 else holder + 1, n);
    DivModUnique(n, n, 1, 0);
  }

  /** The share is what one gets by counting the steps s' < s with s' % n == p. */
  lemma ShareIsRoundedUp(n: nat, s: nat, p: nat)
    requires p < n
    ensures Share(n, s, p) == (s + n - 1 - p) / n
  {
    var q, r := s / n, s % n;
    if p < r {
      assert s + n - 1 - p == n * (q + 1) + (r - 1 - p);
      DivModUnique(s + n - 1 - p, n, q + 1, r - 1 - p);
    } else {
      DivModUnique(s + n - 1 - p, n, q, r + n - 1 - p);
    }
  }

  lemma SharesAreFair(n: nat, s: nat, p: nat, q: nat)
    requires p < n && q < n
    ensures Share(n, s, p) <= Share(n, s, q) + 1
    ensures p <= q ==> Share(n, s, p) >= Share(n, s, q)
  {
  }

  /** How often process p wants the resource in a step in which it has the token. */
  function Wanted(n: nat, wants: seq<bool>, p: nat): nat
    requires n > 0
  {
    if wants == [] then 0
    else
      var s := |wants| - 1;
      Wanted(n, wants[..s], p) + if s % n == p && wants[s] then 1 else 0
  }

  lemma {:induction false} WantedIsWithinShare(n: nat, wants: seq<bool>, p: nat)
    requires n > 0 && p < n
    ensures Wanted(n, wants, p) <= Share(n, |wants|, p)
  {
    if wants == [] {
    } else {
      var s := |wants| - 1;
      WantedIsWithinShare(n, wants[..s], p);
      StepMovesOn(n, s, s % n);
    }
  }

  /**
   After any number of steps, with a draw in each whether the holder wants the resource: the token is where the step
   count says, every process has had its fair share, and has used the resource whenever it wanted to.
   */
  method Circulate(n: nat, wants: seq<bool>) returns (holder: nat, stats: seq<Stats>)
    requires n > 0
    ensures holder == |wants| % n && |stats| == n
    ensures forall p: nat :: p < n ==> stats[p].passes == Share(n, |wants|, p) && stats[p].uses == Wanted(n, wants, p)
    ensures forall p: nat :: p < n ==> stats[p].uses <= stats[p].passes
    ensures TotalPasses(stats) == |wants|
  {
    holder := 0;
    stats := seq(n, p => Stats(0, 0));
    NoPassesYet(stats);
    DivModUnique(0, n, 0, 0);
    for step := 0 to |wants|
      invariant holder == step % n < n && |stats| == n
      invariant forall p: nat :: p < n ==>
        stats[p].passes == Share(n, step, p) && stats[p].uses == Wanted(n, wants[..step], p)
      invariant TotalPasses(stats) == step
    {
      var pid := holder;
      StepMovesOn(n, step, pid);
      assert wants[..step + 1][..step] == wants[..step];
      var s := Stats(stats[pid].passes + 1, stats[pid].uses + if wants[step] then 1 else 0);
      TotalAfterPass(stats, pid, s);
      stats := stats[pid := s];
      holder := (pid + 1) % n;
    }
    assert wants[..|wants|] == wants;
    forall p: nat | p < n
      ensures stats[p].uses <= stats[p].passes
    {
      WantedIsWithinShare(n, wants, p);
    }
  }
}
