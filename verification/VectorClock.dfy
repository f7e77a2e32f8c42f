/**
 Vector clocks: a clock is a list of counters, one per process.

 `Tick` and `Merge` change a clock in place; `Ticked` and `Merged` are the values they leave behind.
 */
module VectorClock {

  type Clock = seq<nat>

  datatype Order = Equal | Before | After | Concurrent

  function Max(a: nat, b: nat): nat {
    if a >= b then a else b
  }

  function Zero(n: nat): (c: Clock)
    ensures |c| == n
    ensures forall i :: 0 <= i < n ==> c[i] == 0
  {
    seq(n, i => 0)
  }

  function Ticked(c: Clock, pid: nat): Clock
    requires pid < |c|
  {
    c[pid := c[pid] + 1]
  }

  function Merged(c: Clock, received: Clock): (r: Clock)
    requires |c| <= |received|
    ensures |r| == |c|
    ensures forall i :: 0 <= i < |c| ==> c[i] <= r[i] && received[i] <= r[i] && (r[i] == c[i] || r[i] == received[i])
  {
    seq(|c|, i requires 0 <= i < |c| => Max(c[i], received[i]))
  }

  method NewClock(n: nat) returns (clock: array<nat>)
    ensures fresh(clock) && clock[..] == Zero(n)
  {
    clock := new nat[n](i => 0);
  }

  method Tick(clock: array<nat>, pid: nat)
    requires pid < clock.Length
    modifies clock
    ensures clock[..] == Ticked(old(clock[..]), pid)
  {
    clock[pid] := clock[pid] + 1;
  }

  /** A received clock that is too short is an index error in the source. */
  method Merge(clock: array<nat>, received: Clock)
    requires clock.Length <= |received|
    modifies clock
    ensures clock[..] == Merged(old(clock[..]), received)
  {
    for i := 0 to clock.Length
      invariant forall k :: 0 <= k < i ==> clock[k] == Max(old(clock[k]), received[k])
      invariant forall k :: i <= k < clock.Length ==> clock[k] == old(clock[k])
    {
      clock[i] := Max(clock[i], received[i]);
    }
  }

  /** Pairwise comparison over the common prefix, as `zip` pairs the entries. */
  predicate AllAtMost(v: Clock, w: Clock) {
    forall i :: 0 <= i < |v| && i < |w| ==> v[i] <= w[i]
  }

  function CompareClocks(v: Clock, w: Clock): Order {
    var le := AllAtMost(v, w);
    var ge := AllAtMost(w, v);
    if le && ge then Equal
    else if le then Before
    else if ge then After
    else Concurrent
  }

  /** On clocks of one length the comparison is a partial order: "equal" is equality and "before" is transitive. */
  lemma ComparisonIsPartialOrder(u: Clock, v: Clock, w: Clock)
    requires |u| == |v| == |w|
    ensures CompareClocks(u, v) == Equal <==> u == v
    ensures CompareClocks(u, v) == Before <==> CompareClocks(v, u) == After
    ensures CompareClocks(u, v) == Before && CompareClocks(v, w) == Before ==> CompareClocks(u, w) == Before
  {
    if AllAtMost(u, v) && AllAtMost(v, u) {
      assert forall i :: 0 <= i < |u| ==> u[i] == v[i];
    }
    if CompareClocks(u, v) == Before && CompareClocks(v, w) == Before {
      var i :| 0 <= i < |v| && v[i] > u[i];
      assert v[i] <= w[i];
      assert !AllAtMost(w, u);
    }
  }
}
