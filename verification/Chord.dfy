/**
 Chord lookup on a ring of 2^m identifiers: greedy finger routing finds the successor of a key in at most m + 1 hops.
 */
module Chord {
  import opened Arithmetic

  function Pow2(i: nat): (p: nat)
    ensures p > 0
  {
    if i == 0 then 1 else 2 * Pow2(i - 1)
  }

  lemma {:induction false} Pow2Increases(i: nat, j: nat)
    requires i < j
    ensures Pow2(i) + Pow2(i) <= Pow2(j)
  {
    if i + 1 == j {
    } else {
      Pow2Increases(i, j - 1);
    }
  }

  /** A finger: its number counted from 1, the identifier it aims at, and the node responsible for it. */
  type Finger = (nat, nat, nat)

  datatype Ring = Ring(m: nat, nodes: seq<nat>) {

    function Size(): nat {
      Pow2(m)
    }

    predicate Valid() {
      && m > 0
      && nodes != []
      && (forall i, j :: 0 <= i < j < |nodes| ==> nodes[i] < nodes[j])
      && (forall i :: 0 <= i < |nodes| ==> nodes[i] < Size())
    }

    /** The first node from index i on that is not below the key; the first node of all if there is none. */
    function SuccessorFrom(key: int, i: nat): nat
      requires nodes != [] && i <= |nodes|
      decreases |nodes| - i
    {
      if i == |nodes| then nodes[0]
      else if nodes[i] >= key then nodes[i]
      else SuccessorFrom(key, i + 1)
    }

    function Successor(key: int): nat
      requires nodes != []
    {
      SuccessorFrom(key, 0)
    }

    function FingerStart(node: int, i: nat): nat {
      (node + Pow2(i)) % Size()
    }

    function FingerAt(node: int, i: nat): Finger
      requires nodes != []
    {
      (i + 1, FingerStart(node, i), Successor(FingerStart(node, i)))
    }

    predicate InInterval(x: int, a: int, b: int) {
      var a, b, x := a % Size(), b % Size(), x % Size();
      if a < b then a < x < b else x > a || x < b
    }

    /** How far b lies clockwise from a. */
    function Distance(a: nat, b: nat): nat
      requires a < Size() && b < Size()
    {
      if a <= b then b - a else b + Size() - a
    }

    // ---------------------------------------------------------------- the algorithms

    method FindSuccessor(key: int) returns (node: nat)
      requires nodes != []
      ensures node == Successor(key)
    {
      for i := 0 to |nodes|
        invariant SuccessorFrom(key, i) == Successor(key)
      {
        if nodes[i] >= key {
          return nodes[i];
        }
      }
      return nodes[0];
    }

    method FingerTable(node: int) returns (table: seq<Finger>)
      requires nodes != []
      ensures |table| == m
      ensures forall i :: 0 <= i < m ==> table[i] == FingerAt(node, i)
      ensures forall i :: 0 <= i < m ==>
        table[i].0 == i + 1 && table[i].1 == (node + Pow2(i)) % Size() && table[i].2 == Successor(table[i].1)
    {
      table := [];
      for i := 0 to m
        invariant |table| == i
        invariant forall k :: 0 <= k < i ==> table[k] == FingerAt(node, k)
      {
        var start := (node + Pow2(i)) % Size();
        var target := FindSuccessor(start);
        table := table + [(i + 1, start, target)];
      }
    }

    /** The target of the highest finger that lies before the key, or the current node if there is none. */
    method ClosestFinger(table: seq<Finger>, current: int, key: int) returns (next: int)
      requires nodes != [] && |table| == m && forall i :: 0 <= i < m ==> table[i] == FingerAt(current, i)
      ensures IsClosestFinger(current, next, key)
    {
      next := current;
      var f := m;
      while f > 0
        invariant 0 <= f <= m && next == current
        invariant forall j :: f <= j < m ==> !InInterval(FingerAt(current, j).2, current, key)
      {
        f := f - 1;
        if InInterval(table[f].2, current, key) {
          return table[f].2;
        }
      }
    }

    ghost predicate IsClosestFinger(current: int, next: int, key: int)
      requires nodes != []
    {
      || (exists f :: 0 <= f < m && IsHighestFinger(current, f, key) && next == FingerAt(current, f).2)
      || (next == current && forall j :: 0 <= j < m ==> !InInterval(FingerAt(current, j).2, current, key))
    }

    ghost predicate IsHighestFinger(current: int, f: nat, key: int)
      requires nodes != []
    {
      && InInterval(FingerAt(current, f).2, current, key)
      && forall j :: f < j < m ==> !InInterval(FingerAt(current, j).2, current, key)
    }

    /** Reports the path, in which the last node is the one responsible for the key.  Any number may be the start. */
    method Lookup(key: int, startNode: int) returns (path: seq<int>)
      requires Valid()
      ensures IsRoute(path, startNode, key)
    {
      path := [startNode];
      var current := startNode;
      ghost var i := m;
      StartIsClose(startNode % Size(), key % Size());
      while true
        invariant Travelled(path, startNode, current, key, i)
        decreases i
      {
        var table := FingerTable(current);
        var succ := table[0].2;
        FirstFingerDecides(current, key);
        if key % Size() == succ || InInterval(key, current, succ) {
          Arrive(path, startNode, current, key, i, succ);
          path := path + [succ];
          return;
        }
        var next := ClosestFinger(table, current, key);
        TravelOn(path, startNode, current, key, i, next);
        assert next != current;  // the fallback for "no finger found" is never taken
        path := path + [next];
        current := next;
        i := i - 1;
      }
    }

    /** What a lookup must report. */
    ghost predicate IsRoute(path: seq<int>, start: int, key: int)
      requires Valid()
    {
      && 2 <= |path| <= m + 2
      && path[0] == start && path[|path| - 1] == Successor(key % Size())
      // no overshoot: every hop but the last goes on to a node strictly between the current one and the key
      && Approaches(path[..|path| - 1], key % Size())
      // every hop but the last follows the highest finger before the key
      && FollowsFingers(path[..|path| - 1], key)
      // the last hop is to the next node on the ring, which has reached the key
      && path[|path| - 1] in nodes && Reaches(path[|path| - 2] % Size(), path[|path| - 1], key % Size())
    }

    /** The path so far, with at most i hops to go before the last one. */
    ghost predicate Travelled(path: seq<int>, start: int, current: int, key: int, i: nat)
      requires Valid()
    {
      && i <= m && |path| == m - i + 1
      && path[0] == start && path[|path| - 1] == current
      && Approaches(path, key % Size())
      && FollowsFingers(path, key)
      && (current % Size() in nodes || i == m)
      && Close(current % Size(), key % Size(), i)
    }

    lemma TravelOn(path: seq<int>, start: int, current: int, key: int, i: nat, next: int)
      requires Valid() && Travelled(path, start, current, key, i) && IsClosestFinger(current, next, key)
      requires Between(current % Size(), FingerAt(current, 0).2, key % Size())
      ensures i > 0 && next != current && Travelled(path + [next], start, next, key, i - 1)
    {
      HopHalves(current, next, key, i);
      HopIsNew(current, next, key % Size());
      FollowsOneMore(path, current, next, key);
    }

    lemma Arrive(path: seq<int>, start: int, current: int, key: int, i: nat, succ: nat)
      requires Valid() && Travelled(path, start, current, key, i)
      requires succ in nodes && Reaches(current % Size(), succ, key % Size())
      ensures IsRoute(path + [succ], start, key)
    {
      var path' := path + [succ];
      NextNodeIsSuccessor(current % Size(), succ, key % Size());
      assert path'[|path'| - 2] == current;
      assert (path + [succ])[..|path|] == path;
    }

    // ---------------------------------------------------------------- arcs

    /** How far one travels clockwise from a to reach b; from a node to itself that is once around. */
    function Arc(a: nat, b: nat): nat
      requires a < Size() && b < Size()
    {
      if a == b then Size() else Distance(a, b)
    }

    predicate Between(a: nat, x: nat, b: nat) {
      a < Size() && b < Size() && x < Size() && 0 < Distance(a, x) < Arc(a, b)
    }

    /** Every hop of the path is to a node strictly between the one before and k. */
    predicate Approaches(path: seq<int>, k: nat) {
      && (forall j :: 0 < j < |path| ==> path[j] in nodes)
      && (forall j :: 0 < j < |path| ==> Between(path[j - 1] % Size(), path[j], k))
    }

    /** Every hop of the path is to the target of the highest finger before the key, or to the same node without one. */
    ghost predicate FollowsFingers(path: seq<int>, key: int)
      requires nodes != []
    {
      forall j :: 0 < j < |path| ==> IsClosestFinger(path[j - 1], path[j], key)
    }

    lemma FollowsOneMore(path: seq<int>, current: int, next: int, key: int)
      requires nodes != [] && path != [] && FollowsFingers(path, key)
      requires path[|path| - 1] == current && IsClosestFinger(current, next, key)
      ensures FollowsFingers(path + [next], key)
    {
    }

    lemma HopIsNew(start: int, next: nat, k: nat)
      requires Between(start % Size(), next, k)
      ensures next % Size() == next && next != start
    {
      SmallMod(next, Size());
    }

    /** Going on from a, one meets k not later than b, and no node before b. */
    predicate Reaches(a: nat, b: nat, k: nat) {
      && a < Size() && b < Size() && k < Size()
      && Arc(a, k) <= Arc(a, b)
      && forall x :: x in nodes && x < Size() ==> Arc(a, b) <= Arc(a, x)
    }

    /** A hop to a node in between shortens the way to the key by the length of the hop. */
    lemma HopComesCloser(a: nat, x: nat, k: nat)
      requires Between(a, x, k)
      ensures Arc(x, k) == Arc(a, k) - Distance(a, x) < Arc(a, k)
    {
    }

    /** Every node strictly between the current one and k is less than 2^i away. */
    predicate Close(current: nat, k: nat, i: nat) {
      forall x :: x in nodes && Between(current, x, k) ==> Distance(current, x) < Pow2(i)
    }

    lemma StartIsClose(current: nat, k: nat)
      requires Valid() && current < Size()
      ensures Close(current, k, m)
    {
    }

    /** The interval test is betweenness on the ring, with "everything but a" for an interval from a to a. */
    lemma IntervalIsBetween(x: int, a: int, b: int)
      ensures InInterval(x, a, b) <==> Between(a % Size(), x % Size(), b % Size())
    {
    }

    lemma NodeBound(x: nat)
      requires Valid() && x in nodes
      ensures x < Size()
    {
    }

    lemma {:induction false} SuccessorFromScan(key: int, i: nat)
      requires Valid() && i <= |nodes| && forall j :: 0 <= j < i ==> nodes[j] < key
      ensures SuccessorFrom(key, i) in nodes
      ensures forall x :: x in nodes && x >= key ==> key <= SuccessorFrom(key, i) <= x
      ensures (forall x :: x in nodes ==> x < key) ==> forall x :: x in nodes ==> SuccessorFrom(key, i) <= x
      decreases |nodes| - i
    {
      if i == |nodes| || nodes[i] >= key {
      } else {
        SuccessorFromScan(key, i + 1);
      }
    }

    /** The linear scan finds the nearest node clockwise. */
    lemma SuccessorIsNearest(s: nat)
      requires Valid() && s < Size()
      ensures Successor(s) in nodes && Successor(s) < Size()
      ensures forall x :: x in nodes && x < Size() ==> Distance(s, Successor(s)) <= Distance(s, x)
    {
      SuccessorFromScan(s, 0);
      NodeBound(Successor(s));
    }

    lemma FingerStartIsAhead(current: nat, i: nat)
      requires current < Size() && i < m
      ensures FingerStart(current, i) < Size() && Distance(current, FingerStart(current, i)) == Pow2(i)
    {
      Pow2Increases(i, m);
      if current + Pow2(i) < Size() {
        SmallMod(current + Pow2(i), Size());
      } else {
        WrapMod(current + Pow2(i), Size());
      }
    }

    /** A finger's target lies at least 2^i on, and not beyond any node that does, unless it wraps around. */
    lemma FingerReach(current: nat, i: nat)
      requires Valid() && current < Size() && i < m
      ensures var t := FingerAt(current, i).2;
              && t in nodes && t < Size()
              && (current in nodes ==> t == current || Pow2(i) <= Distance(current, t))
              && forall x :: x in nodes && x < Size() && Pow2(i) <= Distance(current, x) ==>
                   Pow2(i) <= Distance(current, t) <= Distance(current, x)
    {
      FingerStartIsAhead(current, i);
      var s := FingerStart(current, i);
      SuccessorIsNearest(s);
      assert current in nodes ==> Distance(s, Successor(s)) <= Distance(s, current);
    }

    /** The first finger is the next node on the ring, and the exit test asks whether it has reached the key. */
    lemma FirstFingerDecides(start: int, key: int)
      requires Valid()
      ensures var current, k, succ := start % Size(), key % Size(), FingerAt(start, 0).2;
              && succ in nodes && succ < Size()
              && (k == succ || InInterval(key, start, succ) <==> Reaches(current, succ, k))
              && (Reaches(current, succ, k) ==> succ == Successor(k))
              && (!Reaches(current, succ, k) ==> Between(current, succ, k))
    {
      var current, k, succ := start % Size(), key % Size(), FingerAt(start, 0).2;
      OnlyTheRemainderCounts(start, 0);
      FingerReach(current, 0);
      IntervalIsBetween(key, start, succ);
      SmallMod(succ, Size());
      assert forall x :: x in nodes && x < Size() ==> Arc(current, succ) <= Arc(current, x);
      if Reaches(current, succ, k) {
        SuccessorIsNearest(k);
        NextNodeIsSuccessor(current, succ, k);
      }
    }

    lemma NextNodeIsSuccessor(current: nat, succ: nat, k: nat)
      requires Valid() && succ in nodes && Reaches(current, succ, k)
      ensures succ == Successor(k)
    {
      SuccessorIsNearest(k);
      var t := Successor(k);
      assert Distance(k, t) <= Distance(k, succ);
      assert Arc(current, succ) <= Arc(current, t);
    }

    /** The fingers of a number are those of its remainder, and the interval test asks where they lie. */
    lemma FingersBetween(start: int, key: int)
      requires Valid()
      ensures forall f :: 0 <= f < m ==>
        var current, target := start % Size(), FingerAt(start, f).2;
        && FingerAt(start, f) == FingerAt(current, f)
        && (InInterval(target, start, key) <==> Between(current, target, key % Size()))
    {
      forall f | 0 <= f < m
        ensures FingerAt(start, f) == FingerAt(start % Size(), f)
        ensures InInterval(FingerAt(start, f).2, start, key) <==>
                Between(start % Size(), FingerAt(start, f).2, key % Size())
      {
        OnlyTheRemainderCounts(start, f);
        FingerReach(start % Size(), f);
        IntervalIsBetween(FingerAt(start, f).2, start, key);
        SmallMod(FingerAt(start, f).2, Size());
      }
    }

    lemma OnlyTheRemainderCounts(start: int, i: nat)
      requires nodes != []
      ensures FingerAt(start, i) == FingerAt(start % Size(), i)
    {
      ModOfSum(start, Pow2(i), Size());
    }

    /** The highest finger reaches at least as far as any finger that some node before k allows. */
    lemma HighestFingerReaches(current: nat, f: nat, k: nat, i: nat, x: nat)
      requires Valid() && current < Size() && (current in nodes || i == m - 1) && f < m && i < m
      requires x in nodes && Between(current, x, k) && Pow2(i) <= Distance(current, x)
      requires Between(current, FingerAt(current, f).2, k)
      requires forall j :: f < j < m ==> !Between(current, FingerAt(current, j).2, k)
      ensures Pow2(i) <= Distance(current, FingerAt(current, f).2)
    {
      FingerReach(current, i);
      FingerReach(current, f);
      assert i <= f;
      if i < f {
        Pow2Increases(i, f);
      }
    }

    lemma HopStaysClose(current: nat, next: nat, k: nat, i: nat)
      requires next in nodes && i > 0 && Close(current, k, i) && Between(current, next, k)
      requires forall x :: x in nodes && Between(current, x, k) && Pow2(i - 1) <= Distance(current, x) ==>
                 Pow2(i - 1) <= Distance(current, next)
      ensures Close(next, k, i - 1)
    {
      forall x | x in nodes && Between(next, x, k)
        ensures Distance(next, x) < Pow2(i - 1)
      {
        assert Distance(current, x) == Distance(current, next) + Distance(next, x);
        assert Between(current, x, k);
      }
    }

    /** The finger that was followed is the highest one before k; there is one, because the first one is before k. */
    lemma FingerIsFound(start: int, next: int, key: int) returns (f: nat)
      requires Valid() && IsClosestFinger(start, next, key)
      requires Between(start % Size(), FingerAt(start, 0).2, key % Size())
      ensures f < m && next == FingerAt(start % Size(), f).2 && Between(start % Size(), next, key % Size())
      ensures forall j :: f < j < m ==> !Between(start % Size(), FingerAt(start % Size(), j).2, key % Size())
    {
      FingersBetween(start, key);
      assert InInterval(FingerAt(start, 0).2, start, key);
      f :| 0 <= f < m && IsHighestFinger(start, f, key) && next == FingerAt(start, f).2;
    }

    /** While the next node has not reached the key, a finger is found, and it halves the bound on what remains. */
    lemma HopHalves(start: int, next: int, key: int, i: nat)
      requires Valid() && (start % Size() in nodes || i == m) && i <= m
      requires Close(start % Size(), key % Size(), i) && IsClosestFinger(start, next, key)
      requires Between(start % Size(), FingerAt(start, 0).2, key % Size())
      ensures next in nodes && i > 0
      ensures Between(start % Size(), next, key % Size()) && Close(next, key % Size(), i - 1)
    {
      var current, k := start % Size(), key % Size();
      OnlyTheRemainderCounts(start, 0);
      FingerReach(current, 0);
      var f := FingerIsFound(start, next, key);
      FingerReach(current, f);
      forall x | x in nodes && Between(current, x, k) && Pow2(i - 1) <= Distance(current, x)
        ensures Pow2(i - 1) <= Distance(current, next)
      {
        HighestFingerReaches(current, f, k, i - 1, x);
      }
      HopStaysClose(current, next, k, i);
    }

    /**
     The lookup reduces its key to the ring but the linear scan does not: the scan of an unreduced key falls back to
     the first node.  So the two agree exactly for keys on the ring and for keys that wrap to the first node anyway.
     */
    lemma ScanAgreesOnlyOnTheRing(key: int)
      requires Valid()
      ensures Successor(key) == Successor(key % Size()) <==>
        || 0 <= key < Size()
        || key % Size() <= nodes[0]
        || nodes[|nodes| - 1] < key % Size()
    {
      if 0 <= key < Size() {
        SmallMod(key, Size());
      } else {
        OffTheRing(key);
        FirstNodeTakes(key % Size());
      }
    }

    /** With the nodes of the source, key 35 is looked up as key 3, at node 4; the scan falls back to node 1. */
    lemma ScanFailsOffTheRing()
      requires this == Ring(5, [1, 4, 9, 11, 14, 18, 20, 21, 28])
      ensures Successor(35 % Size()) == 4 && Successor(35) == 1
    {
      assert Size() == 2 * Pow2(4) == 4 * Pow2(3) == 8 * Pow2(2) == 32;
      SuccessorFromScan(3, 0);
      OffTheRing(35);
    }

    lemma OffTheRing(key: int)
      requires Valid() && !(0 <= key < Size())
      ensures Successor(key) == nodes[0]
    {
      SuccessorFromScan(key, 0);
      NodeBound(nodes[0]);
    }

    lemma FirstNodeTakes(k: nat)
      requires Valid()
      ensures Successor(k) == nodes[0] <==> k <= nodes[0] || nodes[|nodes| - 1] < k
    {
      SuccessorFromScan(k, 0);
      assert nodes[0] in nodes && nodes[|nodes| - 1] in nodes;
    }
  }
}
