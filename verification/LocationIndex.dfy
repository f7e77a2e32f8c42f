/**
 The index of a hierarchical location service: at every domain above the home of an entity a pointer to the child
 domain to follow.  This module says which index belongs to a placement of entities, and that moves keep it.
 */
module LocationIndex {
  import opened Wrappers
  import opened DomainTree

  type Table = map<string, map<string, string>>

  function Get(t: Table, domain: string, entity: string): Option<string> {
    if domain in t && entity in t[domain] then Some(t[domain][entity]) else None
  }

  function Put(t: Table, domain: string, entity: string, value: string): Table {
    t[domain := (if domain in t then t[domain] else map[])[entity := value]]
  }

  /** Deleting an entry may leave an empty table behind at its domain. */
  function Drop(t: Table, domain: string, entity: string): Table
    requires domain in t
  {
    t[domain := t[domain] - {entity}]
  }

  /** The table without its empty entries. */
  function Prune(t: Table): Table {
    map d | d in t && t[d] != map[] :: t[d]
  }

  predicate NoEmptyTables(t: Table) {
    forall d :: d in t ==> t[d] != map[]
  }

  lemma PruneRemovesEmptyTables(t: Table)
    ensures Prune(t) == t <==> NoEmptyTables(t)
  {
    if Prune(t) == t {
      assert forall d :: d in t ==> d in Prune(t);
    }
  }

  // ---------------------------------------------------------------- registration

  function Registered(h: Hierarchy, pointers: Table, entity: string, domain: string): Table
    requires h.Valid()
    decreases h.Height(domain)
  {
    if !h.HasParent(domain) then pointers
    else Registered(h, Put(pointers, h.Parent(domain), entity, domain), entity, h.Parent(domain))
  }

  function Unregistered(h: Hierarchy, pointers: Table, entity: string, domain: string): Table
    requires h.Valid()
    decreases h.Height(domain)
  {
    if !h.HasParent(domain) then pointers
    else
      var p := h.Parent(domain);
      var pointers' := if Get(pointers, p, entity) == Some(domain) then Drop(pointers, p, entity) else pointers;
      Unregistered(h, pointers', entity, p)
  }

  lemma {:induction false} RegisteredPointers(
      h: Hierarchy, pointers: Table, entity: string, domain: string, d: string, e: string)
    requires h.Valid()
    ensures Get(Registered(h, pointers, entity, domain), d, e) ==
            if e == entity && h.Above(d, domain) then Some(h.StepDown(d, domain)) else Get(pointers, d, e)
    decreases h.Height(domain)
  {
    if !h.HasParent(domain) {
    } else {
      var p := h.Parent(domain);
      RegisteredPointers(h, Put(pointers, p, entity, domain), entity, p, d, e);
      if h.Above(p, p) {
        h.AboveIsHigher(p, p);
      }
    }
  }

  lemma {:induction false} RegisteredHasNoEmptyTables(h: Hierarchy, pointers: Table, entity: string, domain: string)
    requires h.Valid() && NoEmptyTables(pointers)
    ensures NoEmptyTables(Registered(h, pointers, entity, domain))
    decreases h.Height(domain)
  {
    if !h.HasParent(domain) {
    } else {
      var pointers' := Put(pointers, h.Parent(domain), entity, domain);
      assert entity in pointers'[h.Parent(domain)];
      assert NoEmptyTables(pointers');
      RegisteredHasNoEmptyTables(h, pointers', entity, h.Parent(domain));
    }
  }

  lemma {:induction false} UnregisteredPointers(
      h: Hierarchy, pointers: Table, entity: string, domain: string, d: string, e: string)
    requires h.Valid()
    ensures Get(Unregistered(h, pointers, entity, domain), d, e) ==
            if e == entity && h.Above(d, domain) && Get(pointers, d, e) == Some(h.StepDown(d, domain)) then None
            else Get(pointers, d, e)
    decreases h.Height(domain)
  {
    if !h.HasParent(domain) {
    } else {
      var p := h.Parent(domain);
      var pointers' := if Get(pointers, p, entity) == Some(domain) then Drop(pointers, p, entity) else pointers;
      UnregisteredPointers(h, pointers', entity, p, d, e);
      if h.Above(p, p) {
        h.AboveIsHigher(p, p);
      }
    }
  }

  // ---------------------------------------------------------------- the index of a placement

  ghost predicate Located(entities: Table, e: string, domain: string) {
    domain in entities && e in entities[domain]
  }

  ghost predicate Placed(entities: Table, e: string) {
    exists d :: Located(entities, e, d)
  }

  /** Every entity has one home. */
  ghost predicate OneHome(entities: Table) {
    forall e, d, d' :: Located(entities, e, d) && Located(entities, e, d') ==> d == d'
  }

  ghost function Home(entities: Table, e: string): string
    requires Placed(entities, e)
  {
    var d :| Located(entities, e, d);
    d
  }

  /** The pointer that domain d must hold for entity e: towards its home from every domain above it, else none. */
  ghost function Pointer(h: Hierarchy, entities: Table, d: string, e: string): Option<string>
    requires h.Valid()
  {
    if Placed(entities, e) && h.Above(d, Home(entities, e)) then Some(h.StepDown(d, Home(entities, e))) else None
  }

  /** The pointers are the ones for this placement, and there are no others. */
  ghost predicate Indexed(h: Hierarchy, pointers: Table, entities: Table)
    requires h.Valid()
  {
    forall d, e :: Get(pointers, d, e) == Pointer(h, entities, d, e)
  }

  lemma HomeIs(entities: Table, e: string, d: string)
    requires OneHome(entities) && Located(entities, e, d)
    ensures Placed(entities, e) && Home(entities, e) == d
  {
  }

  /** The placement determines the index, but for empty tables. */
  lemma IndexIsUnique(h: Hierarchy, p: Table, q: Table, entities: Table)
    requires h.Valid() && Indexed(h, p, entities) && Indexed(h, q, entities)
    ensures Prune(p) == Prune(q)
  {
    forall d
      ensures d in Prune(p) <==> d in Prune(q)
      ensures d in Prune(p) ==> p[d] == q[d]
    {
      SameRow(h, p, q, entities, d);
      SameRow(h, q, p, entities, d);
    }
  }

  lemma SameRow(h: Hierarchy, p: Table, q: Table, entities: Table, d: string)
    requires h.Valid() && Indexed(h, p, entities) && Indexed(h, q, entities)
    ensures d in Prune(p) ==> d in Prune(q) && p[d] == q[d]
  {
    if d in Prune(p) {
      var e :| e in p[d];
      assert Get(p, d, e) == Pointer(h, entities, d, e) == Get(q, d, e);
      forall x
        ensures x in p[d] <==> x in q[d]
        ensures x in p[d] ==> p[d][x] == q[d][x]
      {
        assert Get(p, d, x) == Pointer(h, entities, d, x) == Get(q, d, x);
      }
      assert p[d] == q[d];
    }
  }

  // ---------------------------------------------------------------- moves

  datatype Move = Move(entity: string, from: string, to: string)

  datatype State = State(pointers: Table, entities: Table)

  ghost predicate Consistent(h: Hierarchy, s: State)
    requires h.Valid()
  {
    OneHome(s.entities) && Indexed(h, s.pointers, s.entities)
  }

  /** Moving an entity that is not where it is said to be is a key error, and changes nothing. */
  function Moved(h: Hierarchy, s: State, mv: Move): State
    requires h.Valid()
  {
    if mv.from !in s.entities || mv.entity !in s.entities[mv.from] then s
    else
      var address := s.entities[mv.from][mv.entity];
      State(Registered(h, Unregistered(h, s.pointers, mv.entity, mv.from), mv.entity, mv.to),
            Put(Drop(s.entities, mv.from, mv.entity), mv.to, mv.entity, address))
  }

  function MovedAll(h: Hierarchy, s: State, moves: seq<Move>): State
    requires h.Valid()
  {
    if moves == [] then s else Moved(h, MovedAll(h, s, moves[..|moves| - 1]), moves[|moves| - 1])
  }

  lemma PlacementAfterMove(h: Hierarchy, s: State, mv: Move)
    requires h.Valid() && OneHome(s.entities) && Located(s.entities, mv.entity, mv.from)
    ensures var entities' := Moved(h, s, mv).entities;
            && OneHome(entities')
            && Located(entities', mv.entity, mv.to)
            && Get(entities', mv.to, mv.entity) == Get(s.entities, mv.from, mv.entity)
            && forall e, d :: e != mv.entity ==>
                 (Located(entities', e, d) <==> Located(s.entities, e, d)) &&
                 (Placed(entities', e) <==> Placed(s.entities, e)) &&
                 Get(entities', d, e) == Get(s.entities, d, e)
  {
    var entities' := Moved(h, s, mv).entities;
    forall e, d
      ensures Located(entities', e, d) <==> if e == mv.entity then d == mv.to else Located(s.entities, e, d)
      ensures e != mv.entity ==> Get(entities', d, e) == Get(s.entities, d, e)
    {
      if e == mv.entity && Located(s.entities, e, d) {
        assert d == mv.from;
      }
    }
  }

  /** A move keeps the index right. */
  lemma MoveKeepsConsistent(h: Hierarchy, s: State, mv: Move)
    requires h.Valid() && Consistent(h, s)
    ensures Consistent(h, Moved(h, s, mv))
  {
    if Located(s.entities, mv.entity, mv.from) {
      var s' := Moved(h, s, mv);
      var without := Unregistered(h, s.pointers, mv.entity, mv.from);
      PlacementAfterMove(h, s, mv);
      HomeIs(s.entities, mv.entity, mv.from);
      HomeIs(s'.entities, mv.entity, mv.to);
      forall d, e
        ensures Get(s'.pointers, d, e) == Pointer(h, s'.entities, d, e)
      {
        UnregisteredPointers(h, s.pointers, mv.entity, mv.from, d, e);
        RegisteredPointers(h, without, mv.entity, mv.to, d, e);
        assert Get(s.pointers, d, e) == Pointer(h, s.entities, d, e);
        if e != mv.entity && Placed(s.entities, e) {
          HomeIs(s'.entities, e, Home(s.entities, e));
        }
      }
    }
  }

  lemma {:induction false} MovesKeepConsistent(h: Hierarchy, s: State, moves: seq<Move>)
    requires h.Valid() && Consistent(h, s)
    ensures Consistent(h, MovedAll(h, s, moves))
  {
    if moves == [] {
    } else {
      MovesKeepConsistent(h, s, moves[..|moves| - 1]);
      MoveKeepsConsistent(h, MovedAll(h, s, moves[..|moves| - 1]), moves[|moves| - 1]);
    }
  }

  // ---------------------------------------------------------------- empty tables

  /** Some entity has its home below domain d, so that d needs a table. */
  ghost predicate Inhabited(h: Hierarchy, entities: Table, d: string)
    requires h.Valid()
  {
    exists e :: LivesBelow(h, entities, e, d)
  }

  ghost predicate LivesBelow(h: Hierarchy, entities: Table, e: string, d: string)
    requires h.Valid()
  {
    Placed(entities, e) && h.Above(d, Home(entities, e))
  }

  /** In a right index exactly the inhabited domains have pointers. */
  lemma TableIsInhabited(h: Hierarchy, s: State, d: string)
    requires h.Valid() && Consistent(h, s)
    ensures Inhabited(h, s.entities, d) <==> d in s.pointers && s.pointers[d] != map[]
  {
    if d in s.pointers && s.pointers[d] != map[] {
      var e :| e in s.pointers[d];
      assert Get(s.pointers, d, e) == Pointer(h, s.entities, d, e);
      assert LivesBelow(h, s.entities, e, d);
    }
    if Inhabited(h, s.entities, d) {
      var e :| LivesBelow(h, s.entities, e, d);
      assert Get(s.pointers, d, e) == Pointer(h, s.entities, d, e);
    }
  }

  lemma {:induction false} RegisteredKeys(h: Hierarchy, pointers: Table, entity: string, domain: string, d: string)
    requires h.Valid()
    ensures d in Registered(h, pointers, entity, domain) <==> d in pointers || h.Above(d, domain)
    decreases h.Height(domain)
  {
    if !h.HasParent(domain) {
    } else {
      var p := h.Parent(domain);
      RegisteredKeys(h, Put(pointers, p, entity, domain), entity, p, d);
    }
  }

  lemma {:induction false} UnregisteredKeys(h: Hierarchy, pointers: Table, entity: string, domain: string, d: string)
    requires h.Valid()
    ensures d in Unregistered(h, pointers, entity, domain) <==> d in pointers
    decreases h.Height(domain)
  {
    if !h.HasParent(domain) {
    } else {
      var p := h.Parent(domain);
      var pointers' := if Get(pointers, p, entity) == Some(domain) then Drop(pointers, p, entity) else pointers;
      UnregisteredKeys(h, pointers', entity, p, d);
    }
  }

  /** A move never takes a table away, and adds one to every domain that is inhabited afterwards. */
  lemma TablesAfterMove(h: Hierarchy, s: State, mv: Move, d: string)
    requires h.Valid() && Consistent(h, s)
    ensures var s' := Moved(h, s, mv);
            d in s'.pointers <==> d in s.pointers || Inhabited(h, s'.entities, d)
  {
    var s' := Moved(h, s, mv);
    MoveKeepsConsistent(h, s, mv);
    TableIsInhabited(h, s', d);
    if Located(s.entities, mv.entity, mv.from) {
      var without := Unregistered(h, s.pointers, mv.entity, mv.from);
      UnregisteredKeys(h, s.pointers, mv.entity, mv.from, d);
      RegisteredKeys(h, without, mv.entity, mv.to, d);
      if h.Above(d, mv.to) {
        PlacementAfterMove(h, s, mv);
        HomeIs(s'.entities, mv.entity, mv.to);
        assert LivesBelow(h, s'.entities, mv.entity, d);
      }
    }
  }

  /** At some time during the moves, the start and the end included, domain d is inhabited. */
  ghost predicate InhabitedDuring(h: Hierarchy, s: State, moves: seq<Move>, d: string)
    requires h.Valid()
  {
    || Inhabited(h, MovedAll(h, s, moves).entities, d)
    || (moves != [] && InhabitedDuring(h, s, moves[..|moves| - 1], d))
  }

  lemma {:induction false} TablesAfterMoves(h: Hierarchy, s: State, moves: seq<Move>, d: string)
    requires h.Valid() && Consistent(h, s)
    ensures d in MovedAll(h, s, moves).pointers <==> d in s.pointers || InhabitedDuring(h, s, moves, d)
  {
    if moves == [] {
      TableIsInhabited(h, s, d);
    } else {
      var front := moves[..|moves| - 1];
      TablesAfterMoves(h, s, front, d);
      MovesKeepConsistent(h, s, front);
      TablesAfterMove(h, MovedAll(h, s, front), moves[|moves| - 1], d);
    }
  }

  /**
   After any sequence of moves the pointers are what the registration loop builds from scratch for the entities as they
   are now, except for the empty tables that moves leave behind.  The two are equal outright exactly if every domain
   that had a table, or was inhabited at some time during the moves, is inhabited in the end.
   */
  lemma MovesMatchRebuild(h: Hierarchy, s: State, moves: seq<Move>, rebuilt: Table)
    requires h.Valid() && Consistent(h, s)
    requires Indexed(h, rebuilt, MovedAll(h, s, moves).entities) && NoEmptyTables(rebuilt)
    ensures var s' := MovedAll(h, s, moves);
            && Prune(s'.pointers) == rebuilt
            && (s'.pointers == rebuilt <==>
                 forall d :: d in s.pointers || InhabitedDuring(h, s, moves, d) ==> Inhabited(h, s'.entities, d))
  {
    var s' := MovedAll(h, s, moves);
    MovesKeepConsistent(h, s, moves);
    IndexIsUnique(h, s'.pointers, rebuilt, s'.entities);
    PruneRemovesEmptyTables(s'.pointers);
    PruneRemovesEmptyTables(rebuilt);
    forall d
      ensures d in s'.pointers <==> d in s.pointers || InhabitedDuring(h, s, moves, d)
      ensures Inhabited(h, s'.entities, d) <==> d in s'.pointers && s'.pointers[d] != map[]
    {
      TablesAfterMoves(h, s, moves, d);
      TableIsInhabited(h, s', d);
    }
  }

  /** Domain d has the home of the moved entity below it, but not the new one and not the home of anybody else. */
  ghost predicate Deserted(h: Hierarchy, s: State, mv: Move, d: string)
    requires h.Valid()
  {
    && h.Above(d, mv.from)
    && !h.Above(d, mv.to)
    && forall e :: e != mv.entity ==> !LivesBelow(h, s.entities, e, d)
  }

  lemma HomesAfterMove(h: Hierarchy, s: State, mv: Move, e: string, d: string)
    requires h.Valid() && OneHome(s.entities) && Located(s.entities, mv.entity, mv.from)
    ensures LivesBelow(h, Moved(h, s, mv).entities, e, d) <==>
            if e == mv.entity then h.Above(d, mv.to) else LivesBelow(h, s.entities, e, d)
    ensures LivesBelow(h, s.entities, mv.entity, d) <==> h.Above(d, mv.from)
  {
    var entities' := Moved(h, s, mv).entities;
    PlacementAfterMove(h, s, mv);
    HomeIs(s.entities, mv.entity, mv.from);
    HomeIs(entities', mv.entity, mv.to);
    if e != mv.entity && Placed(s.entities, e) {
      HomeIs(entities', e, Home(s.entities, e));
    }
  }

  /** A single move leaves an empty table behind exactly if it deserts a domain. */
  lemma MoveLeavesEmptyTable(h: Hierarchy, s: State, mv: Move)
    requires h.Valid() && Consistent(h, s) && NoEmptyTables(s.pointers)
    requires Located(s.entities, mv.entity, mv.from)
    ensures var pointers' := Moved(h, s, mv).pointers;
            NoEmptyTables(pointers') <==> !exists d :: Deserted(h, s, mv, d)
  {
    var s' := Moved(h, s, mv);
    MoveKeepsConsistent(h, s, mv);
    forall d
      ensures Deserted(h, s, mv, d) <==> d in s'.pointers && s'.pointers[d] == map[]
    {
      TableIsInhabited(h, s, d);
      TableIsInhabited(h, s', d);
      TablesAfterMove(h, s, mv, d);
      DesertedIsEmptied(h, s, mv, d);
    }
  }

  lemma DesertedIsEmptied(h: Hierarchy, s: State, mv: Move, d: string)
    requires h.Valid() && OneHome(s.entities) && Located(s.entities, mv.entity, mv.from)
    ensures Deserted(h, s, mv, d) <==>
            Inhabited(h, s.entities, d) && !Inhabited(h, Moved(h, s, mv).entities, d)
  {
    var entities' := Moved(h, s, mv).entities;
    forall e
      ensures LivesBelow(h, entities', e, d) <==>
              if e == mv.entity then h.Above(d, mv.to) else LivesBelow(h, s.entities, e, d)
      ensures LivesBelow(h, s.entities, mv.entity, d) <==> h.Above(d, mv.from)
    {
      HomesAfterMove(h, s, mv, e, d);
    }
    if Deserted(h, s, mv, d) {
      assert LivesBelow(h, s.entities, mv.entity, d);
    }
    if Inhabited(h, s.entities, d) && !Inhabited(h, entities', d) {
      assert !LivesBelow(h, entities', mv.entity, d);
      forall e | e != mv.entity
        ensures !LivesBelow(h, s.entities, e, d)
      {
        assert !LivesBelow(h, entities', e, d);
      }
    }
  }

  /** The registration of an entity two levels below the root writes two tables. */
  lemma TwoTables(h: Hierarchy, e: string, top: string, domain: string)
    requires h.Valid() && h.HasParent(domain) && h.Parent(domain) == top && h.HasParent(top) && h.Parent(top) == ROOT
    requires top != ROOT
    ensures Registered(h, map[], e, domain) == map[top := map[e := domain], ROOT := map[e := top]]
  {
    var one: Table := map[top := map[e := domain]];
    assert Put(map[], top, e, domain) == one;
    assert Registered(h, one, e, top) == Registered(h, Put(one, ROOT, e, top), e, ROOT);
  }

  lemma BranchIsDeserted(h: Hierarchy, e: string, top: string, domain: string, other: string)
    requires h.Valid() && h.HasParent(domain) && h.Parent(domain) == top && h.HasParent(top) && h.Parent(top) == ROOT
    requires h.HasParent(other) && h.Parent(other) == ROOT && top != ROOT
    ensures var pointers := Registered(h, map[], e, domain);
            Registered(h, Unregistered(h, pointers, e, domain), e, other) == map[top := map[], ROOT := map[e := other]]
  {
    var pointers := Registered(h, map[], e, domain);
    TwoTables(h, e, top, domain);
    var half := Drop(pointers, top, e);
    assert Unregistered(h, pointers, e, domain) == Unregistered(h, half, e, top);
    assert half == map[top := map[], ROOT := map[e := top]];
    assert Unregistered(h, half, e, top) == Unregistered(h, Drop(half, ROOT, e), e, ROOT);
    var bare := Drop(half, ROOT, e);
    assert bare == map[top := map[], ROOT := map[]];
    assert Registered(h, bare, e, other) == Registered(h, Put(bare, ROOT, e, other), e, ROOT);
  }

  /** So an entity that was alone in its branch of the tree leaves an empty table behind. */
  lemma EmptyTableIsLeft(h: Hierarchy, s: State)
    requires h.Valid()
    requires h.parentOf ==
             map[ROOT := None, "AMERICA" := Some(ROOT), "QUITO" := Some("AMERICA"), "EUROPE" := Some(ROOT)]
    requires s.entities == map["QUITO" := map["server02" := "10.0.2.30"]]
    requires s.pointers == Registered(h, map[], "server02", "QUITO")
    ensures var s' := Moved(h, s, Move("server02", "QUITO", "EUROPE"));
            && s'.pointers == map["AMERICA" := map[], ROOT := map["server02" := "EUROPE"]]
            && !NoEmptyTables(s'.pointers)
  {
    assert "AMERICA" != ROOT;
    BranchIsDeserted(h, "server02", "AMERICA", "QUITO", "EUROPE");
    var pointers' := Moved(h, s, Move("server02", "QUITO", "EUROPE")).pointers;
    assert "AMERICA" in pointers' && pointers'["AMERICA"] == map[];
  }

  // ---------------------------------------------------------------- paths

  /** The way up from d to a, both included. */
  ghost function ClimbTo(h: Hierarchy, d: string, a: string): seq<string>
    requires h.Valid() && (d == a || h.Above(a, d))
    decreases h.Height(d)
  {
    if d == a then [d] else [d] + ClimbTo(h, h.Parent(d), a)
  }

  /** The way down from a to d, without a. */
  ghost function Descent(h: Hierarchy, a: string, d: string): seq<string>
    requires h.Valid() && (d == a || h.Above(a, d))
    decreases h.Height(d)
  {
    if d == a then [] else Descent(h, a, h.Parent(d)) + [d]
  }

  /** The way up starts at d and goes from each domain to its parent, up to a. */
  lemma {:induction false} ClimbGoesUp(h: Hierarchy, d: string, a: string)
    requires h.Valid() && (d == a || h.Above(a, d))
    ensures var way := ClimbTo(h, d, a);
            && way != [] && way[0] == d && way[|way| - 1] == a
            && forall k :: 0 <= k < |way| - 1 ==> h.HasParent(way[k]) && h.Parent(way[k]) == way[k + 1]
    decreases h.Height(d)
  {
    if d == a {
    } else {
      ClimbGoesUp(h, h.Parent(d), a);
    }
  }

  /** The way down goes from each domain to one of its children, from a child of a to d, and meets d only at its end. */
  lemma {:induction false} DescentGoesDown(h: Hierarchy, a: string, d: string)
    requires h.Valid() && (d == a || h.Above(a, d))
    ensures var way := Descent(h, a, d);
            && (way == [] <==> d == a)
            && (forall k :: 0 <= k < |way| ==> h.HasParent(way[k]))
            && (forall k :: 0 < k < |way| ==> h.Parent(way[k]) == way[k - 1])
            && (way != [] ==> h.Parent(way[0]) == a && way[|way| - 1] == d)
            && (forall k :: 0 <= k < |way| - 1 ==> h.Height(way[k]) < h.Height(d) && way[k] != d)
    decreases h.Height(d)
  {
    if d == a {
    } else {
      h.AboveIsHigher(a, d);
      DescentGoesDown(h, a, h.Parent(d));
    }
  }

  /** The first domain above `start` that is also above `home`. */
  ghost function Meeting(h: Hierarchy, start: string, home: string): Option<string>
    requires h.Valid()
    decreases h.Height(start)
  {
    if !h.HasParent(start) then None
    else if h.Above(h.Parent(start), home) then Some(h.Parent(start))
    else Meeting(h, h.Parent(start), home)
  }

  /** It is the lowest common proper ancestor, and there is one for every two domains of the tree but the root. */
  lemma {:induction false} MeetingIsLowestCommonAncestor(h: Hierarchy, start: string, home: string)
    requires h.Valid()
    ensures Meeting(h, start, home).Some? <==> h.HasParent(start) && h.HasParent(home)
    ensures Meeting(h, start, home).Some? ==>
      var m := Meeting(h, start, home).value;
      && h.Above(m, start) && h.Above(m, home)
      && forall a :: h.Above(a, start) && h.Above(a, home) ==> a == m || h.Above(a, m)
    decreases h.Height(start)
  {
    if h.HasParent(home) {
      h.RootIsAbove(home);
    }
    if !h.HasParent(start) || h.Above(h.Parent(start), home) {
    } else {
      MeetingIsLowestCommonAncestor(h, h.Parent(start), home);
    }
  }

  lemma {:induction false} ClimbOneMore(h: Hierarchy, d: string, a: string)
    requires h.Valid() && (d == a || h.Above(a, d)) && h.HasParent(a)
    ensures h.Above(h.Parent(a), d) && ClimbTo(h, d, h.Parent(a)) == ClimbTo(h, d, a) + [h.Parent(a)]
    decreases h.Height(d)
  {
    if d != a {
      ClimbOneMore(h, h.Parent(d), a);
      h.AboveIsHigher(h.Parent(a), h.Parent(d));
      assert h.Parent(a) != d;
    } else {
      assert h.Parent(a) != d;
    }
  }

  lemma {:induction false} DescendOneStep(h: Hierarchy, a: string, d: string)
    requires h.Valid() && h.Above(a, d)
    ensures var c := h.StepDown(a, d);
            (d == c || h.Above(c, d)) && Descent(h, a, d) == [c] + Descent(h, c, d)
    decreases h.Height(d)
  {
    h.AboveIsHigher(a, d);
    h.StepDownIsChild(a, d);
    if h.Parent(d) == a {
    } else {
      var c := h.StepDown(a, d);
      DescendOneStep(h, a, h.Parent(d));
      h.AboveIsHigher(a, h.Parent(d));
    }
  }
}
