/** The hierarchical location service: tables that are changed in place, registration, lookup and moves. */
module LocationService {
  import opened Wrappers
  import opened DomainTree
  import opened LocationIndex

  datatype LookupResult =
    | Found(address: string, path: seq<string>)
    | NotFound(path: seq<string>)
    | KeyError(key: string)

  /** What a lookup must report for this placement of entities. */
  ghost predicate IsLookup(h: Hierarchy, entities: Table, e: string, start: string, r: LookupResult)
    requires h.Valid()
  {
    if Located(entities, e, start) then
      r == Found(entities[start][e], [start, e])
    else if start !in h.parentOf then
      r == KeyError(start)
    else if Placed(entities, e) && Meeting(h, start, Home(entities, e)).Some? then
      var home := Home(entities, e);
      var m := Meeting(h, start, home).value;
      MeetingIsLowestCommonAncestor(h, start, home);
      r == Found(entities[home][e], ClimbTo(h, start, m) + Descent(h, m, home) + [e])
    else
      assert start == ROOT || h.Above(ROOT, start) by {
        if start != ROOT {
          h.RootIsAbove(start);
        }
      }
      r == NotFound(ClimbTo(h, start, ROOT))
  }

  class Service {
    var parentOf: ParentMap
    var pointers: Table
    var entities: Table
    ghost var depth: map<string, nat>

    ghost function Tree(): Hierarchy
      reads this
    {
      Hierarchy(parentOf, depth)
    }

    ghost function Contents(): State
      reads this
    {
      State(pointers, entities)
    }

    ghost predicate Valid()
      reads this
    {
      Tree().Valid() && Consistent(Tree(), Contents())
    }

    constructor (tree: Domain, entities: Table)
      requires Distinct(tree) && tree.name == ROOT && OneHome(entities)
      ensures Valid() && NoEmptyTables(pointers)
      ensures parentOf == Parents(tree, None) && this.entities == entities
    {
      this.entities := entities;
      parentOf, pointers := map[], map[];
      depth := Depths(tree, 0);
      new;
      BuildParents(tree, None);
      assert parentOf == Parents(tree, None);
      TreeIsHierarchy(tree);
      RegisterAll();
    }

    method BuildParents(node: Domain, parent: Option<string>)
      modifies `parentOf
      ensures parentOf == old(parentOf) + Parents(node, parent)
      decreases node
    {
      parentOf := parentOf[node.name := parent];
      ghost var start := parentOf;
      for i := 0 to |node.children|
        invariant parentOf == start + ForestParents(node.children[..i], node.name)
      {
        ghost var before := parentOf;
        BuildParents(node.children[i], Some(node.name));
        OneMoreTree(node.children, i, node.name, start, before, parentOf);
      }
      assert node.children[..|node.children|] == node.children;
      TopFirst(old(parentOf), node, parent);
    }

    /** Makes sure that there is a table for the domain. */
    method SetDefault(domain: string)
      modifies `pointers
      ensures domain in pointers
      ensures forall e, v :: pointers[domain := pointers[domain][e := v]] == Put(old(pointers), domain, e, v)
    {
      if domain !in pointers {
        pointers := pointers[domain := map[]];
      }
    }

    method Register(entity: string, domain: string)
      requires Tree().Valid()
      modifies `pointers
      ensures pointers == Registered(Tree(), old(pointers), entity, domain)
    {
      var current := domain;
      while current in parentOf && parentOf[current].Some?
        invariant Registered(Tree(), pointers, entity, current) == Registered(Tree(), old(pointers), entity, domain)
        decreases Tree().Height(current)
      {
        var parent := parentOf[current].value;
        SetDefault(parent);
        pointers := pointers[parent := pointers[parent][entity := current]];
        current := parent;
      }
    }

    method Unregister(entity: string, domain: string)
      requires Tree().Valid()
      modifies `pointers
      ensures pointers == Unregistered(Tree(), old(pointers), entity, domain)
    {
      var current := domain;
      while current in parentOf && parentOf[current].Some?
        invariant Unregistered(Tree(), pointers, entity, current) == Unregistered(Tree(), old(pointers), entity, domain)
        decreases Tree().Height(current)
      {
        var parent := parentOf[current].value;
        if parent in pointers && entity in pointers[parent] && pointers[parent][entity] == current {
          pointers := pointers[parent := pointers[parent] - {entity}];
        }
        current := parent;
      }
    }

    /** The pointers hold what the entities in `done` need, and nothing else. */
    ghost predicate IndexedSoFar(done: set<string>)
      reads this
      requires Tree().Valid()
    {
      && (forall d, e :: Get(pointers, d, e) == if e in done then Pointer(Tree(), entities, d, e) else None)
      && NoEmptyTables(pointers)
    }

    /** The registration loop over all domains and their entities; it builds the index from scratch. */
    method RegisterAll()
      requires Tree().Valid() && OneHome(entities) && pointers == map[]
      modifies `pointers
      ensures Indexed(Tree(), pointers, entities) && NoEmptyTables(pointers)
    {
      var domains := entities.Keys;
      ghost var done: set<string> := {};
      while domains != {}
        invariant domains <= entities.Keys
        invariant IndexedSoFar(done)
        invariant forall e, d :: Located(entities, e, d) ==> (e in done <==> d !in domains)
        decreases domains
      {
        var domain :| domain in domains;
        var names := entities[domain].Keys;
        while names != {}
          invariant names <= entities[domain].Keys
          invariant IndexedSoFar(done)
          invariant forall e, d :: Located(entities, e, d) ==>
            (e in done <==> d !in domains || (d == domain && e !in names))
          decreases names
        {
          var entity :| entity in names;
          assert Located(entities, entity, domain);
          assert forall d :: Located(entities, entity, d) ==> d == domain;
          RegisterOne(entity, domain, done);
          names := names - {entity};
          done := done + {entity};
        }
        domains := domains - {domain};
      }
      forall d, e
        ensures Get(pointers, d, e) == Pointer(Tree(), entities, d, e)
      {
      }
    }

    method RegisterOne(entity: string, domain: string, ghost done: set<string>)
      requires Tree().Valid() && OneHome(entities) && IndexedSoFar(done) && Located(entities, entity, domain)
      modifies `pointers
      ensures IndexedSoFar(done + {entity})
    {
      ghost var before := pointers;
      Register(entity, domain);
      RegisteredHasNoEmptyTables(Tree(), before, entity, domain);
      HomeIs(entities, entity, domain);
      forall d, e
        ensures Get(pointers, d, e) == if e in done + {entity} then Pointer(Tree(), entities, d, e) else None
      {
        RegisteredPointers(Tree(), before, entity, domain, d, e);
      }
    }

    method MoveEntity(entity: string, from: string, to: string) returns (r: Result<(), string>)
      requires Valid()
      modifies `pointers, `entities
      ensures Valid()
      ensures Contents() == Moved(Tree(), old(Contents()), Move(entity, from, to))
      ensures r.Ok? <==> old(Located(entities, entity, from))
      ensures r.Err? ==> r.error == (if from !in old(entities) then from else entity)
    {
      ghost var before := Contents();
      MoveKeepsConsistent(Tree(), before, Move(entity, from, to));
      if from !in entities {
        return Err(from);
      }
      if entity !in entities[from] {
        return Err(entity);
      }
      var address := entities[from][entity];
      entities := entities[from := entities[from] - {entity}];
      Unregister(entity, from);
      if to !in entities {
        entities := entities[to := map[]];
      }
      entities := entities[to := entities[to][entity := address]];
      assert entities == Put(Drop(before.entities, from, entity), to, entity, address);
      Register(entity, to);
      return Ok(());
    }

    /** Follows the pointers down from a domain above the entity's home. */
    method FollowDown(entity: string, from: string, path: seq<string>) returns (current: string, longer: seq<string>)
      requires Valid() && Placed(entities, entity) && Tree().Above(from, Home(entities, entity))
      ensures current == Home(entities, entity)
      ensures longer == path + Descent(Tree(), from, current)
    {
      ghost var home := Home(entities, entity);
      current, longer := from, path;
      while current in pointers && entity in pointers[current]
        invariant current == home || Tree().Above(current, home)
        invariant longer + Descent(Tree(), current, home) == path + Descent(Tree(), from, home)
        decreases if current == home then 0 else Tree().Height(home) - Tree().Height(current)
      {
        assert Get(pointers, current, entity) == Pointer(Tree(), entities, current, entity);
        Tree().AboveIsHigher(current, home);
        Tree().StepDownIsChild(current, home);
        DescendOneStep(Tree(), current, home);
        current := pointers[current][entity];
        longer := longer + [current];
      }
      assert Get(pointers, current, entity) == Pointer(Tree(), entities, current, entity);
    }

    method Lookup(entity: string, start: string) returns (r: LookupResult)
      requires Valid()
      ensures IsLookup(Tree(), entities, entity, start, r)
    {
      var path := [start];
      var current := start;
      if current in entities && entity in entities[current] {
        return Found(entities[current][entity], path + [entity]);
      }
      while current != ROOT
        invariant current == start || (start in parentOf && current in parentOf && Tree().Above(current, start))
        invariant path == ClimbTo(Tree(), start, current)
        invariant Placed(entities, entity) ==>
          Meeting(Tree(), start, Home(entities, entity)) == Meeting(Tree(), current, Home(entities, entity))
        decreases Tree().Height(current)
      {
        if current !in parentOf {
          return KeyError(current);
        }
        ClimbOneMore(Tree(), start, current);
        current := parentOf[current].value;
        path := path + [current];
        assert Get(pointers, current, entity) == Pointer(Tree(), entities, current, entity);
        if current in pointers && entity in pointers[current] {
          var home;
          home, path := FollowDown(entity, current, path);
          // the entity is registered where its pointers end
          assert Located(entities, entity, home);
          return Found(entities[home][entity], path + [entity]);
        }
      }
      return NotFound(path);
    }
  }

  /** A lookup succeeds exactly at the home itself, or if both the start and the home lie below the root. */
  lemma LookupFindsExactly(h: Hierarchy, entities: Table, e: string, start: string, r: LookupResult)
    requires h.Valid() && IsLookup(h, entities, e, start, r)
    ensures r.Found? <==>
      || Located(entities, e, start)
      || (Placed(entities, e) && h.HasParent(start) && h.HasParent(Home(entities, e)))
  {
    if Placed(entities, e) {
      MeetingIsLowestCommonAncestor(h, start, Home(entities, e));
    }
  }

  /** So an entity that lives at the root itself is reported as not found from everywhere else. */
  lemma EntityAtTheRootIsMissed(r: LookupResult)
    requires var h := Hierarchy(map["ROOT" := None, "EUROPE" := Some("ROOT")], map["ROOT" := 0, "EUROPE" := 1]);
             IsLookup(h, map["ROOT" := map["server01" := "10.0.1.20"]], "server01", "EUROPE", r)
    ensures r == NotFound(["EUROPE", "ROOT"])
  {
    var h := Hierarchy(map[ROOT := None, "EUROPE" := Some(ROOT)], map[ROOT := 0, "EUROPE" := 1]);
    var entities: Table := map[ROOT := map["server01" := "10.0.1.20"]];
    assert Located(entities, "server01", ROOT);
    HomeIs(entities, "server01", ROOT);
    MeetingIsLowestCommonAncestor(h, "EUROPE", ROOT);
    assert h.Parent("EUROPE") == ROOT && "EUROPE" != ROOT;
    assert !Located(entities, "server01", "EUROPE");
    assert ClimbTo(h, "EUROPE", ROOT) == ["EUROPE"] + ClimbTo(h, ROOT, ROOT);
  }
}
