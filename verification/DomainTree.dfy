/** The tree of domains, and the parent map that is built from it. */
module DomainTree {
  import opened Wrappers

  const ROOT := "ROOT"

  datatype Domain = Domain(name: string, children: seq<Domain>)

  type ParentMap = map<string, Option<string>>

  // ---------------------------------------------------------------- the tree

  function Names(d: Domain): set<string>
    decreases d
  {
    {d.name} + ForestNames(d.children)
  }

  function ForestNames(ds: seq<Domain>): set<string>
    decreases ds
  {
    if ds == [] then {} else ForestNames(ds[..|ds| - 1]) + Names(ds[|ds| - 1])
  }

  /** No domain name occurs twice. */
  predicate Distinct(d: Domain)
    decreases d
  {
    d.name !in ForestNames(d.children) && ForestDistinct(d.children)
  }

  predicate ForestDistinct(ds: seq<Domain>)
    decreases ds
  {
    ds == [] ||
    (ForestDistinct(ds[..|ds| - 1]) && Distinct(ds[|ds| - 1]) && ForestNames(ds[..|ds| - 1]) !! Names(ds[|ds| - 1]))
  }

  predicate IsTop(ds: seq<Domain>, c: string) {
    exists i :: 0 <= i < |ds| && ds[i].name == c
  }

  /** Somewhere in the tree a domain named p has a child named c. */
  ghost predicate HasEdge(d: Domain, p: string, c: string)
    decreases d
  {
    || (d.name == p && IsTop(d.children, c))
    || ForestHasEdge(d.children, p, c)
  }

  ghost predicate ForestHasEdge(ds: seq<Domain>, p: string, c: string)
    decreases ds
  {
    ds != [] && (ForestHasEdge(ds[..|ds| - 1], p, c) || HasEdge(ds[|ds| - 1], p, c))
  }

  // ---------------------------------------------------------------- the parent map

  function Parents(d: Domain, parent: Option<string>): ParentMap
    decreases d
  {
    map[d.name := parent] + ForestParents(d.children, d.name)
  }

  function ForestParents(ds: seq<Domain>, parent: string): ParentMap
    decreases ds
  {
    if ds == [] then map[] else ForestParents(ds[..|ds| - 1], parent) + Parents(ds[|ds| - 1], Some(parent))
  }

  lemma OneMoreTree(ds: seq<Domain>, i: nat, parent: string, start: ParentMap, before: ParentMap, after: ParentMap)
    requires i < |ds|
    requires before == start + ForestParents(ds[..i], parent)
    requires after == before + Parents(ds[i], Some(parent))
    ensures after == start + ForestParents(ds[..i + 1], parent)
  {
    assert ds[..i + 1][..i] == ds[..i];
    SumsAssociate(start, ForestParents(ds[..i], parent), Parents(ds[i], Some(parent)));
  }

  lemma TopFirst(before: ParentMap, d: Domain, parent: Option<string>)
    ensures before[d.name := parent] + ForestParents(d.children, d.name) == before + Parents(d, parent)
  {
    assert before[d.name := parent] == before + map[d.name := parent];
    SumsAssociate(before, map[d.name := parent], ForestParents(d.children, d.name));
  }

  lemma SumsAssociate(a: ParentMap, b: ParentMap, c: ParentMap)
    ensures (a + b) + c == a + (b + c)
  {
  }

  /** The number of steps down from the root. */
  function Depths(d: Domain, depth: nat): map<string, nat>
    decreases d
  {
    map[d.name := depth] + ForestDepths(d.children, depth + 1)
  }

  function ForestDepths(ds: seq<Domain>, depth: nat): map<string, nat>
    decreases ds
  {
    if ds == [] then map[] else ForestDepths(ds[..|ds| - 1], depth) + Depths(ds[|ds| - 1], depth)
  }

  /** A parent map together with the depths that show that climbing it ends. */
  datatype Hierarchy = Hierarchy(parentOf: ParentMap, depth: map<string, nat>) {

    ghost predicate Valid() {
      && ROOT in parentOf
      && depth.Keys == parentOf.Keys
      && (forall d :: d in parentOf ==> (parentOf[d].None? <==> d == ROOT))
      && (forall d :: d in parentOf && d != ROOT ==>
            && parentOf[d].value in parentOf
            && depth[parentOf[d].value] < depth[d])
    }

    /** The domain is known and not the root, so one can climb from it. */
    predicate HasParent(d: string) {
      d in parentOf && parentOf[d].Some?
    }

    function Parent(d: string): string
      requires HasParent(d)
    {
      parentOf[d].value
    }

    function Height(d: string): nat {
      if d in depth then depth[d] else 0
    }

    /** a is a proper ancestor of d. */
    ghost predicate Above(a: string, d: string)
      requires Valid()
      decreases Height(d)
    {
      HasParent(d) && (Parent(d) == a || Above(a, Parent(d)))
    }

    /** The child of a on the way down from a to d. */
    ghost function StepDown(a: string, d: string): string
      requires Valid() && Above(a, d)
      decreases Height(d)
    {
      if Parent(d) == a then d else StepDown(a, Parent(d))
    }

    lemma {:induction false} AboveIsHigher(a: string, d: string)
      requires Valid() && Above(a, d)
      ensures a in parentOf && d in parentOf && depth[a] < depth[d]
      decreases Height(d)
    {
      if Parent(d) == a {
      } else {
        AboveIsHigher(a, Parent(d));
      }
    }

    lemma {:induction false} RootIsAbove(d: string)
      requires Valid() && HasParent(d)
      ensures Above(ROOT, d)
      decreases Height(d)
    {
      if Parent(d) == ROOT {
      } else {
        RootIsAbove(Parent(d));
      }
    }

    lemma {:induction false} StepDownIsChild(a: string, d: string)
      requires Valid() && Above(a, d)
      ensures var c := StepDown(a, d);
              HasParent(c) && Parent(c) == a && (c == d || Above(c, d))
      decreases Height(d)
    {
      if Parent(d) == a {
      } else {
        StepDownIsChild(a, Parent(d));
      }
    }
  }

  // ---------------------------------------------------------------- the map of a tree

  lemma {:induction false} TreeKeys(d: Domain, parent: Option<string>, depth: nat)
    ensures Parents(d, parent).Keys == Depths(d, depth).Keys == Names(d)
    decreases d
  {
    ForestKeys(d.children, d.name, depth + 1);
  }

  lemma {:induction false} ForestKeys(ds: seq<Domain>, parent: string, depth: nat)
    ensures ForestParents(ds, parent).Keys == ForestDepths(ds, depth).Keys == ForestNames(ds)
    decreases ds
  {
    if ds == [] {
    } else {
      ForestKeys(ds[..|ds| - 1], parent, depth);
      TreeKeys(ds[|ds| - 1], Some(parent), depth);
    }
  }

  /** What the maps say about a domain of a tree: its parent is its parent in the tree, and lies higher. */
  ghost predicate Linked(d: Domain, parents: ParentMap, depths: map<string, nat>, x: string)
    requires x in parents && x in depths
  {
    && parents[x].Some?
    && var p := parents[x].value;
       && HasEdge(d, p, x)
       && p in Names(d) && p in depths && depths[p] < depths[x]
       && forall q :: HasEdge(d, q, x) ==> q == p
  }

  ghost predicate ForestLinked(ds: seq<Domain>, parent: string, depth: nat,
                               parents: ParentMap, depths: map<string, nat>, x: string)
    requires x in parents && x in depths
  {
    if IsTop(ds, x) then
      && parents[x] == Some(parent) && depths[x] == depth
      && forall q :: !ForestHasEdge(ds, q, x)
    else
      && parents[x].Some?
      && var p := parents[x].value;
         && ForestHasEdge(ds, p, x)
         && p in ForestNames(ds) && p in depths && depths[p] < depths[x]
         && forall q :: ForestHasEdge(ds, q, x) ==> q == p
  }

  lemma {:induction false} EdgesAreNamed(d: Domain, p: string, c: string)
    requires HasEdge(d, p, c)
    ensures p in Names(d) && c in ForestNames(d.children)
    decreases d
  {
    if d.name == p && IsTop(d.children, c) {
      TopsAreNamed(d.children, c);
    } else {
      ForestEdgesAreNamed(d.children, p, c);
    }
  }

  lemma {:induction false} ForestEdgesAreNamed(ds: seq<Domain>, p: string, c: string)
    requires ForestHasEdge(ds, p, c)
    ensures p in ForestNames(ds) && c in ForestNames(ds)
    decreases ds
  {
    if ForestHasEdge(ds[..|ds| - 1], p, c) {
      ForestEdgesAreNamed(ds[..|ds| - 1], p, c);
    } else {
      EdgesAreNamed(ds[|ds| - 1], p, c);
    }
  }

  lemma {:induction false} TopsAreNamed(ds: seq<Domain>, c: string)
    requires IsTop(ds, c)
    ensures c in ForestNames(ds)
    decreases ds
  {
    if ds[|ds| - 1].name == c {
    } else {
      TopsAreNamed(ds[..|ds| - 1], c);
    }
  }

  lemma {:induction false} TreeLinks(d: Domain, parent: Option<string>, depth: nat, x: string)
    requires Distinct(d) && x in Names(d)
    ensures x in Parents(d, parent) && x in Depths(d, depth)
    ensures x == d.name ==> Parents(d, parent)[x] == parent && Depths(d, depth)[x] == depth
    ensures x != d.name ==> Linked(d, Parents(d, parent), Depths(d, depth), x)
    decreases d
  {
    ForestKeys(d.children, d.name, depth + 1);
    if x != d.name {
      ForestLinks(d.children, d.name, depth + 1, x);
      LinkedInTree(d, parent, depth, x);
    }
  }

  lemma LinkedInTree(d: Domain, parent: Option<string>, depth: nat, x: string)
    requires Distinct(d) && x in ForestNames(d.children) && x != d.name
    requires var parents, depths := ForestParents(d.children, d.name), ForestDepths(d.children, depth + 1);
             && x in parents && x in depths
             && ForestLinked(d.children, d.name, depth + 1, parents, depths, x)
    ensures x in Parents(d, parent) && x in Depths(d, depth)
    ensures Linked(d, Parents(d, parent), Depths(d, depth), x)
  {
    ForestKeys(d.children, d.name, depth + 1);
    var p := ForestParents(d.children, d.name)[x].value;
    assert Parents(d, parent)[x] == Some(p);
    assert Depths(d, depth)[x] == ForestDepths(d.children, depth + 1)[x];
    assert p in Names(d);
    assert p in Depths(d, depth) && Depths(d, depth)[p] < Depths(d, depth)[x];
    forall q
      ensures HasEdge(d, q, x) <==> q == p
    {
      if !IsTop(d.children, x) && p == d.name {
        ForestEdgesAreNamed(d.children, p, x);
      }
    }
  }

  lemma {:induction false} ForestLinks(ds: seq<Domain>, parent: string, depth: nat, x: string)
    requires ForestDistinct(ds) && x in ForestNames(ds)
    ensures x in ForestParents(ds, parent) && x in ForestDepths(ds, depth)
    ensures ForestLinked(ds, parent, depth, ForestParents(ds, parent), ForestDepths(ds, depth), x)
    decreases ds
  {
    var front, last := ds[..|ds| - 1], ds[|ds| - 1];
    ForestKeys(ds, parent, depth);
    ForestKeys(front, parent, depth);
    TreeKeys(last, Some(parent), depth);
    if x in Names(last) {
      TreeLinks(last, Some(parent), depth, x);
      LinkedInLast(ds, parent, depth, x);
    } else {
      ForestLinks(front, parent, depth, x);
      LinkedInFront(ds, parent, depth, x);
    }
  }

  lemma TopOfForest(ds: seq<Domain>, x: string)
    requires ds != []
    ensures IsTop(ds, x) <==> IsTop(ds[..|ds| - 1], x) || ds[|ds| - 1].name == x
  {
    var front := ds[..|ds| - 1];
    if IsTop(front, x) {
      var i :| 0 <= i < |front| && front[i].name == x;
      assert ds[i].name == x;
    }
    if i :| 0 <= i < |ds| && ds[i].name == x {
      assert i < |front| ==> front[i].name == x;
    }
  }

  lemma LinkedInLast(ds: seq<Domain>, parent: string, depth: nat, x: string)
    requires ForestDistinct(ds) && ds != []
    requires var last := ds[|ds| - 1];
             && x in Names(last)
             && x in Parents(last, Some(parent)) && x in Depths(last, depth)
             && (x == last.name ==> Parents(last, Some(parent))[x] == Some(parent) && Depths(last, depth)[x] == depth)
             && (x != last.name ==> Linked(last, Parents(last, Some(parent)), Depths(last, depth), x))
    ensures x in ForestParents(ds, parent) && x in ForestDepths(ds, depth)
    ensures ForestLinked(ds, parent, depth, ForestParents(ds, parent), ForestDepths(ds, depth), x)
  {
    var front, last := ds[..|ds| - 1], ds[|ds| - 1];
    TopOfForest(ds, x);
    if IsTop(front, x) {
      TopsAreNamed(front, x);
    }
    forall q
      ensures ForestHasEdge(ds, q, x) <==> HasEdge(last, q, x)
      ensures ForestHasEdge(ds, q, x) ==> x != last.name
    {
      if ForestHasEdge(front, q, x) {
        ForestEdgesAreNamed(front, q, x);
      }
      if HasEdge(last, q, x) {
        EdgesAreNamed(last, q, x);
      }
    }
  }

  lemma LinkedInFront(ds: seq<Domain>, parent: string, depth: nat, x: string)
    requires ForestDistinct(ds) && ds != [] && x !in Names(ds[|ds| - 1])
    requires var front := ds[..|ds| - 1];
             && x in ForestNames(front)
             && x in ForestParents(front, parent) && x in ForestDepths(front, depth)
             && ForestLinked(front, parent, depth, ForestParents(front, parent), ForestDepths(front, depth), x)
    ensures x in ForestParents(ds, parent) && x in ForestDepths(ds, depth)
    ensures ForestLinked(ds, parent, depth, ForestParents(ds, parent), ForestDepths(ds, depth), x)
  {
    var front, last := ds[..|ds| - 1], ds[|ds| - 1];
    TopOfForest(ds, x);
    ForestKeys(front, parent, depth);
    TreeKeys(last, Some(parent), depth);
    forall q
      ensures ForestHasEdge(ds, q, x) <==> ForestHasEdge(front, q, x)
    {
      if HasEdge(last, q, x) {
        EdgesAreNamed(last, q, x);
      }
    }
  }

  /** The parent map of a tree with distinct names is exactly the child relation of the tree, and climbing it ends. */
  lemma TreeIsHierarchy(tree: Domain)
    requires Distinct(tree) && tree.name == ROOT
    ensures Hierarchy(Parents(tree, None), Depths(tree, 0)).Valid()
    ensures Parents(tree, None).Keys == Names(tree)
    ensures forall p, c :: HasEdge(tree, p, c) <==> c in Names(tree) && Parents(tree, None)[c] == Some(p)
  {
    TreeKeys(tree, None, 0);
    forall x | x in Names(tree)
      ensures x == ROOT ==> Parents(tree, None)[x] == None
      ensures x != ROOT ==> Linked(tree, Parents(tree, None), Depths(tree, 0), x)
    {
      TreeLinks(tree, None, 0, x);
    }
    forall p, c | HasEdge(tree, p, c)
      ensures c in Names(tree) && c != ROOT
    {
      EdgesAreNamed(tree, p, c);
    }
  }
}
