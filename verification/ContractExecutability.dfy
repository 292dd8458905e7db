/** core_runtime/core/contract_executability.py: the search for schema objects that leave
    room for undeclared properties.  A dictionary is known by its identity, so a schema is a
    graph that may share nodes and may contain cycles. */
module ContractExecutability {
  import opened Results
  import opened Ordering
  import opened PyText

  /** A value found inside a schema: a dictionary, by identity, or anything else. */
  datatype Ref = Node(id: nat) | Other

  datatype Member = Member(name: string, schema: Ref)

  /** The parts of a dictionary that the search looks at; None: absent or of another type. */
  datatype Schema = Schema(
    typeIsObject: bool,
    additionalPropertiesIsFalse: bool,
    properties: Option<seq<Member>>,
    definitions: Option<seq<Member>>,
    defs: Option<seq<Member>>,
    items: Ref,
    oneOf: Option<seq<Ref>>,
    anyOf: Option<seq<Ref>>,
    allOf: Option<seq<Ref>>)

  type Graph = map<nat, Schema>

  predicate IsOpen(s: Schema) {
    s.typeIsObject && s.properties.Some? && !s.additionalPropertiesIsFalse
  }

  // ---- Edges and the paths they spell ----------------------------------------------

  datatype Edge = Edge(step: string, target: Ref)

  function MemberEdges(key: string, members: Option<seq<Member>>): seq<Edge> {
    if members.None? then []
    else seq(|members.value|, i requires 0 <= i < |members.value| =>
               Edge("." + key + "." + members.value[i].name, members.value[i].schema))
  }

  function BranchEdges(key: string, branches: Option<seq<Ref>>): seq<Edge> {
    if branches.None? then []
    else seq(|branches.value|, i requires 0 <= i < |branches.value| =>
               Edge("." + key + "[" + Decimal(i) + "]", branches.value[i]))
  }

  /** The recursive calls made for a dictionary, in order, with what each adds to the path. */
  function Edges(s: Schema): seq<Edge> {
    MemberEdges("properties", s.properties) + MemberEdges("definitions", s.definitions)
    + MemberEdges("$defs", s.defs) + [Edge(".items", s.items)]
    + BranchEdges("oneOf", s.oneOf) + BranchEdges("anyOf", s.anyOf) + BranchEdges("allOf", s.allOf)
  }

  /** Every dictionary mentioned exists. */
  ghost predicate Closed(g: Graph) {
    forall n, k :: n in g && 0 <= k < |Edges(g[n])| && Edges(g[n])[k].target.Node? ==> Edges(g[n])[k].target.id in g
  }

  // ---- The parts of a schema that are searched, read off its fields -----------------

  /** A part of a dictionary: the keyword it stands under, in the order of the search, and its position there. */
  datatype Place = Place(keyword: nat, index: nat)

  ghost predicate MemberAt(members: Option<seq<Member>>, i: nat, prefix: string, step: string, m: Ref) {
    members.Some? && i < |members.value| && step == prefix + members.value[i].name && m == members.value[i].schema
  }

  ghost predicate BranchAt(branches: Option<seq<Ref>>, i: nat, prefix: string, step: string, m: Ref) {
    branches.Some? && i < |branches.value| && step == prefix + Decimal(i) + "]" && m == branches.value[i]
  }

  /** m is the part of s at this place, and step is how a path spells it. */
  ghost predicate Child(s: Schema, p: Place, step: string, m: Ref) {
    || (p.keyword == 0 && MemberAt(s.properties, p.index, ".properties.", step, m))
    || (p.keyword == 1 && MemberAt(s.definitions, p.index, ".definitions.", step, m))
    || (p.keyword == 2 && MemberAt(s.defs, p.index, ".$defs.", step, m))
    || (p.keyword == 3 && p.index == 0 && step == ".items" && m == s.items)
    || (p.keyword == 4 && BranchAt(s.oneOf, p.index, ".oneOf[", step, m))
    || (p.keyword == 5 && BranchAt(s.anyOf, p.index, ".anyOf[", step, m))
    || (p.keyword == 6 && BranchAt(s.allOf, p.index, ".allOf[", step, m))
  }

  predicate Earlier(p: Place, q: Place) {
    p.keyword < q.keyword || (p.keyword == q.keyword && p.index < q.index)
  }

  /** The edge at this place, if it has been listed. */
  ghost predicate Listed(places: seq<Place>, edges: seq<Edge>, p: Place, step: string, m: Ref) {
    exists k :: 0 <= k < |places| && k < |edges| && places[k] == p && edges[k] == Edge(step, m)
  }

  /** These are the edges to the parts under the first `bound` keywords, all of them and in order. */
  ghost predicate ListsChildren(s: Schema, bound: nat, places: seq<Place>, edges: seq<Edge>) {
    && |places| == |edges|
    && (forall i, j :: 0 <= i < j < |places| ==> Earlier(places[i], places[j]))
    && (forall i :: 0 <= i < |places| ==>
          places[i].keyword < bound && Child(s, places[i], edges[i].step, edges[i].target))
    && forall p: Place, step, m :: p.keyword < bound && Child(s, p, step, m) ==> Listed(places, edges, p, step, m)
  }

  function Under(keyword: nat, n: nat): (r: seq<Place>)
    ensures |r| == n && forall i :: 0 <= i < n ==> r[i] == Place(keyword, i)
  {
    seq(n, i requires 0 <= i < n => Place(keyword, i))
  }

  /** Edges to exactly the parts under this keyword, by position. */
  ghost predicate ListsKeyword(s: Schema, keyword: nat, edges: seq<Edge>) {
    forall p: Place, step, m :: p.keyword == keyword ==>
      (Child(s, p, step, m) <==> p.index < |edges| && edges[p.index] == Edge(step, m))
  }

  lemma NextKeyword(s: Schema, bound: nat, places: seq<Place>, edges: seq<Edge>, more: seq<Edge>)
    requires ListsChildren(s, bound, places, edges) && ListsKeyword(s, bound, more)
    ensures ListsChildren(s, bound + 1, places + Under(bound, |more|), edges + more)
  {
    var p, e := places + Under(bound, |more|), edges + more;
    forall i | 0 <= i < |p| ensures p[i].keyword < bound + 1 && Child(s, p[i], e[i].step, e[i].target) {
      if i >= |places| {
        var j := i - |places|;
        assert more[j] == Edge(e[i].step, e[i].target);
        assert p[i] == Place(bound, j);
      }
    }
    forall q: Place, step, m | q.keyword < bound + 1 && Child(s, q, step, m) ensures Listed(p, e, q, step, m) {
      if q.keyword < bound {
        var k :| 0 <= k < |places| && places[k] == q && edges[k] == Edge(step, m);
        assert p[k] == q && e[k] == Edge(step, m);
      } else {
        assert q == Place(bound, q.index);
        assert p[|places| + q.index] == q && e[|places| + q.index] == more[q.index];
      }
    }
  }

  lemma MembersListed(members: Option<seq<Member>>, key: string, prefix: string)
    requires "." + key + "." == prefix
    ensures var edges := MemberEdges(key, members);
            forall i: nat, step, m ::
              MemberAt(members, i, prefix, step, m) <==> i < |edges| && edges[i] == Edge(step, m)
  {
  }

  lemma BranchesListed(branches: Option<seq<Ref>>, key: string, prefix: string)
    requires "." + key + "[" == prefix
    ensures var edges := BranchEdges(key, branches);
            forall i: nat, step, m ::
              BranchAt(branches, i, prefix, step, m) <==> i < |edges| && edges[i] == Edge(step, m)
  {
  }

  function Places(s: Schema): seq<Place> {
    Under(0, |MemberEdges("properties", s.properties)|) + Under(1, |MemberEdges("definitions", s.definitions)|)
    + Under(2, |MemberEdges("$defs", s.defs)|) + Under(3, 1)
    + Under(4, |BranchEdges("oneOf", s.oneOf)|) + Under(5, |BranchEdges("anyOf", s.anyOf)|)
    + Under(6, |BranchEdges("allOf", s.allOf)|)
  }

  /** The edges lead to exactly the parts of the dictionary, in order. */
  lemma EdgesAreChildren(s: Schema)
    ensures ListsChildren(s, 7, Places(s), Edges(s))
  {
    var properties, definitions := MemberEdges("properties", s.properties), MemberEdges("definitions", s.definitions);
    var defs := MemberEdges("$defs", s.defs);
    var oneOf, anyOf := BranchEdges("oneOf", s.oneOf), BranchEdges("anyOf", s.anyOf);
    KeywordsListed(s);
    assert ListsChildren(s, 0, [], []);
    NextKeyword(s, 0, [], [], properties);
    assert [] + Under(0, |properties|) == Under(0, |properties|) && [] + properties == properties;
    var places, edges := Under(0, |properties|), properties;
    NextKeyword(s, 1, places, edges, definitions);
    places, edges := places + Under(1, |definitions|), edges + definitions;
    NextKeyword(s, 2, places, edges, defs);
    places, edges := places + Under(2, |defs|), edges + defs;
    NextKeyword(s, 3, places, edges, [Edge(".items", s.items)]);
    places, edges := places + Under(3, 1), edges + [Edge(".items", s.items)];
    NextKeyword(s, 4, places, edges, oneOf);
    places, edges := places + Under(4, |oneOf|), edges + oneOf;
    NextKeyword(s, 5, places, edges, anyOf);
    NextKeyword(s, 6, places + Under(5, |anyOf|), edges + anyOf, BranchEdges("allOf", s.allOf));
  }

  lemma KeywordsListed(s: Schema)
    ensures ListsKeyword(s, 0, MemberEdges("properties", s.properties))
    ensures ListsKeyword(s, 1, MemberEdges("definitions", s.definitions))
    ensures ListsKeyword(s, 2, MemberEdges("$defs", s.defs))
    ensures ListsKeyword(s, 3, [Edge(".items", s.items)])
    ensures ListsKeyword(s, 4, BranchEdges("oneOf", s.oneOf))
    ensures ListsKeyword(s, 5, BranchEdges("anyOf", s.anyOf))
    ensures ListsKeyword(s, 6, BranchEdges("allOf", s.allOf))
  {
    MembersListed(s.properties, "properties", ".properties.");
    MembersListed(s.definitions, "definitions", ".definitions.");
    MembersListed(s.defs, "$defs", ".$defs.");
    BranchesListed(s.oneOf, "oneOf", ".oneOf[");
    BranchesListed(s.anyOf, "anyOf", ".anyOf[");
    BranchesListed(s.allOf, "allOf", ".allOf[");
  }

  datatype Arrival = Arrival(node: nat, path: string)

  /** Where a sequence of edge numbers leads from `from`, and the path it spells. */
  function Follow(g: Graph, from: Ref, field: string, trail: seq<nat>): Option<Arrival>
    decreases |trail|
  {
    if from.Other? || from.id !in g then None
    else if trail == [] then Some(Arrival(from.id, field))
    else
      var edges := Edges(g[from.id]);
      if trail[0] < |edges|
      then Follow(g, edges[trail[0]].target, field + edges[trail[0]].step, trail[1..])
      else None
  }

  ghost predicate Reachable(g: Graph, root: Ref, n: nat) {
    exists trail, path :: Follow(g, root, "$", trail) == Some(Arrival(n, path))
  }

  /** n can be reached from the root through the parts at these places, and `path` is how that is spelt. */
  ghost predicate Leads(g: Graph, root: Ref, places: seq<Place>, n: nat, path: string)
    decreases |places|
  {
    && n in g
    && if places == [] then root == Node(n) && path == "$"
       else exists parent, before, step :: ByWay(g, root, places, n, path, parent, before, step)
  }

  ghost predicate ByWay(g: Graph, root: Ref, places: seq<Place>, n: nat, path: string, parent: nat, before: string,
                        step: string)
    requires places != []
    decreases |places|, 1
  {
    var last := |places| - 1;
    && Leads(g, root, places[..last], parent, before)
    && Child(g[parent], places[last], step, Node(n)) && path == before + step
  }

  /** The search comes to one place before the other, parents before their parts. */
  ghost predicate Sooner(a: seq<Place>, b: seq<Place>) {
    exists k :: 0 <= k <= |a| && k < |b| && a[..k] == b[..k] && (k == |a| || Earlier(a[k], b[k]))
  }

  /** What the report says, read off the schema. */
  ghost predicate ListsOpenObjects(g: Graph, root: Ref, paths: seq<string>, nodes: seq<nat>, ways: seq<seq<Place>>) {
    && |nodes| == |ways| == |paths| && Distinct(nodes)
    && (forall k :: 0 <= k < |paths| ==> LeavesRoom(g, nodes[k]) && Leads(g, root, ways[k], nodes[k], paths[k]))
    && (forall n, way, path :: Leads(g, root, way, n, path) && LeavesRoom(g, n) ==> n in nodes)
    && forall i, j :: 0 <= i < j < |ways| ==> Sooner(ways[i], ways[j])
  }

  ghost predicate LeavesRoom(g: Graph, n: nat) {
    n in g && g[n].typeIsObject && g[n].properties.Some? && !g[n].additionalPropertiesIsFalse
  }

  /** A reported node and how the search came to it. */
  datatype Found = Found(node: nat, trail: seq<nat>)

  ghost predicate Spelled(g: Graph, from: Ref, field: string, paths: seq<string>, found: seq<Found>) {
    && |found| == |paths|
    && forall k :: 0 <= k < |found| ==>
         Follow(g, from, field, found[k].trail) == Some(Arrival(found[k].node, paths[k]))
  }

  function NodesOf(found: seq<Found>): (r: seq<nat>)
    ensures |r| == |found| && forall k :: 0 <= k < |found| ==> r[k] == found[k].node
  {
    seq(|found|, k requires 0 <= k < |found| => found[k].node)
  }

  /** The report: a path to every reachable open object, to each exactly once. */
  ghost predicate Reports(g: Graph, root: Ref, paths: seq<string>, found: seq<Found>) {
    && Spelled(g, root, "$", paths, found)
    && Distinct(NodesOf(found))
    && forall n :: n in NodesOf(found) <==> n in g && Reachable(g, root, n) && IsOpen(g[n])
  }

  // ---- The search ------------------------------------------------------------------

  /** Every edge out of `expanded` ends in `seen`. */
  ghost predicate Saturated(g: Graph, expanded: set<nat>, seen: set<nat>) {
    forall n, k :: n in expanded && n in g && 0 <= k < |Edges(g[n])| && Edges(g[n])[k].target.Node?
      ==> Edges(g[n])[k].target.id in seen
  }

  /** The open nodes of `visited` are found once each. */
  ghost predicate Hits(g: Graph, visited: set<nat>, found: seq<Found>) {
    && Distinct(NodesOf(found))
    && forall n :: n in NodesOf(found) <==> n in visited && n in g && IsOpen(g[n])
  }

  /** Every node of `visited` can be reached from `from`, and its open nodes are the ones found. */
  ghost predicate Explored(g: Graph, from: Ref, field: string, visited: set<nat>, paths: seq<string>,
                           found: seq<Found>) {
    && Spelled(g, from, field, paths, found)
    && Hits(g, visited, found)
    && forall n :: n in visited ==> n in g && Led(g, from, field, n)
  }

  ghost predicate Led(g: Graph, from: Ref, field: string, n: nat) {
    exists trail, path :: Follow(g, from, field, trail) == Some(Arrival(n, path))
  }

  function Through(k: nat, found: seq<Found>): (r: seq<Found>)
    ensures |r| == |found|
    ensures forall j :: 0 <= j < |found| ==> r[j] == Found(found[j].node, [k] + found[j].trail)
  {
    seq(|found|, j requires 0 <= j < |found| => Found(found[j].node, [k] + found[j].trail))
  }

  /** What a child's search explored belongs to its parent's. */
  lemma ThroughChild(g: Graph, n: nat, field: string, k: nat, visited: set<nat>, paths: seq<string>, found: seq<Found>)
    requires n in g && k < |Edges(g[n])|
    requires var edge := Edges(g[n])[k]; Explored(g, edge.target, field + edge.step, visited, paths, found)
    ensures Explored(g, Node(n), field, visited, paths, Through(k, found))
  {
    var edge := Edges(g[n])[k];
    forall trail ensures Follow(g, Node(n), field, [k] + trail) == Follow(g, edge.target, field + edge.step, trail) {
      assert ([k] + trail)[1..] == trail;
    }
    assert NodesOf(Through(k, found)) == NodesOf(found);
    forall m | m in visited ensures Led(g, Node(n), field, m) {
      var trail, path :| Follow(g, edge.target, field + edge.step, trail) == Some(Arrival(m, path));
      assert Follow(g, Node(n), field, [k] + trail) == Some(Arrival(m, path));
    }
  }

  /** Two disjoint explorations from the same node add up. */
  lemma Join(g: Graph, from: Ref, field: string, a: set<nat>, p: seq<string>, f: seq<Found>,
             b: set<nat>, q: seq<string>, h: seq<Found>)
    requires Explored(g, from, field, a, p, f) && Explored(g, from, field, b, q, h) && a !! b
    ensures Explored(g, from, field, a + b, p + q, f + h)
  {
    assert NodesOf(f + h) == NodesOf(f) + NodesOf(h);
    DistinctAppend(NodesOf(f), NodesOf(h));
  }

  lemma VisitNode(g: Graph, n: nat, field: string)
    requires n in g
    ensures IsOpen(g[n]) ==> Explored(g, Node(n), field, {n}, [field], [Found(n, [])])
    ensures !IsOpen(g[n]) ==> Explored(g, Node(n), field, {n}, [], [])
  {
    assert Follow(g, Node(n), field, []) == Some(Arrival(n, field));
    assert NodesOf([Found(n, [])]) == [n];
  }

  // ---- The order of the report -----------------------------------------------------

  ghost predicate TrailLess(a: seq<nat>, b: seq<nat>) {
    exists k :: 0 <= k <= |a| && k < |b| && a[..k] == b[..k] && (k == |a| || a[k] < b[k])
  }

  ghost predicate InOrder(found: seq<Found>) {
    forall i, j :: 0 <= i < j < |found| ==> TrailLess(found[i].trail, found[j].trail)
  }

  /** Found at the node itself or through one of its first k edges. */
  ghost predicate Below(found: seq<Found>, k: nat) {
    forall i :: 0 <= i < |found| ==> found[i].trail == [] || found[i].trail[0] < k
  }

  /** What the next edge leads to comes after what has been found so far. */
  lemma NextInOrder(f: seq<Found>, k: nat, more: seq<Found>)
    requires InOrder(f) && Below(f, k) && InOrder(more)
    ensures InOrder(f + Through(k, more)) && Below(f + Through(k, more), k + 1)
  {
    var h := Through(k, more);
    forall i, j | 0 <= i < j < |h| ensures TrailLess(h[i].trail, h[j].trail) {
      TrailLessBelow(k, more[i].trail, more[j].trail);
    }
    forall i, j | 0 <= i < |f| && 0 <= j < |h| ensures TrailLess(f[i].trail, h[j].trail) {
      assert f[i].trail[..0] == h[j].trail[..0];
    }
  }

  lemma TrailLessBelow(k: nat, a: seq<nat>, b: seq<nat>)
    requires TrailLess(a, b)
    ensures TrailLess([k] + a, [k] + b)
  {
    var n :| 0 <= n <= |a| && n < |b| && a[..n] == b[..n] && (n == |a| || a[n] < b[n]);
    assert ([k] + a)[..n + 1] == [k] + a[..n] && ([k] + b)[..n + 1] == [k] + b[..n];
  }

  lemma StillSaturated(g: Graph, a: set<nat>, seen: set<nat>, b: set<nat>, more: set<nat>)
    requires Saturated(g, a, seen) && Saturated(g, b, more) && seen <= more
    ensures Saturated(g, a + b, more)
  {
  }

  lemma NodeSaturated(g: Graph, n: nat, expanded: set<nat>, seen: set<nat>)
    requires n in g && Saturated(g, expanded, seen)
    requires forall j :: 0 <= j < |Edges(g[n])| && Edges(g[n])[j].target.Node? ==> Edges(g[n])[j].target.id in seen
    ensures Saturated(g, expanded + {n}, seen)
  {
  }

  /** What a child's search found is added to what has been found so far. */
  lemma AddChild(g: Graph, n: nat, field: string, k: nat, a: set<nat>, p: seq<string>, f: seq<Found>,
                 b: set<nat>, q: seq<string>, h: seq<Found>)
    requires n in g && k < |Edges(g[n])| && a !! b
    requires Explored(g, Node(n), field, a, p, f) && InOrder(f) && Below(f, k) && InOrder(h)
    requires var edge := Edges(g[n])[k]; Explored(g, edge.target, field + edge.step, b, q, h)
    ensures Explored(g, Node(n), field, a + b, p + q, f + Through(k, h))
    ensures InOrder(f + Through(k, h)) && Below(f + Through(k, h), k + 1)
  {
    ThroughChild(g, n, field, k, b, q, h);
    Join(g, Node(n), field, a, p, f, b, q, Through(k, h));
    NextInOrder(f, k, h);
  }

  class Search {
    /** The identities of the dictionaries already visited, shared by all recursive calls. */
    var seen: set<nat>

    constructor ()
      ensures seen == {}
    {
      seen := {};
    }

    /** _open_object_paths: everything not seen before that can be reached through unseen
        nodes becomes seen, and the open ones among it are reported, once each. */
    method OpenObjectPaths(g: Graph, schema: Ref, field: string)
      returns (paths: seq<string>, ghost found: seq<Found>)
      requires Closed(g) && (schema.Node? ==> schema.id in g)
      modifies this
      ensures old(seen) <= seen && (schema.Node? ==> schema.id in seen)
      ensures Saturated(g, seen - old(seen), seen)
      ensures Explored(g, schema, field, seen - old(seen), paths, found) && InOrder(found)
      decreases g.Keys - seen
    {
      paths, found := [], [];
      if schema.Other? || schema.id in seen {
        return;
      }
      var n := schema.id;
      var node := g[n];
      ghost var before := seen;
      seen := seen + {n};
      VisitNode(g, n, field);
      if node.typeIsObject && node.properties.Some? {
        if !node.additionalPropertiesIsFalse {
          paths := [field];
          found := [Found(n, [])];
        }
      }
      assert seen - before == {n};
      var edges := Edges(node);
      for k := 0 to |edges|
        invariant before + {n} <= seen
        invariant Saturated(g, seen - before - {n}, seen)
        invariant forall j :: 0 <= j < k && edges[j].target.Node? ==> edges[j].target.id in seen
        invariant Explored(g, schema, field, seen - before, paths, found)
        invariant InOrder(found) && Below(found, k)
      {
        ghost var entry := seen;
        var more;
        ghost var there;
        more, there := OpenObjectPaths(g, edges[k].target, field + edges[k].step);
        assert (entry - before) + (seen - entry) == seen - before;
        assert (entry - before - {n}) + (seen - entry) == seen - before - {n};
        StillSaturated(g, entry - before - {n}, entry, seen - entry, seen);
        AddChild(g, n, field, k, entry - before, paths, found, seen - entry, more, there);
        paths, found := paths + more, found + Through(k, there);
      }
      NodeSaturated(g, n, seen - before - {n}, seen);
      assert seen - before - {n} + {n} == seen - before;
    }
  }

  /** A saturated set that holds the root holds everything that can be reached. */
  lemma {:induction false} SaturatedIsComplete(g: Graph, from: Ref, field: string, trail: seq<nat>, seen: set<nat>)
    requires Saturated(g, seen, seen) && (from.Node? ==> from.id in seen)
    requires Follow(g, from, field, trail).Some?
    ensures Follow(g, from, field, trail).value.node in seen
    decreases |trail|
  {
    if trail != [] {
      var edge := Edges(g[from.id])[trail[0]];
      SaturatedIsComplete(g, edge.target, field + edge.step, trail[1..], seen);
    }
  }

  // ---- The report, read off the schema ---------------------------------------------

  /** The places that a trail of edge numbers leads through. */
  ghost function Way(g: Graph, root: Ref, trail: seq<nat>): (r: seq<Place>)
    ensures |r| == |trail|
    decreases |trail|
  {
    if trail == [] then []
    else
      var last := |trail| - 1;
      var at := Follow(g, root, "$", trail[..last]);
      Way(g, root, trail[..last])
      + [if at.Some? && at.value.node in g && trail[last] < |Places(g[at.value.node])|
         then Places(g[at.value.node])[trail[last]] else Place(0, 0)]
  }

  /** One edge more. */
  lemma {:induction false} FollowSnoc(g: Graph, from: Ref, field: string, trail: seq<nat>, k: nat)
    ensures Follow(g, from, field, trail + [k])
            == var at := Follow(g, from, field, trail);
               if at.None? then None
               else Follow(g, Node(at.value.node), at.value.path, [k])
    decreases |trail|
  {
    if trail == [] {
      assert trail + [k] == [k];
    } else if from.Node? && from.id in g && trail[0] < |Edges(g[from.id])| {
      var edge := Edges(g[from.id])[trail[0]];
      assert (trail + [k])[1..] == trail[1..] + [k];
      FollowSnoc(g, edge.target, field + edge.step, trail[1..], k);
    }
  }

  lemma {:induction false} LastEdge(g: Graph, root: Ref, trail: seq<nat>)
    requires trail != [] && Follow(g, root, "$", trail).Some?
    ensures var at := Follow(g, root, "$", trail[..|trail| - 1]);
            && at.Some? && at.value.node in g && trail[|trail| - 1] < |Edges(g[at.value.node])|
            && var edge := Edges(g[at.value.node])[trail[|trail| - 1]];
            edge.target.Node? && edge.target.id in g
            && Follow(g, root, "$", trail) == Some(Arrival(edge.target.id, at.value.path + edge.step))
  {
    var last := |trail| - 1;
    assert trail == trail[..last] + [trail[last]];
    FollowSnoc(g, root, "$", trail[..last], trail[last]);
    assert [trail[last]][1..] == [];
  }

  lemma {:induction false} TrailLeads(g: Graph, root: Ref, trail: seq<nat>, n: nat, path: string)
    requires Follow(g, root, "$", trail) == Some(Arrival(n, path))
    ensures Leads(g, root, Way(g, root, trail), n, path)
    decreases |trail|
  {
    if trail != [] {
      var last := |trail| - 1;
      LastEdge(g, root, trail);
      var at := Follow(g, root, "$", trail[..last]).value;
      TrailLeads(g, root, trail[..last], at.node, at.path);
      EdgesAreChildren(g[at.node]);
      var way, edge := Way(g, root, trail), Edges(g[at.node])[trail[last]];
      assert way[..last] == Way(g, root, trail[..last]);
      assert ByWay(g, root, way, n, path, at.node, at.path, edge.step);
    }
  }

  lemma {:induction false} LeadsByTrail(g: Graph, root: Ref, way: seq<Place>, n: nat, path: string)
    returns (trail: seq<nat>)
    requires Leads(g, root, way, n, path)
    ensures Follow(g, root, "$", trail) == Some(Arrival(n, path))
    decreases |way|
  {
    if way == [] {
      trail := [];
    } else {
      var parent, before, step :| ByWay(g, root, way, n, path, parent, before, step);
      var init := LeadsByTrail(g, root, way[..|way| - 1], parent, before);
      var k := ChildIsEdge(g[parent], way[|way| - 1], step, Node(n));
      FollowSnoc(g, root, "$", init, k);
      assert [k][1..] == [];
      trail := init + [k];
    }
  }

  lemma ChildIsEdge(s: Schema, p: Place, step: string, m: Ref) returns (k: nat)
    requires Child(s, p, step, m)
    ensures k < |Edges(s)| && Edges(s)[k] == Edge(step, m)
  {
    EdgesAreChildren(s);
    assert Listed(Places(s), Edges(s), p, step, m);
    k :| 0 <= k < |Places(s)| && k < |Edges(s)| && Places(s)[k] == p && Edges(s)[k] == Edge(step, m);
  }

  lemma {:induction false} WayPrefix(g: Graph, root: Ref, trail: seq<nat>, k: nat)
    requires k <= |trail|
    ensures Way(g, root, trail)[..k] == Way(g, root, trail[..k])
    ensures Follow(g, root, "$", trail).Some? ==> Follow(g, root, "$", trail[..k]).Some?
    decreases |trail|
  {
    if k < |trail| {
      var last := |trail| - 1;
      WayPrefix(g, root, trail[..last], k);
      assert trail[..last][..k] == trail[..k];
      if Follow(g, root, "$", trail).Some? { LastEdge(g, root, trail); }
    } else {
      assert trail[..k] == trail;
    }
  }

  /** Where a trail goes at its k-th edge. */
  lemma {:induction false} WayAt(g: Graph, root: Ref, trail: seq<nat>, k: nat)
    requires k < |trail| && Follow(g, root, "$", trail).Some?
    ensures var at := Follow(g, root, "$", trail[..k]);
            && at.Some? && at.value.node in g
            && trail[k] < |Places(g[at.value.node])| && Way(g, root, trail)[k] == Places(g[at.value.node])[trail[k]]
  {
    var front := trail[..k + 1];
    WayPrefix(g, root, trail, k + 1);
    LastEdge(g, root, front);
    assert front[..k] == trail[..k];
    EdgesAreChildren(g[Follow(g, root, "$", trail[..k]).value.node]);
    assert Way(g, root, trail)[k] == Way(g, root, trail)[..k + 1][k];
  }

  lemma {:induction false} LessIsSooner(g: Graph, root: Ref, a: seq<nat>, b: seq<nat>)
    requires Follow(g, root, "$", a).Some? && Follow(g, root, "$", b).Some? && TrailLess(a, b)
    ensures Sooner(Way(g, root, a), Way(g, root, b))
  {
    var k :| 0 <= k <= |a| && k < |b| && a[..k] == b[..k] && (k == |a| || a[k] < b[k]);
    WayPrefix(g, root, a, k);
    WayPrefix(g, root, b, k);
    if k < |a| {
      WayAt(g, root, a, k);
      WayAt(g, root, b, k);
      EdgesAreChildren(g[Follow(g, root, "$", a[..k]).value.node]);
    }
    var x, y := Way(g, root, a), Way(g, root, b);
    assert x[..k] == y[..k] && (k == |x| || Earlier(x[k], y[k]));
  }

  ghost function Ways(g: Graph, root: Ref, found: seq<Found>): (r: seq<seq<Place>>)
    ensures |r| == |found| && forall k :: 0 <= k < |found| ==> r[k] == Way(g, root, found[k].trail)
  {
    seq(|found|, k requires 0 <= k < |found| => Way(g, root, found[k].trail))
  }

  /** The search in terms of edges reports what it should. */
  lemma ReportListsOpenObjects(g: Graph, root: Ref, paths: seq<string>, found: seq<Found>)
    requires Reports(g, root, paths, found) && InOrder(found)
    ensures ListsOpenObjects(g, root, paths, NodesOf(found), Ways(g, root, found))
  {
    var nodes, ways := NodesOf(found), Ways(g, root, found);
    forall k | 0 <= k < |paths| ensures LeavesRoom(g, nodes[k]) && Leads(g, root, ways[k], nodes[k], paths[k]) {
      assert nodes[k] in nodes;
      TrailLeads(g, root, found[k].trail, nodes[k], paths[k]);
    }
    forall n, way, path | Leads(g, root, way, n, path) && LeavesRoom(g, n) ensures n in nodes {
      var trail := LeadsByTrail(g, root, way, n, path);
      assert Reachable(g, root, n);
    }
    forall i, j | 0 <= i < j < |ways| ensures Sooner(ways[i], ways[j]) {
      LessIsSooner(g, root, found[i].trail, found[j].trail);
    }
  }

  ghost function OpenNodes(g: Graph, root: Ref): set<nat> {
    set n | n in g && Reachable(g, root, n) && IsOpen(g[n])
  }

  /** _open_object_paths(schema): a path to each open object that the schema leads to, once each and
      in the order of the schema.  There are as many paths as such objects, and none exactly when every
      reachable object is closed. */
  method OpenObjectPaths(g: Graph, root: Ref) returns (paths: seq<string>)
    requires Closed(g) && (root.Node? ==> root.id in g)
    ensures exists nodes, ways :: ListsOpenObjects(g, root, paths, nodes, ways)
    ensures |paths| == |OpenNodes(g, root)|
    ensures paths == [] <==> forall n :: n in g && Reachable(g, root, n) ==> !IsOpen(g[n])
  {
    var search := new Search();
    ghost var found;
    paths, found := search.OpenObjectPaths(g, root, "$");
    forall n ensures n in search.seen <==> n in g && Reachable(g, root, n) {
      if Reachable(g, root, n) {
        var trail, path :| Follow(g, root, "$", trail) == Some(Arrival(n, path));
        SaturatedIsComplete(g, root, "$", trail, search.seen);
        assert n in g by { FollowEndsInGraph(g, root, "$", trail); }
      }
      if n in search.seen { assert Led(g, root, "$", n); }
    }
    assert Reports(g, root, paths, found);
    ReportListsOpenObjects(g, root, paths, found);
    ReportSize(g, root, paths, found);
  }

  lemma {:induction false} FollowEndsInGraph(g: Graph, from: Ref, field: string, trail: seq<nat>)
    requires Follow(g, from, field, trail).Some?
    ensures Follow(g, from, field, trail).value.node in g
    decreases |trail|
  {
    if trail != [] {
      var edge := Edges(g[from.id])[trail[0]];
      FollowEndsInGraph(g, edge.target, field + edge.step, trail[1..]);
    }
  }

  lemma ReportSize(g: Graph, root: Ref, paths: seq<string>, found: seq<Found>)
    requires Reports(g, root, paths, found)
    ensures |paths| == |OpenNodes(g, root)|
    ensures paths == [] <==> forall n :: n in g && Reachable(g, root, n) ==> !IsOpen(g[n])
  {
    DistinctSize(NodesOf(found));
    assert Elements(NodesOf(found)) == OpenNodes(g, root);
    if paths != [] {
      var n := NodesOf(found)[0];
      assert n in NodesOf(found);
    } else {
      forall n | n in g && Reachable(g, root, n) ensures !IsOpen(g[n]) { assert n !in NodesOf(found); }
    }
  }
}
