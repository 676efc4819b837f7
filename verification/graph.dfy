/** The network graph the island pass builds with `networkx.Graph`: vertices
    are coordinates, each consecutive vertex pair of a feature's chain is an
    undirected edge tagged with the feature id, and the graph is simple, so a
    pair added twice keeps one edge carrying the later tag. Connected
    components are specified through reachability. */
module Graph {
  import opened Outcomes
  import opened Geometry
  import opened Layer

  datatype VertexPair = VertexPair(lo: Coord, hi: Coord)

  predicate LessEq(a: Coord, b: Coord)
  {
    a.x < b.x || (a.x == b.x && a.y <= b.y)
  }

  /** The unordered vertex pair keying an edge, stored with `lo` first in
      lexicographic order; a repeated vertex gives a self-loop key. */
  type EdgeKey = k: VertexPair | LessEq(k.lo, k.hi) witness VertexPair(Coord(0, 0), Coord(0, 0))

  function Key(u: Coord, v: Coord): (k: EdgeKey)
    ensures (k.lo == u && k.hi == v) || (k.lo == v && k.hi == u)
  {
    if LessEq(u, v) then VertexPair(u, v) else VertexPair(v, u)
  }

  /** The key does not depend on the direction the pair is given in. */
  lemma KeySymmetric(u: Coord, v: Coord)
    ensures Key(u, v) == Key(v, u)
  {
  }

  /** An edge as `add_edges_from` receives it: two vertices and the fid. */
  datatype TaggedEdge = TaggedEdge(u: Coord, v: Coord, fid: Fid)

  function EKey(e: TaggedEdge): EdgeKey
  {
    Key(e.u, e.v)
  }

  /** The `range(len(line) - 1)` loop for one chain: one edge per consecutive
      vertex pair. */
  function ChainEdges(fid: Fid, line: Polyline): (r: seq<TaggedEdge>)
    ensures |r| == if |line| < 2 then 0 else |line| - 1
    ensures forall i :: 0 <= i < |r| ==> r[i] == TaggedEdge(line[i], line[i + 1], fid)
  {
    if |line| < 2 then [] else [TaggedEdge(line[0], line[1], fid)] + ChainEdges(fid, line[1..])
  }

  /** `feat.geometry().asPolyline()`: a feature without geometry has no
      vertices, and one with a geometry has that chain's vertices. */
  function VerticesOf(ft: Feature): Polyline
  {
    if ft.geometry.Some? then ft.geometry.value else []
  }

  /** Every edge the island pass adds, in the order it adds them. */
  function LayerEdges(features: seq<Feature>): (r: seq<TaggedEdge>)
    ensures forall e :: e in r <==>
      exists ft, i :: ft in features && 0 <= i < |VerticesOf(ft)| - 1
                   && e == TaggedEdge(VerticesOf(ft)[i], VerticesOf(ft)[i + 1], ft.fid)
  {
    if features == [] then []
    else
      var chain := ChainEdges(features[0].fid, VerticesOf(features[0]));
      var rest := LayerEdges(features[1..]);
      assert forall ft :: ft in features <==> ft == features[0] || ft in features[1..];
      var line := VerticesOf(features[0]);
      assert forall e :: e in chain ==>
        (exists i :: 0 <= i < |line| - 1 && e == TaggedEdge(line[i], line[i + 1], features[0].fid)) by {
        forall e | e in chain
          ensures exists i :: 0 <= i < |line| - 1 && e == TaggedEdge(line[i], line[i + 1], features[0].fid)
        {
          var i :| 0 <= i < |chain| && chain[i] == e;
          assert e == TaggedEdge(line[i], line[i + 1], features[0].fid);
        }
      }
      chain + rest
  }

  /** A simple graph: each vertex pair present holds the fid of its edge. */
  type Graph = map<EdgeKey, Fid>

  /** `G.add_edges_from` one edge at a time. A new pair becomes an edge; a
      pair already present keeps its single edge, which takes the new fid. */
  function AddEdges(g: Graph, edges: seq<TaggedEdge>): (r: Graph)
    ensures forall k :: k in r <==> k in g || exists e :: e in edges && EKey(e) == k
    ensures forall k :: k in r ==>
      (k in g && r[k] == g[k]) || exists e :: e in edges && EKey(e) == k && e.fid == r[k]
    ensures forall i :: 0 <= i < |edges| && (forall j :: i < j < |edges| ==> EKey(edges[j]) != EKey(edges[i])) ==>
      r[EKey(edges[i])] == edges[i].fid
    decreases |edges|
  {
    if edges == [] then g
    else
      var r := AddEdges(g[EKey(edges[0]) := edges[0].fid], edges[1..]);
      assert forall e :: e in edges <==> e == edges[0] || e in edges[1..];
      assert forall i :: 1 <= i < |edges| ==> edges[i] == edges[1..][i - 1];
      r
  }

  /** The fids carried by at least one edge of `g`. */
  function Owners(g: Graph): set<Fid>
  {
    set k | k in g :: g[k]
  }

  /** The chain of `ft` joins the two endpoints of `k` by consecutive vertices. */
  ghost predicate ChainHas(ft: Feature, k: EdgeKey)
  {
    exists i :: 0 <= i < |VerticesOf(ft)| - 1 && Key(VerticesOf(ft)[i], VerticesOf(ft)[i + 1]) == k
  }

  /** The graph of lines 142-150. */
  function LayerGraph(features: seq<Feature>): Graph
  {
    AddEdges(map[], LayerEdges(features))
  }

  /** The edges of the layer graph are exactly the consecutive vertex pairs of
      the chains, and each carries the fid of a chain that has it. */
  lemma LayerGraphEdges(features: seq<Feature>)
    ensures forall k :: k in LayerGraph(features) <==> exists ft :: ft in features && ChainHas(ft, k)
    ensures forall k :: k in LayerGraph(features) ==>
      exists ft :: ft in features && ChainHas(ft, k) && ft.fid == LayerGraph(features)[k]
  {
    var edges := LayerEdges(features);
    var g := LayerGraph(features);
    forall k | k in g
      ensures exists ft :: ft in features && ChainHas(ft, k) && ft.fid == g[k]
    {
      var e :| e in edges && EKey(e) == k && e.fid == g[k];
      var ft, i :| ft in features && 0 <= i < |VerticesOf(ft)| - 1
                && e == TaggedEdge(VerticesOf(ft)[i], VerticesOf(ft)[i + 1], ft.fid);
      assert ChainHas(ft, k);
    }
    forall k | exists ft :: ft in features && ChainHas(ft, k)
      ensures k in g
    {
      var ft :| ft in features && ChainHas(ft, k);
      var i :| 0 <= i < |VerticesOf(ft)| - 1 && Key(VerticesOf(ft)[i], VerticesOf(ft)[i + 1]) == k;
      assert TaggedEdge(VerticesOf(ft)[i], VerticesOf(ft)[i + 1], ft.fid) in edges;
    }
  }

  // ---- Which feature keeps an edge -----------------------------------------

  lemma {:induction false} AddEdgesAppend(g: Graph, a: seq<TaggedEdge>, b: seq<TaggedEdge>)
    ensures AddEdges(g, a + b) == AddEdges(AddEdges(g, a), b)
    decreases |a|
  {
    if a == [] {
      assert a + b == b;
    } else {
      assert (a + b)[0] == a[0];
      assert (a + b)[1..] == a[1..] + b;
      AddEdgesAppend(g[EKey(a[0]) := a[0].fid], a[1..], b);
    }
  }

  /** Adding one chain: every pair of the chain ends up tagged with its fid. */
  lemma {:induction false} ChainSetsOwner(g: Graph, fid: Fid, line: Polyline, k: EdgeKey)
    requires exists i :: 0 <= i < |line| - 1 && Key(line[i], line[i + 1]) == k
    ensures k in AddEdges(g, ChainEdges(fid, line))
    ensures AddEdges(g, ChainEdges(fid, line))[k] == fid
    decreases |line|
  {
    var edges := ChainEdges(fid, line);
    var g' := g[EKey(edges[0]) := fid];
    assert edges[1..] == ChainEdges(fid, line[1..]);
    if exists i :: 1 <= i < |line| - 1 && Key(line[i], line[i + 1]) == k {
      var i :| 1 <= i < |line| - 1 && Key(line[i], line[i + 1]) == k;
      assert Key(line[1..][i - 1], line[1..][i]) == k;
      ChainSetsOwner(g', fid, line[1..], k);
    } else {
      assert EKey(edges[0]) == k;
      forall e | e in edges[1..]
        ensures EKey(e) != k
      {
        var j :| 0 <= j < |edges[1..]| && edges[1..][j] == e;
        assert e == TaggedEdge(line[j + 1], line[j + 2], fid);
      }
    }
  }

  /** When no chain after the first has `k`, no edge they add has it. */
  lemma LaterChainsLack(features: seq<Feature>, k: EdgeKey)
    requires features != []
    requires forall j' :: 0 < j' < |features| ==> !ChainHas(features[j'], k)
    ensures forall e :: e in LayerEdges(features[1..]) ==> EKey(e) != k
  {
    var rest := features[1..];
    assert forall j :: 0 <= j < |rest| ==> rest[j] == features[j + 1];
    ChainsLack(rest, k);
  }

  /** When no chain has `k`, no edge of the layer has it. */
  lemma ChainsLack(features: seq<Feature>, k: EdgeKey)
    requires forall j :: 0 <= j < |features| ==> !ChainHas(features[j], k)
    ensures forall e :: e in LayerEdges(features) ==> EKey(e) != k
  {
    forall e | e in LayerEdges(features)
      ensures EKey(e) != k
    {
      var ft, i :| ft in features && 0 <= i < |VerticesOf(ft)| - 1
                && e == TaggedEdge(VerticesOf(ft)[i], VerticesOf(ft)[i + 1], ft.fid);
      var j :| 0 <= j < |features| && features[j] == ft;
      ChainHasPair(ft, i);
    }
  }

  /** Each consecutive pair of a chain is a pair that chain has. */
  lemma ChainHasPair(ft: Feature, i: int)
    requires 0 <= i < |VerticesOf(ft)| - 1
    ensures ChainHas(ft, Key(VerticesOf(ft)[i], VerticesOf(ft)[i + 1]))
  {
  }

  /** Adding the chains of `features` in order: a pair that only the chain of
      `features[j]` and earlier chains contain is tagged by `features[j]`. */
  lemma {:induction false} LastChainOwns(g: Graph, features: seq<Feature>, j: nat, k: EdgeKey)
    requires j < |features| && ChainHas(features[j], k)
    requires forall j' :: j < j' < |features| ==> !ChainHas(features[j'], k)
    ensures k in AddEdges(g, LayerEdges(features))
    ensures AddEdges(g, LayerEdges(features))[k] == features[j].fid
    decreases j
  {
    var chain := ChainEdges(features[0].fid, VerticesOf(features[0]));
    var rest := LayerEdges(features[1..]);
    assert LayerEdges(features) == chain + rest;
    AddEdgesAppend(g, chain, rest);
    var g' := AddEdges(g, chain);
    if j > 0 {
      assert ChainHas(features[1..][j - 1], k);
      LastChainOwns(g', features[1..], j - 1, k);
    } else {
      ChainSetsOwner(g, features[0].fid, VerticesOf(features[0]), k);
      LaterChainsLack(features, k);
    }
  }

  /** The graph is simple and the chains are added in layer order, so an edge
      carries the fid of the last feature whose chain contains it. */
  lemma LastFeatureOwnsEdge(features: seq<Feature>, j: nat, k: EdgeKey)
    requires j < |features| && ChainHas(features[j], k)
    requires forall j' :: j < j' < |features| ==> !ChainHas(features[j'], k)
    ensures k in LayerGraph(features) && LayerGraph(features)[k] == features[j].fid
  {
    LastChainOwns(map[], features, j, k);
  }

  // ---- Reachability -------------------------------------------------------

  /** A walk along edges of `g`, one vertex after another. */
  ghost predicate IsPath(g: Graph, p: seq<Coord>)
  {
    |p| >= 1 && forall i :: 0 <= i < |p| - 1 ==> Key(p[i], p[i + 1]) in g
  }

  ghost predicate Reachable(g: Graph, u: Coord, v: Coord)
  {
    exists p :: IsPath(g, p) && p[0] == u && p[|p| - 1] == v
  }

  lemma ReachableRefl(g: Graph, u: Coord)
    ensures Reachable(g, u, u)
  {
    assert IsPath(g, [u]);
  }

  lemma ReachableEdge(g: Graph, u: Coord, v: Coord)
    requires Key(u, v) in g
    ensures Reachable(g, u, v)
  {
    assert IsPath(g, [u, v]);
  }

  lemma ReachableTrans(g: Graph, u: Coord, v: Coord, w: Coord)
    requires Reachable(g, u, v) && Reachable(g, v, w)
    ensures Reachable(g, u, w)
  {
    var p :| IsPath(g, p) && p[0] == u && p[|p| - 1] == v;
    var q :| IsPath(g, q) && q[0] == v && q[|q| - 1] == w;
    var pq := p + q[1..];
    assert forall i :: 0 <= i < |pq| - 1 ==> Key(pq[i], pq[i + 1]) in g by {
      forall i | 0 <= i < |pq| - 1
        ensures Key(pq[i], pq[i + 1]) in g
      {
        if i < |p| - 1 {
          assert pq[i] == p[i] && pq[i + 1] == p[i + 1];
        } else {
          assert pq[i] == q[i - |p| + 1] && pq[i + 1] == q[i - |p| + 2];
        }
      }
    }
    assert IsPath(g, pq);
  }

  lemma ReachableSym(g: Graph, u: Coord, v: Coord)
    requires Reachable(g, u, v)
    ensures Reachable(g, v, u)
  {
    var p :| IsPath(g, p) && p[0] == u && p[|p| - 1] == v;
    var q := Reverse(p);
    forall i | 0 <= i < |q| - 1
      ensures Key(q[i], q[i + 1]) in g
    {
      var j := |p| - 2 - i;
      assert q[i] == p[j + 1] && q[i + 1] == p[j];
      KeySymmetric(p[j], p[j + 1]);
    }
    assert IsPath(g, q);
  }

  // ---- Components ---------------------------------------------------------

  function Vertices(g: Graph): set<Coord>
  {
    (set k | k in g :: k.lo) + (set k | k in g :: k.hi)
  }

  /** No edge of `g` leaves `s`. */
  ghost predicate Closed(g: Graph, s: set<Coord>)
  {
    forall k :: k in g ==> (k.lo in s <==> k.hi in s)
  }

  /** `s` with every vertex one edge away from it. */
  function Step(g: Graph, s: set<Coord>): set<Coord>
  {
    s + (set k | k in g && k.lo in s :: k.hi) + (set k | k in g && k.hi in s :: k.lo)
  }

  lemma ProperSubsetSmaller(a: set<Coord>, b: set<Coord>)
    requires a < b
    ensures |a| < |b|
  {
    assert exists x :: x in b && x !in a;
    var x :| x in b && x !in a;
    assert b == a + (b - a);
    assert {x} <= b - a;
  }

  /** A step that adds a vertex leaves fewer vertices outside. */
  lemma StepShrinksRemainder(g: Graph, s: set<Coord>)
    requires Step(g, s) != s
    ensures |Vertices(g) - Step(g, s)| < |Vertices(g) - s|
  {
    var n := Step(g, s);
    assert n - s <= Vertices(g);
    assert exists x :: x in n && x !in s;
    ProperSubsetSmaller(Vertices(g) - n, Vertices(g) - s);
  }

  /** The least closed superset of `s`, by repeated steps. */
  function Closure(g: Graph, s: set<Coord>): (r: set<Coord>)
    ensures s <= r <= s + Vertices(g)
    ensures Closed(g, r)
    decreases |Vertices(g) - s|
  {
    var n := Step(g, s);
    if n == s then s
    else
      StepShrinksRemainder(g, s);
      Closure(g, n)
  }

  /** Every vertex one step from `s` is reachable from a vertex of `s`. */
  lemma StepReachable(g: Graph, s: set<Coord>, w: Coord)
    requires w in Step(g, s)
    ensures exists u :: u in s && Reachable(g, u, w)
  {
    if w in s {
      ReachableRefl(g, w);
    } else if k :| k in g && k.lo in s && k.hi == w {
      ReachableEdge(g, k.lo, k.hi);
    } else {
      var k :| k in g && k.hi in s && k.lo == w;
      KeySymmetric(k.lo, k.hi);
      ReachableEdge(g, k.hi, k.lo);
    }
  }

  /** The closure of `s` holds exactly the vertices reachable from a vertex
      of `s`. */
  lemma {:induction false} ClosureReachable(g: Graph, s: set<Coord>, v: Coord)
    ensures v in Closure(g, s) <==> exists u :: u in s && Reachable(g, u, v)
    decreases |Vertices(g) - s|
  {
    if exists u :: u in s && Reachable(g, u, v) {
      var u :| u in s && Reachable(g, u, v);
      ClosedHoldsReachable(g, Closure(g, s), u, v);
    }
    if v in Closure(g, s) {
      var n := Step(g, s);
      if n == s {
        ReachableRefl(g, v);
      } else {
        StepShrinksRemainder(g, s);
        ClosureReachable(g, n, v);
        var w :| w in n && Reachable(g, w, v);
        StepReachable(g, s, w);
        var u :| u in s && Reachable(g, u, w);
        ReachableTrans(g, u, w, v);
      }
    }
  }

  /** A closed set holding the start of a path holds all of it. */
  lemma {:induction false} ClosedHoldsPath(g: Graph, s: set<Coord>, p: seq<Coord>, i: nat)
    requires Closed(g, s) && IsPath(g, p) && p[0] in s
    requires i < |p|
    ensures p[i] in s
  {
    if i > 0 {
      ClosedHoldsPath(g, s, p, i - 1);
      var k := Key(p[i - 1], p[i]);
      assert k in g;
    }
  }

  lemma ClosedHoldsReachable(g: Graph, s: set<Coord>, u: Coord, v: Coord)
    requires Closed(g, s) && u in s && Reachable(g, u, v)
    ensures v in s
  {
    var p :| IsPath(g, p) && p[0] == u && p[|p| - 1] == v;
    ClosedHoldsPath(g, s, p, |p| - 1);
  }

  /** The connected component of a vertex, as its vertex set (a coordinate
      that is not a vertex is alone in its own). */
  function Component(g: Graph, v: Coord): set<Coord>
  {
    Closure(g, {v})
  }

  /** The component of `v` is exactly the set of vertices reachable from `v`. */
  lemma ComponentIsReachable(g: Graph, v: Coord, w: Coord)
    ensures w in Component(g, v) <==> Reachable(g, v, w)
  {
    if w in Component(g, v) {
      ClosureReachable(g, {v}, w);
    }
    if Reachable(g, v, w) {
      ClosedHoldsReachable(g, Component(g, v), v, w);
    }
  }

  /** `c` is the vertex set of the connected component of `v`. */
  ghost predicate IsComponent(g: Graph, v: Coord, c: set<Coord>)
  {
    forall w :: w in c <==> Reachable(g, v, w)
  }

  lemma ComponentIsComponent(g: Graph, v: Coord)
    ensures IsComponent(g, v, Component(g, v))
  {
    forall w
      ensures w in Component(g, v) <==> Reachable(g, v, w)
    {
      ComponentIsReachable(g, v, w);
    }
  }

  /** `nx.connected_components`, asked for the component of one vertex. */
  method ComponentOf(g: Graph, v: Coord) returns (c: set<Coord>)
    ensures IsComponent(g, v, c)
  {
    c := Component(g, v);
    ComponentIsComponent(g, v);
  }

  /** Two vertices have the same component exactly when one reaches the
      other; otherwise their components share no vertex. */
  lemma ComponentsPartition(g: Graph, u: Coord, v: Coord, cu: set<Coord>, cv: set<Coord>)
    requires IsComponent(g, u, cu) && IsComponent(g, v, cv)
    ensures cu == cv <==> Reachable(g, u, v)
    ensures cu != cv ==> cu !! cv
  {
    ReachableRefl(g, v);
    assert v in cv;
    if Reachable(g, u, v) {
      ReachableSym(g, u, v);
      forall w
        ensures w in cu <==> w in cv
      {
        if Reachable(g, u, w) { ReachableTrans(g, v, u, w); }
        if Reachable(g, v, w) { ReachableTrans(g, u, v, w); }
      }
    } else {
      forall w | w in cu
        ensures w !in cv
      {
        if Reachable(g, v, w) {
          ReachableSym(g, v, w);
          ReachableTrans(g, u, w, v);
        }
      }
    }
  }

  // ---- Edges of one feature -------------------------------------------------

  /** Any two vertices of a path reach each other. */
  lemma PathReach(g: Graph, p: seq<Coord>, a: nat, b: nat)
    requires IsPath(g, p) && a < |p| && b < |p|
    ensures Reachable(g, p[a], p[b])
  {
    if a <= b {
      var q := p[a..b + 1];
      forall i | 0 <= i < |q| - 1
        ensures Key(q[i], q[i + 1]) in g
      {
        assert q[i] == p[a + i] && q[i + 1] == p[a + i + 1];
      }
      assert IsPath(g, q);
    } else {
      PathReach(g, p, b, a);
      ReachableSym(g, p[b], p[a]);
    }
  }

  /** Every chain edge of every feature is an edge of the layer graph, so a
      chain with a vertex is a path in it. */
  lemma ChainIsPath(features: seq<Feature>, ft: Feature)
    requires ft in features && VerticesOf(ft) != []
    ensures IsPath(LayerGraph(features), VerticesOf(ft))
  {
    var line := VerticesOf(ft);
    forall i | 0 <= i < |line| - 1
      ensures Key(line[i], line[i + 1]) in LayerGraph(features)
    {
      assert TaggedEdge(line[i], line[i + 1], ft.fid) in LayerEdges(features);
    }
  }

  /** The fid an edge carries is that of a feature whose chain holds the edge. */
  lemma EdgeOwner(features: seq<Feature>, k: EdgeKey)
    requires k in LayerGraph(features)
    ensures exists ft, i :: && ft in features && ft.fid == LayerGraph(features)[k]
                           && 0 <= i < |VerticesOf(ft)| - 1
                           && k == Key(VerticesOf(ft)[i], VerticesOf(ft)[i + 1])
  {
  }

  /** All edges carrying one fid lie in one connected component. */
  ghost predicate OwnersConnected(g: Graph)
  {
    forall k1, k2 :: k1 in g && k2 in g && g[k1] == g[k2] ==> Reachable(g, k1.lo, k2.lo)
  }

  /** In the layer graph the edges carrying a fid all come from that one
      feature's chain, which joins them, whatever later edges overwrote. */
  lemma LayerOwnersConnected(layer: Layer)
    ensures OwnersConnected(LayerGraph(layer))
  {
    var g := LayerGraph(layer);
    forall k1, k2 | k1 in g && k2 in g && g[k1] == g[k2]
      ensures Reachable(g, k1.lo, k2.lo)
    {
      SameOwnerReach(layer, k1, k2);
    }
  }

  /** Two edges carrying the same fid lie on that feature's chain. */
  lemma SameOwnerReach(layer: Layer, k1: EdgeKey, k2: EdgeKey)
    requires k1 in LayerGraph(layer) && k2 in LayerGraph(layer)
    requires LayerGraph(layer)[k1] == LayerGraph(layer)[k2]
    ensures Reachable(LayerGraph(layer), k1.lo, k2.lo)
  {
    var g := LayerGraph(layer);
    EdgeOwner(layer, k2);
    var ft, i :| && ft in layer && ft.fid == g[k2] && 0 <= i < |VerticesOf(ft)| - 1
                 && k2 == Key(VerticesOf(ft)[i], VerticesOf(ft)[i + 1]);
    var b := if k2.lo == VerticesOf(ft)[i] then i else i + 1;
    OwnedEdgeReachesChain(layer, ft, k1, b);
  }

  /** Every edge a feature carries reaches every vertex of that feature. */
  lemma OwnedEdgeReachesChain(layer: Layer, ft: Feature, k: EdgeKey, j: nat)
    requires ft in layer && k in LayerGraph(layer) && LayerGraph(layer)[k] == ft.fid
    requires j < |VerticesOf(ft)|
    ensures Reachable(LayerGraph(layer), k.lo, VerticesOf(ft)[j])
  {
    var g := LayerGraph(layer);
    EdgeOwner(layer, k);
    var ft', i :| && ft' in layer && ft'.fid == g[k] && 0 <= i < |VerticesOf(ft')| - 1
                  && k == Key(VerticesOf(ft')[i], VerticesOf(ft')[i + 1]);
    SameFidSameFeature(layer, ft, ft');
    var line := VerticesOf(ft);
    ChainIsPath(layer, ft);
    var a := if k.lo == line[i] then i else i + 1;
    PathReach(g, line, a, j);
  }
}
