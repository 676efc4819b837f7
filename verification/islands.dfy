/** `islands` and `dangles`: each fid is labelled with the connected component
    of the edges it carries (`fid_comp`), fids are counted per component
    (`countMap`), and the fids alone in their component are written a code. */
module Islands {
  import opened Outcomes
  import opened Geometry
  import opened Layer
  import opened Graph

  /** A component is labelled by its vertex set; `networkx` numbers the
      components instead, and either labelling tells components apart. */
  type Label = set<Coord>

  /** The fids `fc` maps to label `c`. */
  function FidsIn<L(==)>(fc: map<Fid, L>, c: L): set<Fid>
  {
    set f | f in fc && fc[f] == c
  }

  /** The fids of `done` that `fc` maps to label `c`. */
  function FidsAmong<L(==)>(fc: map<Fid, L>, done: set<Fid>, c: L): set<Fid>
  {
    set f | f in done && f in fc && fc[f] == c
  }

  lemma FidsAmongAdd<L>(fc: map<Fid, L>, done: set<Fid>, f: Fid, c: L)
    requires f in fc && f !in done
    ensures fc[f] == c ==> FidsAmong(fc, done + {f}, c) == FidsAmong(fc, done, c) + {f}
    ensures fc[f] != c ==> FidsAmong(fc, done + {f}, c) == FidsAmong(fc, done, c)
    ensures f !in FidsAmong(fc, done, c)
  {
  }

  /** `fid_comp`: every edge, taken in any order, maps its fid to its
      component; the last write per fid wins, and since all edges of a fid
      share a component, the order does not matter. */
  method FidComponents(g: Graph) returns (fc: map<Fid, Label>)
    requires OwnersConnected(g)
    ensures fc.Keys == Owners(g)
    ensures forall k :: k in g ==> IsComponent(g, k.lo, fc[g[k]])
  {
    fc := map[];
    var done: set<EdgeKey> := {};
    var rest := g.Keys;
    while rest != {}
      invariant done + rest == g.Keys && done !! rest
      invariant LabelledUpTo(g, fc, done)
      decreases rest
    {
      var k := PickOne(rest);
      var c := ComponentOf(g, k.lo);
      FidComponentsStep(g, fc, done, k, c);
      fc := fc[g[k] := c];
      done := done + {k};
      rest := rest - {k};
    }
    LabelledAll(g, fc, done);
  }

  /** The loop invariant of `fid_comp`: the fids written so far are those of
      the edges seen so far, each labelled with its edges' component. */
  ghost predicate LabelledUpTo(g: Graph, fc: map<Fid, Label>, done: set<EdgeKey>)
  {
    && done <= g.Keys
    && (forall f :: f in fc ==> exists k :: k in done && g[k] == f)
    && (forall k :: k in done ==> g[k] in fc && IsComponent(g, k.lo, fc[g[k]]))
  }

  /** One iteration of the `fid_comp` loop keeps its invariant: an earlier
      edge with the same fid had its label replaced by the same component. */
  lemma FidComponentsStep(g: Graph, fc: map<Fid, Label>, done: set<EdgeKey>, k: EdgeKey, c: Label)
    requires OwnersConnected(g) && k in g
    requires IsComponent(g, k.lo, c)
    requires LabelledUpTo(g, fc, done)
    ensures LabelledUpTo(g, fc[g[k] := c], done + {k})
  {
    LabelWitnessStep(g, fc, done, k, c);
    LabelComponentStep(g, fc, done, k, c);
  }

  /** Every fid labelled after the step owns an edge seen so far. */
  lemma LabelWitnessStep(g: Graph, fc: map<Fid, Label>, done: set<EdgeKey>, k: EdgeKey, c: Label)
    requires k in g && done <= g.Keys
    requires forall f :: f in fc ==> exists k :: k in done && g[k] == f
    ensures forall f :: f in fc || f == g[k] ==> exists k' :: (k' in done || k' == k) && g[k'] == f
  {
  }

  /** Every edge seen after the step is labelled with its own component. */
  lemma LabelComponentStep(g: Graph, fc: map<Fid, Label>, done: set<EdgeKey>, k: EdgeKey, c: Label)
    requires OwnersConnected(g) && k in g && done <= g.Keys
    requires IsComponent(g, k.lo, c)
    requires forall k :: k in done ==> g[k] in fc && IsComponent(g, k.lo, fc[g[k]])
    ensures forall k' :: k' in done + {k} ==> g[k'] in fc[g[k] := c] && IsComponent(g, k'.lo, fc[g[k] := c][g[k']])
  {
    forall k' | k' in done + {k}
      ensures g[k'] in fc[g[k] := c] && IsComponent(g, k'.lo, fc[g[k] := c][g[k']])
    {
      if k' != k && g[k'] == g[k] {
        assert Reachable(g, k'.lo, k.lo);
        ComponentsPartition(g, k'.lo, k.lo, fc[g[k']], c);
      }
    }
  }

  /** Once every edge is seen the labelling covers exactly the owners. */
  lemma LabelledAll(g: Graph, fc: map<Fid, Label>, done: set<EdgeKey>)
    requires LabelledUpTo(g, fc, done) && done == g.Keys
    ensures fc.Keys == Owners(g)
    ensures forall k :: k in g ==> IsComponent(g, k.lo, fc[g[k]])
  {
    forall f | f in fc
      ensures f in Owners(g)
    {
      var k :| k in done && g[k] == f;
      OwnerOf(g, k);
    }
    forall k | k in g
      ensures g[k] in fc
    {
    }
  }

  /** `countMap`: over the values of `fid_comp`, taken in any order, the
      number of fids per component. */
  method CountComponents<L(==)>(fc: map<Fid, L>) returns (cm: map<L, nat>)
    ensures forall f :: f in fc ==> fc[f] in cm
    ensures forall c :: c in cm ==> exists f :: f in fc && fc[f] == c
    ensures forall c :: c in cm ==> cm[c] == |FidsIn(fc, c)|
  {
    cm := map[];
    var done: set<Fid> := {};
    var rest := fc.Keys;
    while rest != {}
      invariant done + rest == fc.Keys && done !! rest
      invariant CountedUpTo(fc, cm, done)
      decreases rest
    {
      var f := PickOne(rest);
      var c := fc[f];
      CountStep(fc, cm, done, f);
      cm := cm[c := (if c in cm then cm[c] else 0) + 1];
      done := done + {f};
      rest := rest - {f};
    }
    CountedAll(fc, cm, done);
  }

  /** The loop invariant of `countMap`: it counts, per label, the fids seen so far. */
  ghost predicate CountedUpTo<L>(fc: map<Fid, L>, cm: map<L, nat>, done: set<Fid>)
  {
    && done <= fc.Keys
    && (forall c :: c in cm ==> exists f :: f in done && fc[f] == c)
    && (forall f :: f in done ==> fc[f] in cm)
    && (forall c :: c in cm ==> cm[c] == |FidsAmong(fc, done, c)|)
  }

  /** One `countMap[v] = countMap.get(v, 0) + 1` keeps the invariant. */
  lemma CountStep<L>(fc: map<Fid, L>, cm: map<L, nat>, done: set<Fid>, f: Fid)
    requires CountedUpTo(fc, cm, done) && f in fc && f !in done
    ensures CountedUpTo(fc, cm[fc[f] := (if fc[f] in cm then cm[fc[f]] else 0) + 1], done + {f})
  {
    var c := fc[f];
    forall c' | c' in cm || c' == c
      ensures (c' == c ==> FidsAmong(fc, done + {f}, c') == FidsAmong(fc, done, c') + {f})
      ensures (c' != c ==> FidsAmong(fc, done + {f}, c') == FidsAmong(fc, done, c'))
    {
      FidsAmongAdd(fc, done, f, c');
    }
    if c !in cm {
      assert FidsAmong(fc, done, c) == {} by {
        forall x | x in done
          ensures fc[x] != c
        {
          assert fc[x] in cm;
        }
      }
    }
  }

  /** Once every fid is seen, `countMap` counts every label completely. */
  lemma CountedAll<L>(fc: map<Fid, L>, cm: map<L, nat>, done: set<Fid>)
    requires CountedUpTo(fc, cm, done) && done == fc.Keys
    ensures forall f :: f in fc ==> fc[f] in cm
    ensures forall c :: c in cm ==> exists f :: f in fc && fc[f] == c
    ensures forall c :: c in cm ==> cm[c] == |FidsIn(fc, c)|
  {
    forall c | c in cm
      ensures cm[c] == |FidsIn(fc, c)|
    {
      assert FidsAmong(fc, done, c) == FidsIn(fc, c);
    }
  }

  /** A fid alone in its component: it carries an edge, and none of its
      edges reaches an edge carrying another fid. */
  ghost predicate IsIsolated(g: Graph, f: Fid)
  {
    && f in Owners(g)
    && forall k1, k2 :: k1 in g && k2 in g && g[k1] == f && g[k2] != f ==> !Reachable(g, k1.lo, k2.lo)
  }

  /** A labelling of the fids of `g` under which two fids share a label
      exactly when their edges are connected. */
  ghost predicate LabelsComponents<L>(g: Graph, fc: map<Fid, L>)
  {
    && fc.Keys == Owners(g)
    && forall k1, k2 :: k1 in g && k2 in g ==> (fc[g[k1]] == fc[g[k2]] <==> Reachable(g, k1.lo, k2.lo))
  }

  /** Labelling each fid by the component of its edges is such a labelling. */
  lemma ComponentLabels(g: Graph, fc: map<Fid, Label>)
    requires fc.Keys == Owners(g)
    requires forall k :: k in g ==> IsComponent(g, k.lo, fc[g[k]])
    ensures LabelsComponents(g, fc)
  {
    forall k1, k2 | k1 in g && k2 in g
      ensures fc[g[k1]] == fc[g[k2]] <==> Reachable(g, k1.lo, k2.lo)
    {
      ComponentsPartition(g, k1.lo, k2.lo, fc[g[k1]], fc[g[k2]]);
    }
  }

  lemma OwnerOf(g: Graph, k: EdgeKey)
    requires k in g
    ensures g[k] in Owners(g)
  {
  }

  lemma SingletonIsIsolated<L>(g: Graph, fc: map<Fid, L>, f: Fid)
    requires LabelsComponents(g, fc) && f in fc
    requires FidsIn(fc, fc[f]) == {f}
    ensures IsIsolated(g, f)
  {
    forall k1, k2 | k1 in g && k2 in g && g[k1] == f && g[k2] != f
      ensures !Reachable(g, k1.lo, k2.lo)
    {
      SingletonUnreached(g, fc, f, k1, k2);
    }
  }

  lemma SingletonUnreached<L>(g: Graph, fc: map<Fid, L>, f: Fid, k1: EdgeKey, k2: EdgeKey)
    requires LabelsComponents(g, fc) && f in fc
    requires FidsIn(fc, fc[f]) == {f}
    requires k1 in g && k2 in g && g[k1] == f && g[k2] != f
    ensures !Reachable(g, k1.lo, k2.lo)
  {
    OwnerOf(g, k2);
    assert g[k2] !in FidsIn(fc, fc[f]);
  }

  lemma IsolatedIsSingleton<L>(g: Graph, fc: map<Fid, L>, f: Fid)
    requires LabelsComponents(g, fc) && IsIsolated(g, f)
    ensures f in fc && FidsIn(fc, fc[f]) == {f}
  {
  }

  lemma CardinalityOne(s: set<Fid>, f: Fid)
    requires f in s
    ensures |s| == 1 <==> s == {f}
  {
    assert s == (s - {f}) + {f};
    assert |s - {f}| == |s| - 1;
  }

  /** A component count of one is the same as being isolated. */
  lemma CountOneIffIsolated<L>(g: Graph, fc: map<Fid, L>, cm: map<L, nat>, f: Fid)
    requires LabelsComponents(g, fc)
    requires forall h :: h in fc ==> fc[h] in cm
    requires forall c :: c in cm ==> cm[c] == |FidsIn(fc, c)|
    requires f in fc
    ensures cm[fc[f]] == 1 <==> IsIsolated(g, f)
  {
    assert f in FidsIn(fc, fc[f]);
    CardinalityOne(FidsIn(fc, fc[f]), f);
    if cm[fc[f]] == 1 {
      SingletonIsIsolated(g, fc, f);
    }
    if IsIsolated(g, f) {
      IsolatedIsSingleton(g, fc, f);
    }
  }

  /** Lines 142-162: the graph, `fid_comp`, `countMap`, and the fids whose
      component count is 1. */
  method IsolatedFids(layer: Layer) returns (isolated: set<Fid>)
    ensures forall f :: f in isolated <==> IsIsolated(LayerGraph(layer), f)
  {
    var g := LayerGraph(layer);
    LayerOwnersConnected(layer);
    var fc := FidComponents(g);
    ComponentLabels(g, fc);
    var cm := CountComponents(fc);
    isolated := set f | f in fc && cm[fc[f]] == 1;
    forall f
      ensures f in isolated <==> IsIsolated(g, f)
    {
      if f in fc {
        CountOneIffIsolated(g, fc, cm, f);
      }
    }
  }

  /** Lines 142-166 with the code as a parameter: `islands` writes 1 and
      `dangles` writes 5. Exactly the isolated fids get the code. */
  method FlagIsolated(layer: Layer, t: ErrorTable, code: int) returns (r: ErrorTable)
    ensures r.Keys == t.Keys
    ensures forall f :: f in t ==> r[f] == (if IsIsolated(LayerGraph(layer), f) then code else t[f])
  {
    var isolated := IsolatedFids(layer);
    r := WriteEach(t, isolated, code);
  }

  /** `islands`: code 1 on every isolated fid. */
  method FlagIslands(layer: Layer, t: ErrorTable) returns (r: ErrorTable)
    ensures r.Keys == t.Keys
    ensures forall f :: f in t ==> r[f] == (if IsIsolated(LayerGraph(layer), f) then FLAGGED else t[f])
  {
    r := FlagIsolated(layer, t, FLAGGED);
  }

  /** `dangles` as written: the same classification with code 5. */
  method FlagDangles(layer: Layer, t: ErrorTable) returns (r: ErrorTable)
    ensures r.Keys == t.Keys
    ensures forall f :: f in t ==> r[f] == (if IsIsolated(LayerGraph(layer), f) then DANGLE else t[f])
  {
    r := FlagIsolated(layer, t, DANGLE);
  }

  // ---- Properties of the classification --------------------------------

  /** A feature with fewer than two vertices (or no geometry) adds no edge,
      so it has no component and is never flagged. */
  lemma ShortChainNeverIsolated(layer: Layer, ft: Feature)
    requires ft in layer && |VerticesOf(ft)| < 2
    ensures !IsIsolated(LayerGraph(layer), ft.fid)
  {
    var g := LayerGraph(layer);
    if ft.fid in Owners(g) {
      var k :| k in g && g[k] == ft.fid;
      EdgeOwner(layer, k);
      var ft', i :| && ft' in layer && ft'.fid == g[k] && 0 <= i < |VerticesOf(ft')| - 1
                    && k == Key(VerticesOf(ft')[i], VerticesOf(ft')[i + 1]);
      SameFidSameFeature(layer, ft, ft');
      assert false;
    }
  }

  /** Two features that each carry an edge and share a vertex are joined,
      so neither is flagged. */
  lemma TouchingNeverIsolated(layer: Layer, a: Feature, b: Feature, ia: nat, ib: nat)
    requires a in layer && b in layer && a.fid != b.fid
    requires a.fid in Owners(LayerGraph(layer)) && b.fid in Owners(LayerGraph(layer))
    requires ia < |VerticesOf(a)| && ib < |VerticesOf(b)| && VerticesOf(a)[ia] == VerticesOf(b)[ib]
    ensures !IsIsolated(LayerGraph(layer), a.fid) && !IsIsolated(LayerGraph(layer), b.fid)
  {
    var g := LayerGraph(layer);
    var v := VerticesOf(a)[ia];
    var ka :| ka in g && g[ka] == a.fid;
    var kb :| kb in g && g[kb] == b.fid;
    OwnedEdgeReachesChain(layer, a, ka, ia);
    OwnedEdgeReachesChain(layer, b, kb, ib);
    ReachableSym(g, kb.lo, v);
    ReachableTrans(g, ka.lo, v, kb.lo);
    ReachableSym(g, ka.lo, kb.lo);
  }

  /** The graph is simple: of two identical chains only the later one keeps
      the edges, so it is flagged as an island and the earlier one is not. */
  lemma LaterTwinOwnsTheEdges()
    ensures var line := [Coord(0, 0), Coord(1, 0)];
            var layer := [Feature(1, Some(line), None), Feature(2, Some(line), None)];
            && IsIsolated(LayerGraph(layer), 2)
            && !IsIsolated(LayerGraph(layer), 1)
  {
    TwinGraph();
    OneEdgeIsolated(Key(Coord(0, 0), Coord(1, 0)), 2, 1);
  }

  /** In a graph of one edge, its fid is isolated and no other fid is. */
  lemma OneEdgeIsolated(k: EdgeKey, f: Fid, other: Fid)
    requires other != f
    ensures IsIsolated(map[k := f], f)
    ensures !IsIsolated(map[k := f], other)
  {
    var g: Graph := map[k := f];
    assert g.Keys == {k} && g[k] == f;
    assert f in Owners(g);
    assert other !in Owners(g);
  }

  /** Two identical one-segment chains leave one edge, tagged by the later. */
  lemma TwinGraph()
    ensures var line := [Coord(0, 0), Coord(1, 0)];
            var layer := [Feature(1, Some(line), None), Feature(2, Some(line), None)];
            LayerGraph(layer) == map[Key(Coord(0, 0), Coord(1, 0)) := 2]
  {
    var line := [Coord(0, 0), Coord(1, 0)];
    var layer := [Feature(1, Some(line), None), Feature(2, Some(line), None)];
    var edges := [TaggedEdge(Coord(0, 0), Coord(1, 0), 1), TaggedEdge(Coord(0, 0), Coord(1, 0), 2)];
    assert ChainEdges(1, line) == [edges[0]];
    assert ChainEdges(2, line) == [edges[1]];
    assert layer[1..] == [layer[1]] && layer[1..][1..] == [];
    assert LayerEdges(layer[1..]) == [edges[1]];
    assert LayerEdges(layer) == edges;
  }

  // ---- countMap totals ---------------------------------------------------

  /** The sum of `countMap` over the labels `ls`. */
  function SumOver<L(==)>(cm: map<L, nat>, ls: seq<L>): nat
    requires forall i :: 0 <= i < |ls| ==> ls[i] in cm
  {
    if ls == [] then 0 else SumOver(cm, ls[..|ls| - 1]) + cm[ls[|ls| - 1]]
  }

  /** The fids whose label is one of `ls`. */
  function FidsLabelledIn<L(==)>(fc: map<Fid, L>, ls: seq<L>): set<Fid>
  {
    set f | f in fc && fc[f] in ls
  }

  lemma {:induction false} SumOverCounts<L>(fc: map<Fid, L>, cm: map<L, nat>, ls: seq<L>)
    requires forall i :: 0 <= i < |ls| ==> ls[i] in cm
    requires forall i, j :: 0 <= i < j < |ls| ==> ls[i] != ls[j]
    requires forall c :: c in cm ==> cm[c] == |FidsIn(fc, c)|
    ensures SumOver(cm, ls) == |FidsLabelledIn(fc, ls)|
  {
    if ls != [] {
      var init, c := ls[..|ls| - 1], ls[|ls| - 1];
      assert ls == init + [c];
      SumOverCounts(fc, cm, init);
      assert c !in init;
      assert FidsLabelledIn(fc, ls) == FidsLabelledIn(fc, init) + FidsIn(fc, c);
      assert FidsLabelledIn(fc, init) * FidsIn(fc, c) == {};
    }
  }

  /** `countMap`'s values, summed over its labels in any order, give the
      number of fids in `fid_comp`. */
  lemma CountMapSum<L>(fc: map<Fid, L>, cm: map<L, nat>, ls: seq<L>)
    requires forall f :: f in fc ==> fc[f] in cm
    requires forall c :: c in cm ==> cm[c] == |FidsIn(fc, c)|
    requires forall c :: c in cm <==> c in ls
    requires forall i, j :: 0 <= i < j < |ls| ==> ls[i] != ls[j]
    ensures SumOver(cm, ls) == |fc|
  {
    SumOverCounts(fc, cm, ls);
    forall f | f in fc
      ensures f in FidsLabelledIn(fc, ls)
    {
      assert fc[f] in cm;
    }
    assert FidsLabelledIn(fc, ls) == fc.Keys;
  }

  /** `fid_comp` is determined by the graph: any two enumeration orders
      produce the same map. */
  lemma FidComponentsOrderFree(g: Graph, fc1: map<Fid, Label>, fc2: map<Fid, Label>)
    requires fc1.Keys == Owners(g) && fc2.Keys == Owners(g)
    requires forall k :: k in g ==> IsComponent(g, k.lo, fc1[g[k]])
    requires forall k :: k in g ==> IsComponent(g, k.lo, fc2[g[k]])
    ensures fc1 == fc2
  {
    forall f | f in fc1
      ensures fc1[f] == fc2[f]
    {
      var k :| k in g && g[k] == f;
      ComponentsPartition(g, k.lo, k.lo, fc1[f], fc2[f]);
      ReachableRefl(g, k.lo);
    }
  }
}
