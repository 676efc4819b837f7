/** `duplicates`: flags every feature whose geometry equals the geometry of
    another feature, finding candidates through the spatial index. */
module Duplicates {
  import opened Outcomes
  import opened Geometry
  import opened Layer
  import opened SpatialIndex

  /** The `geoms` dict: ids in insertion order and the line of each. */
  datatype GeomDict = GeomDict(order: seq<Fid>, lines: map<Fid, Polyline>)

  predicate ValidDict(d: GeomDict)
  {
    && Distinct(d.order)
    && (forall i :: 0 <= i < |d.order| ==> d.order[i] in d.lines)
    && (forall f :: f in d.lines ==> f in d.order)
  }

  /** The first loop: every feature with a geometry goes into the dict (and
      the index); a feature without one is set aside. */
  function CollectGeoms(features: seq<Feature>): (d: GeomDict)
    requires UniqueFids(features)
    ensures ValidDict(d)
    ensures forall ft :: ft in features && ft.geometry.Some? ==>
      ft.fid in d.lines && d.lines[ft.fid] == ft.geometry.value
    ensures forall f :: f in d.lines ==> exists ft :: ft in features && ft.fid == f && ft.geometry.Some?
  {
    if features == [] then GeomDict([], map[])
    else
      var d := CollectGeoms(features[1..]);
      var ft := features[0];
      if ft.geometry.None? then d
      else
        HeadFidFresh(features);
        GeomDict([ft.fid] + d.order, d.lines[ft.fid := ft.geometry.value])
  }

  /** With unique fids, no later feature shares the first one's fid. */
  lemma HeadFidFresh(features: seq<Feature>)
    requires UniqueFids(features) && features != []
    ensures UniqueFids(features[1..])
    ensures forall g :: g in features[1..] ==> g.fid != features[0].fid
  {
    forall g | g in features[1..]
      ensures g.fid != features[0].fid
    {
      var k :| 0 <= k < |features[1..]| && features[1..][k] == g;
      assert features[k + 1] == g;
    }
  }

  /** The position of the first occurrence of `x` in `s`. */
  function IndexOf(s: seq<Fid>, x: Fid): (i: nat)
    requires x in s
    ensures i < |s| && s[i] == x && x !in s[..i]
  {
    if s[0] == x then 0
    else
      var i := IndexOf(s[1..], x);
      assert s[..i + 1] == [s[0]] + s[1..][..i];
      i + 1
  }

  /** Python's `list.remove(x)`: drops the first occurrence of `x`, and
      raises (here `None`) when there is none. */
  function RemoveFirst(s: seq<Fid>, x: Fid): (r: Option<seq<Fid>>)
    ensures r.None? <==> x !in s
    ensures r.Some? ==> |r.value| == |s| - 1
    ensures r.Some? ==> forall y :: y != x ==> (y in r.value <==> y in s)
    ensures r.Some? && Distinct(s) ==> x !in r.value
    ensures r.Some? ==>
      exists i :: 0 <= i < |s| && s[i] == x && x !in s[..i] && r.value == s[..i] + s[i + 1..]
  {
    if x !in s then None
    else
      var i := IndexOf(s, x);
      var t := s[..i] + s[i + 1..];
      assert s == s[..i] + [x] + s[i + 1..];
      assert Distinct(s) ==> x !in s[i + 1..] by {
        if Distinct(s) {
          forall k | i + 1 <= k < |s|
            ensures s[k] != x
          {
            assert s[i] == x;
          }
        }
      }
      Some(t)
  }

  /** The inner loop: `fid` is appended once for every candidate whose
      geometry equals `line`. */
  function EqualHits(fid: Fid, line: Polyline, cands: seq<Fid>, lines: map<Fid, Polyline>): (r: seq<Fid>)
    requires forall i :: 0 <= i < |cands| ==> cands[i] in lines
    ensures forall f :: f in r ==> f == fid
    ensures r != [] <==> exists c :: c in cands && GeosEqual(line, lines[c])
  {
    if cands == [] then []
    else
      var rest := EqualHits(fid, line, cands[1..], lines);
      assert forall c :: c in cands <==> c == cands[0] || c in cands[1..];
      if GeosEqual(line, lines[cands[0]]) then [fid] + rest else rest
  }

  /** Another indexed feature has a geometry equal to that of `f`. */
  ghost predicate HasTwin(d: GeomDict, f: Fid)
  {
    f in d.lines && exists g :: g in d.lines && g != f && GeosEqual(d.lines[f], d.lines[g])
  }

  /** Examining one feature: its own id is among its candidates exactly when
      its line has vertices; once that id is removed it is no longer among
      them, so a feature is never compared with itself, and an equal
      candidate remains exactly when the feature has a twin. */
  lemma ExamineOne(d: GeomDict, fid: Fid)
    requires ValidDict(d) && fid in d.lines
    ensures var cands := Candidates(Build(d.order, d.lines), d.lines[fid]);
      && (RemoveFirst(cands, fid).Some? <==> d.lines[fid] != [])
      && (RemoveFirst(cands, fid).Some? ==> fid !in RemoveFirst(cands, fid).value)
      && (RemoveFirst(cands, fid).Some? ==>
            forall i :: 0 <= i < |RemoveFirst(cands, fid).value| ==> RemoveFirst(cands, fid).value[i] in d.lines)
      && (RemoveFirst(cands, fid).Some? ==>
            (EqualHits(fid, d.lines[fid], RemoveFirst(cands, fid).value, d.lines) != [] <==> HasTwin(d, fid)))
  {
    OwnIdFound(d, fid);
    if d.lines[fid] != [] {
      TwinFound(d, fid);
    }
  }

  /** A feature's own id is among its candidates exactly when its chain has
      vertices; the candidates are indexed ids, each listed once. */
  lemma OwnIdFound(d: GeomDict, fid: Fid)
    requires ValidDict(d) && fid in d.lines
    ensures var cands := Candidates(Build(d.order, d.lines), d.lines[fid]);
      && (fid in cands <==> d.lines[fid] != [])
      && Distinct(cands)
      && (forall c :: c in cands ==> c in d.lines)
  {
    var line := d.lines[fid];
    if line != [] {
      GeosEqualIsEquivalence(line, line, line);
      CandidatesFindEqual(d.order, d.lines, fid, fid);
    }
  }

  /** Once the own id is removed, an equal candidate remains exactly when
      another feature has an equal geometry. */
  lemma TwinFound(d: GeomDict, fid: Fid)
    requires ValidDict(d) && fid in d.lines && d.lines[fid] != []
    ensures var r := RemoveFirst(Candidates(Build(d.order, d.lines), d.lines[fid]), fid);
      && r.Some?
      && (forall i :: 0 <= i < |r.value| ==> r.value[i] in d.lines)
      && (EqualHits(fid, d.lines[fid], r.value, d.lines) != [] <==> HasTwin(d, fid))
  {
    OwnIdFound(d, fid);
    var line := d.lines[fid];
    var cands := Candidates(Build(d.order, d.lines), line);
    var others := RemoveFirst(cands, fid).value;
    assert forall i :: 0 <= i < |others| ==> others[i] in d.lines by {
      forall i | 0 <= i < |others|
        ensures others[i] in d.lines
      {
        assert others[i] in others;
      }
    }
    if HasTwin(d, fid) {
      var g :| g in d.lines && g != fid && GeosEqual(line, d.lines[g]);
      CandidatesFindEqual(d.order, d.lines, fid, g);
      assert g in others;
    }
  }

  /** What `list.remove` raises when the value is absent. */
  const RemoveMissing: PyError := ValueError("list.remove(x): x not in list")

  /** Lines 124-129 for one feature: query the index with its bounding box,
      remove its own id from the candidates, and append it once per equal
      candidate. */
  function Examine(d: GeomDict, fid: Fid): (r: Result<seq<Fid>>)
    requires ValidDict(d) && fid in d.lines
    ensures r.Raised? <==> d.lines[fid] == []
    ensures r.Raised? ==> r.error == RemoveMissing
    ensures r.Ok? ==> forall f :: f in r.value ==> f == fid
    ensures r.Ok? ==> (r.value != [] <==> HasTwin(d, fid))
  {
    var line := d.lines[fid];
    var cands := Candidates(Build(d.order, d.lines), line);
    ExamineOne(d, fid);
    match RemoveFirst(cands, fid)
    case None => Raised(RemoveMissing)
    case Some(others) => Ok(EqualHits(fid, line, others, d.lines))
  }

  /** Lines 120-129 over the ids in `todo`: the ids appended to `dup_features`,
      or the ValueError `candidates.remove` raises. */
  function Scan(d: GeomDict, unique: map<Fid, Polyline>, todo: seq<Fid>): (r: Result<seq<Fid>>)
    requires ValidDict(d)
    requires forall i :: 0 <= i < |todo| ==> todo[i] in d.lines
    ensures r.Raised? <==> exists f :: f in todo && f in unique && d.lines[f] == []
    ensures r.Raised? ==> r.error == RemoveMissing
    ensures r.Ok? ==> forall f :: f in r.value <==> f in todo && f in unique && HasTwin(d, f)
  {
    if todo == [] then Ok([])
    else
      var fid := todo[0];
      assert forall f :: f in todo <==> f == fid || f in todo[1..];
      var rest := Scan(d, unique, todo[1..]);
      if fid !in unique then rest
      else
        match Examine(d, fid)
        case Raised(e) => Raised(e)
        case Ok(hits) =>
          match rest
          case Raised(e) => Raised(e)
          case Ok(more) =>
            assert forall f :: f in hits <==> f == fid && HasTwin(d, fid) by {
              if hits != [] {
                assert hits[0] in hits;
              }
            }
            assert forall f :: f in hits + more <==> f in hits || f in more;
            Ok(hits + more)
  }

  /** Feature `f` has a geometry, and some other feature has an equal one. */
  ghost predicate IsDuplicate(layer: seq<Feature>, f: Fid)
  {
    exists a, b :: && a in layer && b in layer && a.fid == f && b.fid != f
                   && a.geometry.Some? && b.geometry.Some?
                   && GeosEqual(a.geometry.value, b.geometry.value)
  }

  /** `duplicates`: code 1 on every feature that has a twin, or the ValueError
      raised when a present geometry has no vertices (and so no bounding box
      to find itself with). */
  function Duplicates(layer: Layer, t: ErrorTable): (r: Result<ErrorTable>)
    ensures r.Raised? <==> exists ft :: ft in layer && ft.geometry == Some([])
    ensures r.Raised? ==> r.error == RemoveMissing
    ensures r.Ok? ==> r.value.Keys == t.Keys
    ensures r.Ok? ==> forall f :: f in t ==> r.value[f] == (if IsDuplicate(layer, f) then FLAGGED else t[f])
  {
    var d := CollectGeoms(layer);
    // `unique_features` is a copy of the dict that nothing removes from.
    var unique := d.lines;
    var r := Scan(d, unique, d.order);
    assert r.Raised? <==> exists ft :: ft in layer && ft.geometry == Some([]) by {
      if r.Raised? {
        var f :| f in d.order && f in unique && d.lines[f] == [];
        var ft :| ft in layer && ft.fid == f && ft.geometry.Some?;
      } else {
        forall ft | ft in layer && ft.geometry.Some?
          ensures ft.geometry.value != []
        {
          assert ft.fid in d.order;
        }
      }
    }
    match r
    case Raised(e) => Raised(e)
    case Ok(dups) =>
      assert forall f :: f in dups <==> IsDuplicate(layer, f) by {
        forall f
          ensures f in dups <==> IsDuplicate(layer, f)
        {
          if IsDuplicate(layer, f) {
            var a, b :| && a in layer && b in layer && a.fid == f && b.fid != f
                        && a.geometry.Some? && b.geometry.Some?
                        && GeosEqual(a.geometry.value, b.geometry.value);
            assert b.fid in d.lines;
            assert HasTwin(d, f);
          }
          if f in dups {
            var a :| a in layer && a.fid == f && a.geometry.Some?;
            var g :| g in d.lines && g != f && GeosEqual(d.lines[f], d.lines[g]);
            var b :| b in layer && b.fid == g && b.geometry.Some?;
            assert IsDuplicate(layer, f);
          }
        }
      }
      Ok(WriteAll(t, dups, FLAGGED))
  }

  /** Flagging is symmetric: two features with equal geometries flag each other. */
  lemma DuplicateSymmetric(layer: Layer, a: Feature, b: Feature)
    requires a in layer && b in layer && a.fid != b.fid
    requires a.geometry.Some? && b.geometry.Some?
    requires GeosEqual(a.geometry.value, b.geometry.value)
    ensures IsDuplicate(layer, a.fid) && IsDuplicate(layer, b.fid)
  {
  }

  /** A feature without geometry is skipped: it is never a duplicate. */
  lemma NullGeometryNeverDuplicate(layer: Layer, ft: Feature)
    requires ft in layer && ft.geometry.None?
    ensures !IsDuplicate(layer, ft.fid)
  {
  }

  /** The code of a feature without geometry is left as it was. */
  lemma DuplicatesSkipNullGeometry(layer: Layer, t: ErrorTable, ft: Feature)
    requires ft in layer && ft.geometry.None? && ft.fid in t
    requires Duplicates(layer, t).Ok?
    ensures Duplicates(layer, t).value[ft.fid] == t[ft.fid]
  {
    NullGeometryNeverDuplicate(layer, ft);
  }

  /** Running the detector a second time changes nothing more. */
  lemma DuplicatesIdempotent(layer: Layer, t: ErrorTable)
    requires Duplicates(layer, t).Ok?
    ensures Duplicates(layer, Duplicates(layer, t).value) == Duplicates(layer, t)
  {
    var once := Duplicates(layer, t).value;
    var twice := Duplicates(layer, once);
    assert twice.Ok?;
    assert twice.value == once;
  }
}
