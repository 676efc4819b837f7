/** The `QgsSpatialIndex` the duplicate detector builds: one bounding box per
    indexed feature, queried with a rectangle for the ids whose boxes
    intersect it. */
module SpatialIndex {
  import opened Outcomes
  import opened Geometry
  import opened Layer

  datatype Entry = Entry(fid: Fid, box: Box)

  type Index = seq<Entry>

  /** The indexed ids, in index order. */
  function IndexIds(ix: Index): seq<Fid>
  {
    IdsOf(ix, (e: Entry) => e.fid)
  }

  /** No id is indexed twice. */
  predicate UniqueEntries(ix: Index)
  {
    Distinct(IndexIds(ix))
  }

  /** Prepending an entry whose id is not yet indexed keeps ids unique. */
  lemma ConsUnique(e: Entry, rest: Index)
    requires UniqueEntries(rest) && forall x :: x in rest ==> x.fid != e.fid
    ensures UniqueEntries([e] + rest)
  {
    var ids, tail := IndexIds([e] + rest), IndexIds(rest);
    forall i, j | 0 <= i < j < |ids|
      ensures ids[i] != ids[j]
    {
      assert ([e] + rest)[j] == rest[j - 1];
      if i == 0 {
        assert rest[j - 1] in rest;
      } else {
        assert ([e] + rest)[i] == rest[i - 1];
        assert ids[i] == tail[i - 1] && ids[j] == tail[j - 1];
      }
    }
  }

  /** `index.addFeature(f)` for the listed ids in order. A chain without
      vertices has no bounding box and is not indexed. */
  function Build(order: seq<Fid>, lines: map<Fid, Polyline>): (ix: Index)
    requires forall i :: 0 <= i < |order| ==> order[i] in lines
    ensures forall e :: e in ix <==> e.fid in order && BoundingBox(lines[e.fid]) == Some(e.box)
    ensures Distinct(order) ==> UniqueEntries(ix)
  {
    if order == [] then []
    else
      var rest := Build(order[1..], lines);
      var box := BoundingBox(lines[order[0]]);
      if box.None? then rest
      else
        assert Distinct(order) ==> UniqueEntries([Entry(order[0], box.value)] + rest) by {
          if Distinct(order) {
            forall x | x in rest
              ensures x.fid != order[0]
            {
              var k :| 0 <= k < |order[1..]| && order[1..][k] == x.fid;
              assert order[k + 1] == x.fid;
            }
            ConsUnique(Entry(order[0], box.value), rest);
          }
        }
        [Entry(order[0], box.value)] + rest
  }

  /** `index.intersects(rect)`: the indexed ids whose boxes meet `q`, in index order. */
  function Intersects(ix: Index, q: Box): (r: seq<Fid>)
    ensures forall f :: f in r <==> exists e :: e in ix && e.fid == f && Overlaps(e.box, q)
    ensures UniqueEntries(ix) ==> Distinct(r)
  {
    if ix == [] then []
    else
      var rest := Intersects(ix[1..], q);
      assert forall e :: e in ix[1..] ==> e in ix;
      if Overlaps(ix[0].box, q) then
        assert UniqueEntries(ix) ==> ix[0].fid !in rest by {
          if UniqueEntries(ix) {
            forall e | e in ix[1..]
              ensures e.fid != ix[0].fid
            {
              var k :| 0 <= k < |ix[1..]| && ix[1..][k] == e;
              assert ix[k + 1] == e;
            }
          }
        }
        [ix[0].fid] + rest
      else rest
  }

  /** `index.intersects(geometry.boundingBox())`; a chain with no box finds nothing. */
  function Candidates(ix: Index, line: Polyline): (r: seq<Fid>)
    ensures line == [] ==> r == []
    ensures line != [] ==> forall f :: f in r <==> exists e :: e in ix && e.fid == f && Overlaps(e.box, BoundingBox(line).value)
  {
    match BoundingBox(line)
    case None => []
    case Some(b) => Intersects(ix, b)
  }

  /** The index query misses no indexed feature whose geometry equals the
      queried one; in particular an indexed feature finds itself. */
  lemma CandidatesFindEqual(order: seq<Fid>, lines: map<Fid, Polyline>, f: Fid, g: Fid)
    requires forall i :: 0 <= i < |order| ==> order[i] in lines
    requires f in lines && g in order
    requires lines[f] != [] && GeosEqual(lines[f], lines[g])
    ensures g in Candidates(Build(order, lines), lines[f])
  {
    GeosEqualSameBox(lines[f], lines[g]);
    BoundingBoxSelfOverlaps(lines[f]);
    var e := Entry(g, BoundingBox(lines[g]).value);
    assert e in Build(order, lines);
  }
}
