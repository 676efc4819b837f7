/** The script's run: after the `error` field is added and zeroed, the active
    detectors run in order (`invalid_geom`, `no_length`, `duplicates`,
    `islands`; `dangles` is commented out). An exception in one detector ends
    the run. */
module Pipeline {
  import opened Outcomes
  import opened Geometry
  import opened Layer
  import opened Graph
  import opened Duplicates
  import opened Islands

  /** `invalid_geom` as written. The first feature without geometry hits
      `null_features`, a name this function never defines. Otherwise
      `invalid_ft` is the copy of `geoms` taken while it was still empty, so
      every feature is skipped and nothing is written. */
  method InvalidGeom(layer: Layer, t: ErrorTable) returns (r: Result<ErrorTable>)
    ensures r.Raised? <==> exists ft :: ft in layer && ft.geometry.None?
    ensures r.Raised? ==> r.error == NameError("null_features")
    ensures r.Ok? ==> r.value == t
  {
    var geoms: map<Fid, Polyline> := map[];
    var invalid: set<Fid> := geoms.Keys;
    var i := 0;
    while i < |layer|
      invariant 0 <= i <= |layer|
      invariant forall j :: 0 <= j < i ==> layer[j].geometry.Some?
    {
      if layer[i].geometry.None? {
        return Raised(NameError("null_features"));
      }
      geoms := geoms[layer[i].fid := layer[i].geometry.value];
      i := i + 1;
    }
    assert forall ft :: ft in layer ==> ft.geometry.Some? by {
      forall ft | ft in layer
        ensures ft.geometry.Some?
      {
        var j :| 0 <= j < |layer| && layer[j] == ft;
      }
    }
    var todo := geoms.Keys;
    while todo != {}
      invariant invalid == {}
      decreases todo
    {
      var fid := PickOne(todo);
      if fid in invalid {
        // The validity test would name `candidate_id`, which is never bound.
        return Raised(NameError("candidate_id"));
      }
      todo := todo - {fid};
    }
    var table := WriteEach(t, invalid, FLAGGED);
    assert forall f :: f in t ==> table[f] == t[f];
    assert table == t;
    return Ok(table);
  }

  /** The length attribute of the feature with id `f` is 0. */
  ghost predicate ZeroLength(layer: Layer, f: Fid)
  {
    exists ft :: ft in layer && ft.fid == f && HasNoLength(ft)
  }

  /** Some feature has no geometry: `invalid_geom` stops the run. */
  ghost predicate HasNullGeometry(layer: Layer)
  {
    exists ft :: ft in layer && ft.geometry.None?
  }

  /** Some feature has no geometry or a geometry without vertices. */
  ghost predicate HasMissingGeometry(layer: Layer)
  {
    exists ft :: ft in layer && (ft.geometry.None? || ft.geometry == Some([]))
  }

  /** The run of lines 207-218. An exception ends it, and the table keeps
      what the detectors before it wrote: after the `NameError` of
      `invalid_geom` every code is still 0; after the `ValueError` of
      `duplicates` the zero-length codes are in place. A run that completes
      gives a feature code 1 when it has zero length, has a twin or is
      isolated, and 0 otherwise. */
  method RunDetectors(layer: Layer) returns (table: ErrorTable, error: Option<PyError>)
    ensures table.Keys == Fids(layer)
    ensures error.Some? <==> HasMissingGeometry(layer)
    ensures HasNullGeometry(layer) ==>
      && error == Some(NameError("null_features"))
      && forall f :: f in table ==> table[f] == CLEAN
    ensures HasMissingGeometry(layer) && !HasNullGeometry(layer) ==>
      && error == Some(RemoveMissing)
      && forall f :: f in table ==> table[f] == (if ZeroLength(layer, f) then FLAGGED else CLEAN)
    ensures !HasMissingGeometry(layer) ==> forall f :: f in table ==>
      table[f] == (if ZeroLength(layer, f) || IsDuplicate(layer, f) || IsIsolated(LayerGraph(layer), f)
                   then FLAGGED else CLEAN)
  {
    table := ErrorField(layer);
    var checked := InvalidGeom(layer, table);
    if checked.Raised? {
      return table, Some(checked.error);
    }
    table := NoLength(layer, checked.value);
    var deduped := Duplicates.Duplicates(layer, table);
    if deduped.Raised? {
      return table, Some(deduped.error);
    }
    table := FlagIslands(layer, deduped.value);
    error := None;
  }
}
