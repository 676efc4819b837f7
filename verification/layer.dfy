/** The host layer, reduced to what the flagging script reads and writes:
    features in enumeration order, each with an id, an optional line geometry
    and its stored `length` attribute, plus the integer `error` attribute kept
    as a table from feature id to code. */
module Layer {
  import opened Outcomes
  import opened Geometry

  type Fid = int

  /** `length` is the stored attribute the `length = 0` expression reads;
      `None` is a NULL attribute value. */
  datatype Feature = Feature(fid: Fid, geometry: Option<Polyline>, length: Option<real>)

  /** No id occurs twice in `s`. */
  predicate Distinct(s: seq<Fid>)
  {
    forall i, j :: 0 <= i < j < |s| ==> s[i] != s[j]
  }

  /** The ids `id` gives the elements of `s`, in order. */
  function IdsOf<T>(s: seq<T>, id: T -> Fid): (r: seq<Fid>)
    ensures |r| == |s| && forall i :: 0 <= i < |r| ==> r[i] == id(s[i])
  {
    if s == [] then [] else [id(s[0])] + IdsOf(s[1..], id)
  }

  predicate UniqueFids(features: seq<Feature>)
  {
    Distinct(IdsOf(features, (ft: Feature) => ft.fid))
  }

  /** A vector layer: feature ids are unique within it. */
  type Layer = features: seq<Feature> | UniqueFids(features) witness []

  /** The `error` attribute of every feature, by feature id. */
  type ErrorTable = map<Fid, int>

  const CLEAN: int := 0
  /** The code every active detector writes. */
  const FLAGGED: int := 1
  /** The code the (disabled) dangles pass writes. */
  const DANGLE: int := 5

  /** In a layer a feature id names one feature. */
  lemma SameFidSameFeature(features: seq<Feature>, a: Feature, b: Feature)
    requires UniqueFids(features) && a in features && b in features && a.fid == b.fid
    ensures a == b
  {
  }

  function Fids(layer: Layer): set<Fid>
  {
    set ft | ft in layer :: ft.fid
  }

  /** `error_field`: adds the attribute and sets it to 0 on every feature. */
  function ErrorField(layer: Layer): (t: ErrorTable)
    ensures t.Keys == Fids(layer)
    ensures forall f :: f in t ==> t[f] == CLEAN
  {
    if layer == [] then map[]
    else ErrorField(layer[1..])[layer[0].fid := CLEAN]
  }

  /** `changeAttributeValue(fid, error_idx, code)`; an id the layer does not
      hold is left alone. */
  function SetError(t: ErrorTable, fid: Fid, code: int): (r: ErrorTable)
    ensures r.Keys == t.Keys
    ensures forall f :: f in t ==> r[f] == (if f == fid then code else t[f])
  {
    if fid in t then t[fid := code] else t
  }

  /** One `changeAttributeValue` per listed id, in order. The list may repeat
      an id; the same code is written each time. */
  function WriteAll(t: ErrorTable, fids: seq<Fid>, code: int): (r: ErrorTable)
    ensures r.Keys == t.Keys
    ensures forall f :: f in t ==> r[f] == (if f in fids then code else t[f])
  {
    if fids == [] then t
    else WriteAll(SetError(t, fids[0], code), fids[1..], code)
  }

  /** Writing the same ids twice is the same as writing them once. */
  lemma WriteAllIdempotent(t: ErrorTable, fids: seq<Fid>, code: int)
    ensures WriteAll(WriteAll(t, fids, code), fids, code) == WriteAll(t, fids, code)
  {
  }

  predicate HasNoLength(ft: Feature)
  {
    ft.length == Some(0.0)
  }

  /** The ids the `length = 0` request returns, in layer order. */
  function NoLengthSelection(layer: seq<Feature>): (r: seq<Fid>)
    ensures forall f :: f in r <==> exists ft :: ft in layer && ft.fid == f && HasNoLength(ft)
  {
    if layer == [] then []
    else (if HasNoLength(layer[0]) then [layer[0].fid] else []) + NoLengthSelection(layer[1..])
  }

  /** `no_length`: code 1 on every feature whose length attribute is 0. */
  function NoLength(layer: Layer, t: ErrorTable): (r: ErrorTable)
    ensures r.Keys == t.Keys
    ensures forall f :: f in t ==>
      r[f] == (if exists ft :: ft in layer && ft.fid == f && HasNoLength(ft) then FLAGGED else t[f])
  {
    WriteAll(t, NoLengthSelection(layer), FLAGGED)
  }

  /** Some element of a non-empty set: the iteration order of a Python dict
      or set is not modelled, so loops take their elements in any order. */
  method PickOne<T>(s: set<T>) returns (x: T)
    requires s != {}
    ensures x in s
  {
    x :| x in s;
  }

  /** One `changeAttributeValue` per fid of a set, in any order. */
  method WriteEach(t: ErrorTable, fids: set<Fid>, code: int) returns (r: ErrorTable)
    ensures r.Keys == t.Keys
    ensures forall f :: f in t ==> r[f] == (if f in fids then code else t[f])
  {
    r := t;
    var rest := fids;
    while rest != {}
      invariant rest <= fids
      invariant r.Keys == t.Keys
      invariant forall f :: f in t ==> r[f] == (if f in fids && f !in rest then code else t[f])
      decreases rest
    {
      var f := PickOne(rest);
      r := SetError(r, f, code);
      rest := rest - {f};
    }
  }
}
