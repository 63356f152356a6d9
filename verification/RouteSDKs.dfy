/** Deep copy of `Route_SDK`, down to slices of maps of pointers to structs of pointers. */
module RouteSDKs {
  import opened GoValues
  import opened GoHeap

  // ----- ParameterConstraints

  datatype ConstraintsValue = ConstraintsValue(required: Option<bool>)

  class ParameterConstraints {
    var required: Cell?<bool>

    constructor ()
      ensures required == null
    {
      required := null;
    }

    method DeepCopyInto(out: ParameterConstraints)
      modifies out
      ensures CellVal(out.required) == Copied(this == out, old(CellVal(required)), false)
      ensures fresh(CellObjs(out.required))
    {
      out.required := required;
      if required != null {
        out.required := new Cell(false);
        out.required.v := required.v;
      }
    }
  }

  ghost function ConstraintsObjs(p: ParameterConstraints?): set<object>
    reads p
  {
    if p == null then {} else {p} + CellObjs(p.required)
  }

  ghost function ConstraintsVal(p: ParameterConstraints?): Option<ConstraintsValue>
    reads p, ConstraintsObjs(p)
  {
    if p == null then None else Some(ConstraintsValue(CellVal(p.required)))
  }

  /** Two pointers are both nil, or point to equal structs. */
  ghost predicate SameConstraints(p: ParameterConstraints?, q: ParameterConstraints?)
    reads p, q, ConstraintsObjs(p), ConstraintsObjs(q)
  {
    (p == null <==> q == null) && (p != null ==> CellVal(p.required) == CellVal(q.required))
  }

  method CopyConstraints(p: ParameterConstraints?) returns (q: ParameterConstraints?)
    ensures SameConstraints(p, q) && fresh(ConstraintsObjs(q))
  {
    q := null;
    if p != null {
      q := new ParameterConstraints();
      p.DeepCopyInto(q);
    }
  }

  // ----- Maps of them

  type ConstraintMap = GoMap?<ParameterConstraints?>

  ghost predicate MapIn(p: ConstraintMap, s: set<object>)
    reads s
  {
    p != null ==> p in s && forall k :: k in p.m && p.m[k] != null ==> p.m[k] in s && ConstraintsObjs(p.m[k]) <= s
  }

  ghost function MapVal(p: ConstraintMap, s: set<object>): Option<map<Str, Option<ConstraintsValue>>>
    requires MapIn(p, s)
    reads s
  {
    if p == null then None else Some(map k | k in p.m :: ConstraintsVal(p.m[k]))
  }

  /** No two entries share an object. */
  ghost predicate MapUnshared(p: ConstraintMap, s: set<object>)
    requires MapIn(p, s)
    reads s
  {
    p != null ==> forall k, l :: k in p.m && l in p.m && k != l ==> ConstraintsObjs(p.m[k]) !! ConstraintsObjs(p.m[l])
  }

  type ConstraintEntries = map<Str, ParameterConstraints?>

  ghost predicate EntriesOwned(m: ConstraintEntries, t: set<object>)
    reads m.Values
  {
    && (forall k :: k in m ==> ConstraintsObjs(m[k]) <= t)
    && (forall k, l :: k in m && l in m && k != l ==> ConstraintsObjs(m[k]) !! ConstraintsObjs(m[l]))
  }

  /** One turn of the copying loop: entry `key` gets its own copy of `p`. */
  method AddCopy(r: ConstraintEntries, key: Str, p: ParameterConstraints?, ghost t: set<object>)
    returns (r': ConstraintEntries, ghost t': set<object>)
    requires key !in r && EntriesOwned(r, t)
    ensures key in r' && (forall k :: k in r' <==> k in r || k == key) && forall k :: k in r ==> r'[k] == r[k]
    ensures SameConstraints(p, r'[key])
    ensures t <= t' && fresh(t' - t) && EntriesOwned(r', t')
  {
    var outVal := CopyConstraints(p);
    r', t' := r[key := outVal], t + ConstraintsObjs(outVal);
    assert ConstraintsObjs(outVal) !! t;
  }

  method CopyEntries(m: ConstraintEntries) returns (r: ConstraintEntries, ghost t: set<object>)
    ensures r.Keys == m.Keys && forall k :: k in m ==> SameConstraints(m[k], r[k])
    ensures fresh(t) && EntriesOwned(r, t)
  {
    r, t := map[], {};
    var rest := m.Keys;
    while rest != {}
      invariant rest <= m.Keys && forall k :: k in r <==> k in m && k !in rest
      invariant fresh(t) && EntriesOwned(r, t)
      invariant forall k :: k in r ==> SameConstraints(m[k], r[k])
      decreases |rest|
    {
      var key :| key in rest;
      rest := rest - {key};
      r, t := AddCopy(r, key, m[key], t);
    }
  }

  method CopyMap(p: GoMap<ParameterConstraints?>, ghost s: set<object>)
    returns (q: GoMap<ParameterConstraints?>, ghost t: set<object>)
    requires MapIn(p, s)
    ensures fresh(t) && MapIn(q, t) && MapVal(q, t) == old(MapVal(p, s)) && MapUnshared(q, t)
  {
    ghost var v := MapVal(p, s).value;
    var entries, made := CopyEntries(p.m);
    forall k | k in entries ensures ConstraintsVal(entries[k]) == v[k] {
      assert SameConstraints(p.m[k], entries[k]);
    }
    q := new GoMap(entries);
    t := made + {q};
    assert MapVal(q, t).value == v;
  }

  // ----- Slices of such maps

  type Maps = seq<ConstraintMap>

  type MapsValue = seq<Option<map<Str, Option<ConstraintsValue>>>>

  ghost predicate MapsIn(ms: Maps, s: set<object>)
    reads s
  {
    forall i :: 0 <= i < |ms| ==> MapIn(ms[i], s)
  }

  ghost function MapsVal(ms: Maps, s: set<object>): (v: MapsValue)
    requires MapsIn(ms, s)
    reads s
    ensures |v| == |ms| && forall i :: 0 <= i < |ms| ==> v[i] == MapVal(ms[i], s)
  {
    seq(|ms|, i requires 0 <= i < |ms| && MapsIn(ms, s) reads s => MapVal(ms[i], s))
  }

  /** Two maps share no object. */
  ghost predicate Apart(p: ConstraintMap, q: ConstraintMap, s: set<object>)
    requires MapIn(p, s) && MapIn(q, s)
    reads s
  {
    p != null && q != null ==>
      p != q && forall k, l :: k in p.m && l in q.m ==> ConstraintsObjs(p.m[k]) !! ConstraintsObjs(q.m[l])
  }

  ghost predicate MapsUnshared(ms: Maps, s: set<object>)
    requires MapsIn(ms, s)
    reads s
  {
    && (forall i :: 0 <= i < |ms| ==> MapUnshared(ms[i], s))
    && (forall i, j :: 0 <= i < j < |ms| ==> Apart(ms[i], ms[j], s))
  }

  /** A larger set changes nothing, and disjoint sets keep maps apart. */
  lemma InLarger(p: ConstraintMap, s: set<object>, t: set<object>)
    requires MapIn(p, s)
    ensures MapIn(p, s + t) && MapVal(p, s + t) == MapVal(p, s) && MapUnshared(p, s + t) == MapUnshared(p, s)
  {
  }

  lemma DisjointApart(p: ConstraintMap, q: ConstraintMap, s: set<object>, t: set<object>)
    requires MapIn(p, s) && MapIn(q, t) && s !! t
    ensures MapIn(p, s + t) && MapIn(q, s + t) && Apart(p, q, s + t)
  {
  }

  lemma MapsInLarger(ms: Maps, s: set<object>, t: set<object>)
    requires MapsIn(ms, s)
    ensures MapsIn(ms, s + t) && MapsVal(ms, s + t) == MapsVal(ms, s)
    ensures MapsUnshared(ms, s) ==> MapsUnshared(ms, s + t)
  {
    forall i | 0 <= i < |ms|
      ensures MapIn(ms[i], s + t) && MapVal(ms[i], s + t) == MapVal(ms[i], s)
      ensures MapUnshared(ms[i], s + t) == MapUnshared(ms[i], s)
    {
      InLarger(ms[i], s, t);
    }
    assert MapsVal(ms, s + t) == MapsVal(ms, s);
  }

  lemma MapsAppend(ms: Maps, s: set<object>, q: ConstraintMap, t: set<object>)
    requires MapsIn(ms, s) && MapsUnshared(ms, s) && MapIn(q, t) && MapUnshared(q, t) && s !! t
    ensures MapsIn(ms + [q], s + t) && MapsUnshared(ms + [q], s + t)
    ensures MapsVal(ms + [q], s + t) == MapsVal(ms, s) + [MapVal(q, t)]
  {
    MapsInLarger(ms, s, t);
    InLarger(q, t, s);
    assert t + s == s + t;
    forall i | 0 <= i < |ms| ensures MapIn(ms[i], s + t) && Apart(ms[i], q, s + t) {
      DisjointApart(ms[i], q, s, t);
    }
  }

  method CopyMaps(ms: Maps, ghost s: set<object>) returns (r: Maps, ghost t: set<object>)
    requires MapsIn(ms, s)
    ensures fresh(t) && MapsIn(r, t) && MapsVal(r, t) == old(MapsVal(ms, s)) && MapsUnshared(r, t)
  {
    ghost var v := MapsVal(ms, s);
    r, t := [], {};
    for i := 0 to |ms|
      invariant |r| == i && fresh(t) && MapsIn(r, t) && MapsUnshared(r, t)
      invariant MapsVal(r, t) == v[..i]
    {
      var q: ConstraintMap := null;
      ghost var made: set<object> := {};
      if ms[i] != null {
        q, made := CopyMap(ms[i], s);
      }
      MapsAppend(r, t, q, made);
      r, t := r + [q], t + made;
    }
  }

  type MapSlice = array?<ConstraintMap>

  ghost predicate MapSliceIn(a: MapSlice, s: set<object>)
    reads s
  {
    a != null ==> a in s && MapsIn(a[..], s)
  }

  ghost function MapSliceVal(a: MapSlice, s: set<object>): Option<MapsValue>
    requires MapSliceIn(a, s)
    reads s
  {
    if a == null then None else Some(MapsVal(a[..], s))
  }

  ghost predicate MapSliceUnshared(a: MapSlice, s: set<object>)
    requires MapSliceIn(a, s)
    reads s
  {
    a != null ==> MapsUnshared(a[..], s)
  }

  /** Fills the newly made slice `dst` from `src`, which may be `dst` itself. */
  method FillMapSlice(src: array<ConstraintMap>, dst: array<ConstraintMap>, ghost s: set<object>)
    returns (ghost t: set<object>)
    requires src.Length == dst.Length && MapSliceIn(src, s)
    modifies dst
    ensures fresh(t - {dst}) && MapSliceIn(dst, t)
    ensures MapSliceVal(dst, t) == old(MapSliceVal(src, s)) && MapSliceUnshared(dst, t)
  {
    var elements, made := CopyMaps(src[..], s);
    StoreElements(dst, elements);
    t := made + {dst};
    MapsInLarger(elements, made, {dst});
  }

  // ----- Route_SDK
  //
  // Three runs of plain pointers, each in field order, and three collections.

  datatype Flags = Flags(apiGatewayManaged: Cell?<bool>, apiKeyRequired: Cell?<bool>) {
    function Pointers(): seq<Cell?<bool>> {
      [apiGatewayManaged, apiKeyRequired]
    }
  }

  datatype Authorization = Authorization(
    authorizationType: Cell?<Str>,
    authorizerID: Cell?<Str>,
    modelSelectionExpression: Cell?<Str>,
    operationName: Cell?<Str>)
  {
    function Pointers(): seq<Cell?<Str>> {
      [authorizationType, authorizerID, modelSelectionExpression, operationName]
    }
  }

  datatype Identity = Identity(
    routeID: Cell?<Str>,
    routeKey: Cell?<Str>,
    routeResponseSelectionExpression: Cell?<Str>,
    target: Cell?<Str>)
  {
    function Pointers(): seq<Cell?<Str>> {
      [routeID, routeKey, routeResponseSelectionExpression, target]
    }
  }

  /** The value of the struct, field by field, with each run in field order. */
  datatype RouteValue = RouteValue(
    flags: seq<Option<bool>>,
    authorizationScopes: Option<seq<Option<Str>>>,
    authorization: seq<Option<Str>>,
    requestModels: Option<map<Str, Option<Str>>>,
    requestParameters: Option<MapsValue>,
    identity: seq<Option<Str>>)

  /** What `DeepCopyInto` leaves: the source value, or its hollow shape if the struct is copied into itself. */
  function CopiedRoute(self: bool, v: RouteValue): RouteValue {
    RouteValue(
      CopiedPtrs(self, v.flags, false),
      CopiedSlice(self, v.authorizationScopes),
      CopiedPtrs(self, v.authorization, EMPTY),
      CopiedMap(self, v.requestModels),
      CopiedSlice(self, v.requestParameters),
      CopiedPtrs(self, v.identity, EMPTY))
  }

  /** The objects each field is made of. */
  datatype Parts = Parts(
    flags: set<object>,
    scopes: set<object>,
    authorization: set<object>,
    models: set<object>,
    parameters: set<object>,
    identity: set<object>)
  {
    ghost function First(): set<object> {
      flags + scopes + authorization
    }

    ghost function Last(): set<object> {
      models + parameters + identity
    }

    ghost function Objs(): set<object> {
      First() + Last()
    }
  }

  class RouteSDK {
    var flags: Flags
    var authorizationScopes: Slice<Str>
    var authorization: Authorization
    var requestModels: GoMap?<Cell?<Str>>
    var requestParameters: MapSlice
    var identity: Identity

    constructor ()
      ensures flags == Flags(null, null) && authorization == Authorization(null, null, null, null)
      ensures identity == Identity(null, null, null, null)
      ensures authorizationScopes == null && requestModels == null && requestParameters == null
    {
      flags, authorization := Flags(null, null), Authorization(null, null, null, null);
      identity := Identity(null, null, null, null);
      authorizationScopes, requestModels, requestParameters := null, null, null;
    }

    /** The fields up to the operation name lie in the given sets and have the values of `v`. */
    ghost predicate FirstHolds(t1: set<object>, t2: set<object>, t3: set<object>, v: RouteValue)
      reads this`flags, this`authorizationScopes, this`authorization, t1, t2, t3
    {
      && PtrsIn(flags.Pointers(), t1) && PtrsVal(flags.Pointers(), t1) == v.flags
      && SliceIn(authorizationScopes, t2) && SliceVal(authorizationScopes, t2) == v.authorizationScopes
      && PtrsIn(authorization.Pointers(), t3) && PtrsVal(authorization.Pointers(), t3) == v.authorization
    }

    /** And no object among them is reachable in two ways. */
    ghost predicate FirstOwns(t1: set<object>, t2: set<object>, t3: set<object>, v: RouteValue)
      reads this`flags, this`authorizationScopes, this`authorization, t1, t2, t3
    {
      && FirstHolds(t1, t2, t3, v) && t1 !! t2 !! t3
      && PtrsUnshared(flags.Pointers()) && SliceUnshared(authorizationScopes, t2)
      && PtrsUnshared(authorization.Pointers())
    }

    /** The remaining fields lie in the given sets and have the values of `v`. */
    ghost predicate LastHolds(t1: set<object>, t2: set<object>, t3: set<object>, v: RouteValue)
      reads this`requestModels, this`requestParameters, this`identity, t1, t2, t3
    {
      && StrMapIn(requestModels, t1) && StrMapVal(requestModels, t1) == v.requestModels
      && MapSliceIn(requestParameters, t2) && MapSliceVal(requestParameters, t2) == v.requestParameters
      && PtrsIn(identity.Pointers(), t3) && PtrsVal(identity.Pointers(), t3) == v.identity
    }

    ghost predicate LastOwns(t1: set<object>, t2: set<object>, t3: set<object>, v: RouteValue)
      reads this`requestModels, this`requestParameters, this`identity, t1, t2, t3
    {
      && LastHolds(t1, t2, t3, v) && t1 !! t2 !! t3
      && StrMapUnshared(requestModels, t1) && MapSliceUnshared(requestParameters, t2)
      && PtrsUnshared(identity.Pointers())
    }

    /** Everything reachable from the struct lies in `p`, and `v` is its value. */
    ghost predicate Holds(p: Parts, v: RouteValue)
      reads this, p.Objs()
    {
      FirstHolds(p.flags, p.scopes, p.authorization, v) && LastHolds(p.models, p.parameters, p.identity, v)
    }

    /** And no object is reachable in two ways. */
    ghost predicate Owns(p: Parts, v: RouteValue)
      reads this, p.Objs()
    {
      && FirstOwns(p.flags, p.scopes, p.authorization, v) && LastOwns(p.models, p.parameters, p.identity, v)
      && p.First() !! p.Last()
    }

    // Each block replaces what the shallow copy left in one field of `out`, and reads the
    // field of `this` after that: the new object itself when both are one struct.

    method CopyFlags(out: RouteSDK, ghost s: set<object>, ghost v: seq<Option<bool>>)
      returns (ghost t: set<object>)
      requires out.flags == flags && PtrsIn(flags.Pointers(), s) && PtrsVal(flags.Pointers(), s) == v
      modifies out`flags
      ensures fresh(t) && PtrsIn(out.flags.Pointers(), t) && PtrsUnshared(out.flags.Pointers())
      ensures PtrsVal(out.flags.Pointers(), t) == CopiedPtrs(this == out, v, false)
    {
      if flags.apiGatewayManaged != null {
        var c := new Cell(false);
        out.flags := out.flags.(apiGatewayManaged := c);
        out.flags.apiGatewayManaged.v := flags.apiGatewayManaged.v;
      }
      if flags.apiKeyRequired != null {
        var c := new Cell(false);
        out.flags := out.flags.(apiKeyRequired := c);
        out.flags.apiKeyRequired.v := flags.apiKeyRequired.v;
      }
      t := CellObjs(out.flags.apiGatewayManaged) + CellObjs(out.flags.apiKeyRequired);
    }

    method CopyScopes(out: RouteSDK, ghost s: set<object>, ghost v: Option<seq<Option<Str>>>)
      returns (ghost t: set<object>)
      requires out.authorizationScopes == authorizationScopes && SliceIn(authorizationScopes, s) && out !in s
      requires SliceVal(authorizationScopes, s) == v
      modifies out`authorizationScopes
      ensures fresh(t) && SliceIn(out.authorizationScopes, t) && SliceUnshared(out.authorizationScopes, t)
      ensures SliceVal(out.authorizationScopes, t) == CopiedSlice(this == out, v)
    {
      t := {};
      if authorizationScopes != null {
        var made := new Cell?<Str>[authorizationScopes.Length](_ => null);
        out.authorizationScopes := made;
        assert SliceVal(made, {made}).value == seq(made.Length, _ => None);
        assert this != out ==> SliceIn(authorizationScopes, s) && SliceVal(authorizationScopes, s) == v;
        t := FillSlice(authorizationScopes, made, EMPTY, if this == out then {made} else s);
      }
    }

    method CopyAuthorizer(out: RouteSDK)
      requires out.authorization.authorizationType == authorization.authorizationType
      requires out.authorization.authorizerID == authorization.authorizerID
      modifies out`authorization
      ensures var b := out.authorization;
              && b == old(out.authorization).(authorizationType := b.authorizationType, authorizerID := b.authorizerID)
              && CellVal(b.authorizationType) ==
                 Copied(this == out, old(CellVal(authorization.authorizationType)), EMPTY)
              && CellVal(b.authorizerID) == Copied(this == out, old(CellVal(authorization.authorizerID)), EMPTY)
              && fresh(CellObjs(b.authorizationType) + CellObjs(b.authorizerID))
              && CellObjs(b.authorizationType) !! CellObjs(b.authorizerID)
    {
      if authorization.authorizationType != null {
        var c := new Cell(EMPTY);
        out.authorization := out.authorization.(authorizationType := c);
        out.authorization.authorizationType.v := authorization.authorizationType.v;
      }
      if authorization.authorizerID != null {
        var c := new Cell(EMPTY);
        out.authorization := out.authorization.(authorizerID := c);
        out.authorization.authorizerID.v := authorization.authorizerID.v;
      }
    }

    method CopyOperation(out: RouteSDK)
      requires out.authorization.modelSelectionExpression == authorization.modelSelectionExpression
      requires out.authorization.operationName == authorization.operationName
      modifies out`authorization
      ensures var b := out.authorization;
              && b == old(out.authorization).(
                   modelSelectionExpression := b.modelSelectionExpression, operationName := b.operationName)
              && CellVal(b.modelSelectionExpression) ==
                 Copied(this == out, old(CellVal(authorization.modelSelectionExpression)), EMPTY)
              && CellVal(b.operationName) == Copied(this == out, old(CellVal(authorization.operationName)), EMPTY)
              && fresh(CellObjs(b.modelSelectionExpression) + CellObjs(b.operationName))
              && CellObjs(b.modelSelectionExpression) !! CellObjs(b.operationName)
    {
      if authorization.modelSelectionExpression != null {
        var c := new Cell(EMPTY);
        out.authorization := out.authorization.(modelSelectionExpression := c);
        out.authorization.modelSelectionExpression.v := authorization.modelSelectionExpression.v;
      }
      if authorization.operationName != null {
        var c := new Cell(EMPTY);
        out.authorization := out.authorization.(operationName := c);
        out.authorization.operationName.v := authorization.operationName.v;
      }
    }

    method CopyAuthorization(out: RouteSDK, ghost s: set<object>, ghost v: seq<Option<Str>>)
      returns (ghost t: set<object>)
      requires out.authorization == authorization
      requires PtrsIn(authorization.Pointers(), s) && PtrsVal(authorization.Pointers(), s) == v
      modifies out`authorization
      ensures fresh(t) && PtrsIn(out.authorization.Pointers(), t) && PtrsUnshared(out.authorization.Pointers())
      ensures PtrsVal(out.authorization.Pointers(), t) == CopiedPtrs(this == out, v, EMPTY)
    {
      CopyAuthorizer(out);
      t := CellObjs(out.authorization.authorizationType) + CellObjs(out.authorization.authorizerID);
      CopyOperation(out);
      t := t + CellObjs(out.authorization.modelSelectionExpression) + CellObjs(out.authorization.operationName);
      FourCopied(v, out.authorization.Pointers(), t, this == out, EMPTY);
    }

    method CopyModels(out: RouteSDK, ghost s: set<object>, ghost v: Option<map<Str, Option<Str>>>)
      returns (ghost t: set<object>)
      requires out.requestModels == requestModels && StrMapIn(requestModels, s) && out !in s
      requires StrMapVal(requestModels, s) == v
      modifies out`requestModels
      ensures fresh(t) && StrMapIn(out.requestModels, t) && StrMapUnshared(out.requestModels, t)
      ensures StrMapVal(out.requestModels, t) == CopiedMap(this == out, v)
    {
      t := {};
      if requestModels != null {
        var made := new GoMap<Cell?<Str>>(map[]);
        out.requestModels := made;
        assert this != out ==> StrMapIn(requestModels, s) && StrMapVal(requestModels, s) == v;
        t := FillStrMap(requestModels, made, if this == out then {made} else s);
      }
    }

    method CopyParameters(out: RouteSDK, ghost s: set<object>, ghost v: Option<MapsValue>)
      returns (ghost t: set<object>)
      requires out.requestParameters == requestParameters && MapSliceIn(requestParameters, s) && out !in s
      requires MapSliceVal(requestParameters, s) == v
      modifies out`requestParameters
      ensures fresh(t) && MapSliceIn(out.requestParameters, t) && MapSliceUnshared(out.requestParameters, t)
      ensures MapSliceVal(out.requestParameters, t) == CopiedSlice(this == out, v)
    {
      t := {};
      if requestParameters != null {
        var made := new ConstraintMap[requestParameters.Length](_ => null);
        out.requestParameters := made;
        assert MapSliceVal(made, {made}).value == seq(made.Length, _ => None);
        assert this != out ==> MapSliceIn(requestParameters, s) && MapSliceVal(requestParameters, s) == v;
        t := FillMapSlice(requestParameters, made, if this == out then {made} else s);
      }
    }

    method CopyRouteNames(out: RouteSDK)
      requires out.identity.routeID == identity.routeID
      requires out.identity.routeKey == identity.routeKey
      modifies out`identity
      ensures var b := out.identity;
              && b == old(out.identity).(routeID := b.routeID, routeKey := b.routeKey)
              && CellVal(b.routeID) == Copied(this == out, old(CellVal(identity.routeID)), EMPTY)
              && CellVal(b.routeKey) == Copied(this == out, old(CellVal(identity.routeKey)), EMPTY)
              && fresh(CellObjs(b.routeID) + CellObjs(b.routeKey)) && CellObjs(b.routeID) !! CellObjs(b.routeKey)
    {
      if identity.routeID != null {
        var c := new Cell(EMPTY);
        out.identity := out.identity.(routeID := c);
        out.identity.routeID.v := identity.routeID.v;
      }
      if identity.routeKey != null {
        var c := new Cell(EMPTY);
        out.identity := out.identity.(routeKey := c);
        out.identity.routeKey.v := identity.routeKey.v;
      }
    }

    method CopyResponse(out: RouteSDK)
      requires out.identity.routeResponseSelectionExpression == identity.routeResponseSelectionExpression
      requires out.identity.target == identity.target
      modifies out`identity
      ensures var b := out.identity;
              && b == old(out.identity).(
                   routeResponseSelectionExpression := b.routeResponseSelectionExpression, target := b.target)
              && CellVal(b.routeResponseSelectionExpression) ==
                 Copied(this == out, old(CellVal(identity.routeResponseSelectionExpression)), EMPTY)
              && CellVal(b.target) == Copied(this == out, old(CellVal(identity.target)), EMPTY)
              && fresh(CellObjs(b.routeResponseSelectionExpression) + CellObjs(b.target))
              && CellObjs(b.routeResponseSelectionExpression) !! CellObjs(b.target)
    {
      if identity.routeResponseSelectionExpression != null {
        var c := new Cell(EMPTY);
        out.identity := out.identity.(routeResponseSelectionExpression := c);
        out.identity.routeResponseSelectionExpression.v := identity.routeResponseSelectionExpression.v;
      }
      if identity.target != null {
        var c := new Cell(EMPTY);
        out.identity := out.identity.(target := c);
        out.identity.target.v := identity.target.v;
      }
    }

    method CopyIdentity(out: RouteSDK, ghost s: set<object>, ghost v: seq<Option<Str>>)
      returns (ghost t: set<object>)
      requires out.identity == identity && PtrsIn(identity.Pointers(), s) && PtrsVal(identity.Pointers(), s) == v
      modifies out`identity
      ensures fresh(t) && PtrsIn(out.identity.Pointers(), t) && PtrsUnshared(out.identity.Pointers())
      ensures PtrsVal(out.identity.Pointers(), t) == CopiedPtrs(this == out, v, EMPTY)
    {
      CopyRouteNames(out);
      t := CellObjs(out.identity.routeID) + CellObjs(out.identity.routeKey);
      CopyResponse(out);
      t := t + CellObjs(out.identity.routeResponseSelectionExpression) + CellObjs(out.identity.target);
      FourCopied(v, out.identity.Pointers(), t, this == out, EMPTY);
    }

    /** The blocks up to the operation name. */
    method CopyFirst(out: RouteSDK, ghost s: Parts, ghost v: RouteValue)
      returns (ghost t1: set<object>, ghost t2: set<object>, ghost t3: set<object>)
      requires FirstHolds(s.flags, s.scopes, s.authorization, v) && out !in s.Objs()
      requires out.flags == flags && out.authorizationScopes == authorizationScopes
      requires out.authorization == authorization
      modifies out`flags, out`authorizationScopes, out`authorization
      ensures fresh(t1 + t2 + t3) && out.FirstOwns(t1, t2, t3, CopiedRoute(this == out, v))
    {
      t1 := CopyFlags(out, s.flags, v.flags);
      t2 := CopyScopes(out, s.scopes, v.authorizationScopes);
      t3 := CopyAuthorization(out, s.authorization, v.authorization);
    }

    /** The remaining blocks. */
    method CopyLast(out: RouteSDK, ghost s: Parts, ghost v: RouteValue)
      returns (ghost t1: set<object>, ghost t2: set<object>, ghost t3: set<object>)
      requires LastHolds(s.models, s.parameters, s.identity, v) && out !in s.Objs()
      requires out.requestModels == requestModels && out.requestParameters == requestParameters
      requires out.identity == identity
      modifies out`requestModels, out`requestParameters, out`identity
      ensures fresh(t1 + t2 + t3) && out.LastOwns(t1, t2, t3, CopiedRoute(this == out, v))
    {
      t1 := CopyModels(out, s.models, v.requestModels);
      ghost var models, v1 := out.requestModels, StrMapVal(out.requestModels, t1);
      t2 := CopyParameters(out, s.parameters, v.requestParameters);
      assert StrMapIn(models, t1) && StrMapVal(models, t1) == v1;
      t3 := CopyIdentity(out, s.identity, v.identity);
    }

    ghost predicate SameFields(out: RouteSDK)
      reads this, out
    {
      && out.flags == flags && out.authorizationScopes == authorizationScopes && out.authorization == authorization
      && out.requestModels == requestModels && out.requestParameters == requestParameters && out.identity == identity
    }

    /** `*out = *in`. */
    method ShallowCopy(out: RouteSDK)
      modifies out
      ensures SameFields(out)
      ensures flags == old(flags) && authorizationScopes == old(authorizationScopes)
      ensures authorization == old(authorization) && requestModels == old(requestModels)
      ensures requestParameters == old(requestParameters) && identity == old(identity)
    {
      out.flags, out.authorizationScopes, out.authorization := flags, authorizationScopes, authorization;
      out.requestModels, out.requestParameters, out.identity := requestModels, requestParameters, identity;
    }

    /** All blocks, in source order. */
    method ReplaceAliases(out: RouteSDK, ghost s: Parts, ghost v: RouteValue) returns (ghost p: Parts)
      requires Holds(s, v) && out !in s.Objs() && SameFields(out)
      modifies out
      ensures fresh(p.Objs()) && out.Owns(p, CopiedRoute(this == out, v))
    {
      var t1, t2, t3 := CopyFirst(out, s, v);
      var t4, t5, t6 := CopyLast(out, s, v);
      p := Parts(t1, t2, t3, t4, t5, t6);
    }

    /**
     The copy is made of new objects only, shares none of them between its parts, and
     holds the source's value; or, when the struct is copied into itself, what is left
     of that value once every pointer target, element and entry is lost.
     */
    method DeepCopyInto(out: RouteSDK, ghost s: Parts, ghost v: RouteValue) returns (ghost p: Parts)
      requires Holds(s, v) && out !in s.Objs()
      modifies out
      ensures fresh(p.Objs()) && out.Owns(p, CopiedRoute(this == out, v))
      ensures this != out ==> unchanged(this) && Holds(s, v)
    {
      ShallowCopy(out);
      assert FirstHolds(s.flags, s.scopes, s.authorization, v);
      assert LastHolds(s.models, s.parameters, s.identity, v);
      p := ReplaceAliases(out, s, v);
    }

    /** A nil struct copies to nil; any other to a new struct. */
    static method DeepCopy(src: RouteSDK?, ghost s: Parts, ghost v: RouteValue)
      returns (out: RouteSDK?, ghost p: Parts)
      requires src != null ==> src.Holds(s, v)
      ensures out == null <==> src == null
      ensures src != null ==> fresh(out) && fresh(p.Objs()) && out.Owns(p, v)
      ensures src != null ==> unchanged(src) && src.Holds(s, v)
    {
      out, p := null, Parts({}, {}, {}, {}, {}, {});
      if src != null {
        out := new RouteSDK();
        p := src.DeepCopyInto(out, s, v);
      }
    }
  }

  /** The values that copying a struct into itself leaves alone. */
  ghost predicate Hollow(v: RouteValue) {
    && Zeroed(v.flags, false) && Zeroed(v.authorization, EMPTY) && Zeroed(v.identity, EMPTY)
    && (v.authorizationScopes.Some? ==> forall x :: x in v.authorizationScopes.value ==> x.None?)
    && (v.requestModels.Some? ==> v.requestModels.value == map[])
    && (v.requestParameters.Some? ==> forall x :: x in v.requestParameters.value ==> x.None?)
  }

  ghost predicate Zeroed<T>(v: seq<Option<T>>, zero: T) {
    forall x :: x in v && x.Some? ==> x.value == zero
  }

  lemma CopiedKeepsIffHollow(v: RouteValue)
    ensures CopiedRoute(true, v) == v <==> Hollow(v)
  {
    ZeroesOnly(v.flags, false);
    ZeroesOnly(v.authorization, EMPTY);
    ZeroesOnly(v.identity, EMPTY);
    NilsOnly(v.authorizationScopes);
    NilsOnly(v.requestParameters);
  }

  /** A struct has one value, whichever objects are named as its parts. */
  lemma HoldsOneValue(r: RouteSDK, p: Parts, v: RouteValue, p': Parts, v': RouteValue)
    requires r.Holds(p, v) && r.Holds(p', v')
    ensures v == v'
  {
    assert v.flags == v'.flags && v.authorization == v'.authorization && v.identity == v'.identity;
    if r.authorizationScopes != null {
      assert v.authorizationScopes.value == v'.authorizationScopes.value;
    }
    if r.requestModels != null {
      assert v.requestModels.value == v'.requestModels.value;
    }
    if r.requestParameters != null {
      assert v.requestParameters.value == v'.requestParameters.value;
    }
  }

  /**
   A struct that held `v` and was copied into itself, which leaves `CopiedRoute(true, v)`,
   still holds `v` if and only if `v` has nothing but zero values.
   */
  lemma SelfCopyKeepsIffHollow(r: RouteSDK, p: Parts, v: RouteValue)
    requires r.Owns(p, CopiedRoute(true, v))
    ensures r.Holds(p, v) <==> Hollow(v)
  {
    CopiedKeepsIffHollow(v);
    if r.Holds(p, v) {
      HoldsOneValue(r, p, v, p, CopiedRoute(true, v));
    }
  }

  lemma ZeroesOnly<T>(v: seq<Option<T>>, zero: T)
    ensures CopiedPtrs(true, v, zero) == v <==> Zeroed(v, zero)
  {
    var c := CopiedPtrs(true, v, zero);
    if c == v {
      forall x | x in v && x.Some? ensures x.value == zero {
        var i :| 0 <= i < |v| && v[i] == x;
        assert c[i] == Some(zero);
      }
    } else {
      var i :| 0 <= i < |v| && v[i] != c[i];
      assert v[i] in v;
    }
  }

  lemma NilsOnly<T>(v: Option<seq<Option<T>>>)
    ensures CopiedSlice(true, v) == v <==> (v.Some? ==> forall x :: x in v.value ==> x.None?)
  {
    if v.Some? {
      var nils := seq(|v.value|, _ => None);
      if v.value == nils {
        forall x | x in v.value ensures x.None? {
          var i :| 0 <= i < |nils| && nils[i] == x;
        }
      } else {
        var i :| 0 <= i < |nils| && v.value[i] != nils[i];
        assert v.value[i] in v.value;
      }
    }
  }
}
