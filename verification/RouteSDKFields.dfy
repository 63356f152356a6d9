/**
 What a deep copy of `Route_SDK` means field by field, in terms of the pointers, slices
 and maps themselves.
 */
module RouteSDKFields {
  import opened GoValues
  import opened GoHeap
  import opened RouteSDKs

  /** Both pointers are nil, or `d` is one of `objs` and points to what `c` points to. */
  ghost predicate SameTarget<T(!new)>(c: Cell?<T>, d: Cell?<T>, objs: set<object>)
    reads c, d
  {
    (c == null <==> d == null) && (c != null ==> d in objs && d.v == c.v)
  }

  // ----- The copy has the source's value, in objects of its own

  lemma PointersCopied<T(!new)>(ps: seq<Cell?<T>>, s: set<object>, qs: seq<Cell?<T>>, t: set<object>)
    requires PtrsIn(ps, s) && PtrsIn(qs, t) && PtrsVal(ps, s) == PtrsVal(qs, t)
    ensures |ps| == |qs| && forall i :: 0 <= i < |ps| ==> SameTarget(ps[i], qs[i], t)
  {
    assert |ps| == |PtrsVal(ps, s)| && |qs| == |PtrsVal(qs, t)|;
    forall i | 0 <= i < |ps| ensures SameTarget(ps[i], qs[i], t) {
      assert PtrsVal(ps, s)[i] == PtrsVal(qs, t)[i];
      assert CellObjs(qs[i]) <= t;
    }
  }

  /** Each of the ten plain pointers. */
  lemma PlainPointersCopied(a: RouteSDK, s: Parts, b: RouteSDK, p: Parts, v: RouteValue)
    requires a.Holds(s, v) && b.Owns(p, v)
    ensures SameTarget(a.flags.apiGatewayManaged, b.flags.apiGatewayManaged, p.Objs())
    ensures SameTarget(a.flags.apiKeyRequired, b.flags.apiKeyRequired, p.Objs())
    ensures SameTarget(a.authorization.authorizationType, b.authorization.authorizationType, p.Objs())
    ensures SameTarget(a.authorization.authorizerID, b.authorization.authorizerID, p.Objs())
    ensures SameTarget(a.authorization.modelSelectionExpression, b.authorization.modelSelectionExpression, p.Objs())
    ensures SameTarget(a.authorization.operationName, b.authorization.operationName, p.Objs())
    ensures SameTarget(a.identity.routeID, b.identity.routeID, p.Objs())
    ensures SameTarget(a.identity.routeKey, b.identity.routeKey, p.Objs())
    ensures SameTarget(a.identity.routeResponseSelectionExpression, b.identity.routeResponseSelectionExpression,
                       p.Objs())
    ensures SameTarget(a.identity.target, b.identity.target, p.Objs())
  {
    var f, f' := a.flags.Pointers(), b.flags.Pointers();
    PointersCopied(f, s.flags, f', p.flags);
    assert SameTarget(f[0], f'[0], p.flags) && SameTarget(f[1], f'[1], p.flags);
    var u, u' := a.authorization.Pointers(), b.authorization.Pointers();
    PointersCopied(u, s.authorization, u', p.authorization);
    assert SameTarget(u[0], u'[0], p.authorization) && SameTarget(u[1], u'[1], p.authorization);
    assert SameTarget(u[2], u'[2], p.authorization) && SameTarget(u[3], u'[3], p.authorization);
    var i, i' := a.identity.Pointers(), b.identity.Pointers();
    PointersCopied(i, s.identity, i', p.identity);
    assert SameTarget(i[0], i'[0], p.identity) && SameTarget(i[1], i'[1], p.identity);
    assert SameTarget(i[2], i'[2], p.identity) && SameTarget(i[3], i'[3], p.identity);
  }

  /** The slice of strings: nil for nil, and otherwise element by element. */
  lemma ScopesCopied(a: RouteSDK, s: Parts, b: RouteSDK, p: Parts, v: RouteValue)
    requires a.Holds(s, v) && b.Owns(p, v)
    ensures a.authorizationScopes == null <==> b.authorizationScopes == null
    ensures b.authorizationScopes != null ==>
              && b.authorizationScopes in p.Objs()
              && a.authorizationScopes.Length == b.authorizationScopes.Length
              && forall i :: 0 <= i < b.authorizationScopes.Length ==>
                   SameTarget(a.authorizationScopes[i], b.authorizationScopes[i], p.Objs())
  {
    if a.authorizationScopes != null {
      var xs, ys := a.authorizationScopes[..], b.authorizationScopes[..];
      PointersCopied(xs, s.scopes, ys, p.scopes);
      forall i | 0 <= i < b.authorizationScopes.Length
        ensures SameTarget(a.authorizationScopes[i], b.authorizationScopes[i], p.Objs())
      {
        assert SameTarget(xs[i], ys[i], p.scopes);
      }
    }
  }

  /** The map of strings: nil for nil, and otherwise key by key, entries that are nil included. */
  lemma ModelsCopied(a: RouteSDK, s: Parts, b: RouteSDK, p: Parts, v: RouteValue)
    requires a.Holds(s, v) && b.Owns(p, v)
    ensures a.requestModels == null <==> b.requestModels == null
    ensures b.requestModels != null ==>
              && b.requestModels in p.Objs() && b.requestModels.m.Keys == a.requestModels.m.Keys
              && forall k :: k in b.requestModels.m ==>
                   SameTarget(a.requestModels.m[k], b.requestModels.m[k], p.Objs())
  {
    if a.requestModels != null {
      var m, m', w := a.requestModels.m, b.requestModels.m, v.requestModels.value;
      assert m.Keys == w.Keys == m'.Keys;
      forall k | k in m' ensures SameTarget(m[k], m'[k], p.Objs()) {
        assert w[k] == CellVal(m[k]) && w[k] == CellVal(m'[k]);
      }
    }
  }

  /** The slice of maps of struct pointers: nil for nil, with as many elements. */
  lemma ParametersCopied(a: RouteSDK, s: Parts, b: RouteSDK, p: Parts, v: RouteValue)
    requires a.Holds(s, v) && b.Owns(p, v)
    ensures a.requestParameters == null <==> b.requestParameters == null
    ensures b.requestParameters != null ==>
              b.requestParameters in p.Objs() && a.requestParameters.Length == b.requestParameters.Length
  {
    if a.requestParameters != null {
      assert |v.requestParameters.value| == a.requestParameters.Length;
    }
  }

  /** Element `i`: nil for nil, and otherwise key by key, down to the pointer in each struct. */
  lemma ParameterMapCopied(a: RouteSDK, s: Parts, b: RouteSDK, p: Parts, v: RouteValue, i: nat)
    requires a.Holds(s, v) && b.Owns(p, v)
    requires a.requestParameters != null && b.requestParameters != null
    requires i < a.requestParameters.Length && i < b.requestParameters.Length
    ensures var c, d := a.requestParameters[i], b.requestParameters[i];
            && (c == null <==> d == null)
            && (c != null ==> d in p.Objs() && d.m.Keys == c.m.Keys)
            && (c != null ==> forall k :: k in c.m && k in d.m ==>
                  && (c.m[k] == null <==> d.m[k] == null)
                  && (c.m[k] != null ==>
                        d.m[k] in p.Objs() && SameTarget(c.m[k].required, d.m[k].required, p.Objs())))
  {
    var c, d := a.requestParameters[i], b.requestParameters[i];
    assert a.requestParameters[..][i] == c && b.requestParameters[..][i] == d;
    assert MapIn(c, s.parameters) && MapIn(d, p.parameters);
    assert v.requestParameters.value[i] == MapVal(c, s.parameters) == MapVal(d, p.parameters);
    if c != null {
      var w := v.requestParameters.value[i].value;
      assert c.m.Keys == w.Keys == d.m.Keys;
      forall k | k in c.m && k in d.m
        ensures c.m[k] == null <==> d.m[k] == null
        ensures c.m[k] != null ==>
                  d.m[k] in p.Objs() && SameTarget(c.m[k].required, d.m[k].required, p.Objs())
      {
        assert w[k] == ConstraintsVal(c.m[k]) && w[k] == ConstraintsVal(d.m[k]);
      }
    }
  }

  // ----- No object of the copy is reachable in two ways

  /** The eight plain string pointers. */
  ghost function Strings(b: RouteSDK): seq<Cell?<Str>>
    reads b
  {
    [b.authorization.authorizationType, b.authorization.authorizerID, b.authorization.modelSelectionExpression,
     b.authorization.operationName, b.identity.routeID, b.identity.routeKey,
     b.identity.routeResponseSelectionExpression, b.identity.target]
  }

  lemma PlainPointersUnshared(b: RouteSDK, p: Parts, v: RouteValue)
    requires b.Owns(p, v)
    ensures b.flags.apiGatewayManaged != null ==> b.flags.apiGatewayManaged != b.flags.apiKeyRequired
    ensures forall i, j :: 0 <= i < j < 8 && Strings(b)[i] != null ==> Strings(b)[i] != Strings(b)[j]
  {
    var f, u, n := b.flags.Pointers(), b.authorization.Pointers(), b.identity.Pointers();
    assert CellObjs(f[0]) !! CellObjs(f[1]);
    forall i, j | 0 <= i < j < 8 && Strings(b)[i] != null ensures Strings(b)[i] != Strings(b)[j] {
      if j < 4 {
        assert CellObjs(u[i]) !! CellObjs(u[j]);
      } else if i >= 4 {
        assert CellObjs(n[i - 4]) !! CellObjs(n[j - 4]);
      } else {
        assert CellObjs(u[i]) <= p.authorization && CellObjs(n[j - 4]) <= p.identity;
      }
    }
  }

  lemma StringsLie(b: RouteSDK, p: Parts, v: RouteValue, c: Cell?<Str>)
    requires b.Owns(p, v) && c in Strings(b) && c != null
    ensures c in p.authorization + p.identity
  {
    var i :| 0 <= i < 8 && Strings(b)[i] == c;
    var u, n := b.authorization.Pointers(), b.identity.Pointers();
    if i < 4 {
      assert CellObjs(u[i]) <= p.authorization;
    } else {
      assert CellObjs(n[i - 4]) <= p.identity;
    }
  }

  /** Scopes among themselves and against the plain strings. */
  lemma ScopesUnshared(b: RouteSDK, p: Parts, v: RouteValue)
    requires b.Owns(p, v) && b.authorizationScopes != null
    ensures var a := b.authorizationScopes;
            && (forall i, j :: 0 <= i < j < a.Length && a[i] != null ==> a[i] != a[j])
            && (forall i :: 0 <= i < a.Length && a[i] != null ==> a[i] !in Strings(b))
  {
    var a := b.authorizationScopes;
    forall i, j | 0 <= i < j < a.Length && a[i] != null ensures a[i] != a[j] {
      assert CellObjs(a[..][i]) !! CellObjs(a[..][j]);
    }
    forall i | 0 <= i < a.Length && a[i] != null ensures a[i] !in Strings(b) {
      assert CellObjs(a[..][i]) <= p.scopes;
      if a[i] in Strings(b) {
        StringsLie(b, p, v, a[i]);
      }
    }
  }

  /** Models among themselves, against the plain strings and against the scopes. */
  lemma ModelsUnshared(b: RouteSDK, p: Parts, v: RouteValue)
    requires b.Owns(p, v) && b.requestModels != null
    ensures var m := b.requestModels.m;
            && (forall k, l :: k in m && l in m && k != l && m[k] != null ==> m[k] != m[l])
            && (forall k :: k in m && m[k] != null ==> m[k] !in Strings(b))
            && (b.authorizationScopes != null ==>
                  forall k, i :: k in m && m[k] != null && 0 <= i < b.authorizationScopes.Length ==>
                    m[k] != b.authorizationScopes[i])
  {
    var m := b.requestModels.m;
    forall k, l | k in m && l in m && k != l && m[k] != null ensures m[k] != m[l] {
      assert CellObjs(m[k]) !! CellObjs(m[l]);
    }
    forall k | k in m && m[k] != null ensures m[k] in p.models && m[k] !in Strings(b) {
      assert CellObjs(m[k]) <= p.models;
      if m[k] in Strings(b) {
        StringsLie(b, p, v, m[k]);
      }
    }
    if b.authorizationScopes != null {
      forall k, i | k in m && m[k] != null && 0 <= i < b.authorizationScopes.Length
        ensures m[k] != b.authorizationScopes[i]
      {
        assert CellObjs(b.authorizationScopes[..][i]) <= p.scopes;
      }
    }
  }

  /** Maps, structs and the pointers in them, across all elements and keys, and against the flags. */
  lemma ParametersUnshared(b: RouteSDK, p: Parts, v: RouteValue, i: nat, j: nat)
    requires b.Owns(p, v) && b.requestParameters != null
    requires i <= j < b.requestParameters.Length
    requires b.requestParameters[i] != null && b.requestParameters[j] != null
    ensures i < j ==> b.requestParameters[i] != b.requestParameters[j]
    ensures var c, d := b.requestParameters[i].m, b.requestParameters[j].m;
            forall k, l :: k in c && l in d && (i < j || k != l) && c[k] != null && d[l] != null ==>
              c[k] != d[l] && (c[k].required != null ==> c[k].required != d[l].required)
    ensures var c := b.requestParameters[i].m;
            forall k :: k in c && c[k] != null && c[k].required != null ==>
              c[k].required != b.flags.apiGatewayManaged && c[k].required != b.flags.apiKeyRequired
  {
    var ms := b.requestParameters[..];
    var c, d := ms[i].m, ms[j].m;
    assert MapIn(ms[i], p.parameters) && MapIn(ms[j], p.parameters);
    assert i < j ==> Apart(ms[i], ms[j], p.parameters);
    assert MapUnshared(ms[i], p.parameters);
    forall k, l | k in c && l in d && (i < j || k != l) && c[k] != null && d[l] != null
      ensures c[k] != d[l] && (c[k].required != null ==> c[k].required != d[l].required)
    {
      assert ConstraintsObjs(c[k]) !! ConstraintsObjs(d[l]);
    }
    var f := b.flags.Pointers();
    assert CellObjs(f[0]) <= p.flags && CellObjs(f[1]) <= p.flags;
    forall k | k in c && c[k] != null && c[k].required != null
      ensures c[k].required != b.flags.apiGatewayManaged && c[k].required != b.flags.apiKeyRequired
    {
      assert c[k].required in ConstraintsObjs(c[k]) && ConstraintsObjs(c[k]) <= p.parameters;
    }
  }

  // ----- A struct copied into itself

  /** Both pointers are nil, or `d` points to the zero value. */
  ghost predicate Emptied<T(!new)>(c: Cell?<T>, d: Cell?<T>, zero: T)
    reads d
  {
    (c == null <==> d == null) && (d != null ==> d.v == zero)
  }

  lemma PointersEmptied<T(!new)>(ps: seq<Cell?<T>>, s: set<object>, qs: seq<Cell?<T>>, t: set<object>, zero: T)
    requires PtrsIn(ps, s) && PtrsIn(qs, t) && PtrsVal(qs, t) == CopiedPtrs(true, PtrsVal(ps, s), zero)
    ensures |ps| == |qs| && forall i :: 0 <= i < |ps| ==> Emptied(ps[i], qs[i], zero)
  {
    assert |ps| == |PtrsVal(ps, s)| && |qs| == |PtrsVal(qs, t)|;
    forall i | 0 <= i < |ps| ensures Emptied(ps[i], qs[i], zero) {
      assert PtrsVal(qs, t)[i] == Copied(true, PtrsVal(ps, s)[i], zero);
    }
  }

  /**
   What is left, against a struct `a` that holds the value from before: every pointer
   leads to false or the empty string, and every element and entry is gone.
   */
  lemma SelfCopyEmpties(a: RouteSDK, s: Parts, b: RouteSDK, p: Parts, v: RouteValue)
    requires a.Holds(s, v) && b.Owns(p, CopiedRoute(true, v))
    ensures Emptied(a.flags.apiGatewayManaged, b.flags.apiGatewayManaged, false)
    ensures Emptied(a.flags.apiKeyRequired, b.flags.apiKeyRequired, false)
    ensures forall i :: 0 <= i < 8 ==> Emptied(Strings(a)[i], Strings(b)[i], [])
    ensures a.authorizationScopes == null <==> b.authorizationScopes == null
    ensures b.authorizationScopes != null ==>
              && a.authorizationScopes.Length == b.authorizationScopes.Length
              && forall i :: 0 <= i < b.authorizationScopes.Length ==> b.authorizationScopes[i] == null
    ensures a.requestModels == null <==> b.requestModels == null
    ensures b.requestModels != null ==> b.requestModels.m == map[]
    ensures a.requestParameters == null <==> b.requestParameters == null
    ensures b.requestParameters != null ==>
              && a.requestParameters.Length == b.requestParameters.Length
              && forall i :: 0 <= i < b.requestParameters.Length ==> b.requestParameters[i] == null
  {
    PlainPointersEmptied(a, s, b, p, v);
    var w := CopiedRoute(true, v);
    if b.authorizationScopes != null {
      assert |w.authorizationScopes.value| == b.authorizationScopes.Length;
      forall i | 0 <= i < b.authorizationScopes.Length ensures b.authorizationScopes[i] == null {
        assert w.authorizationScopes.value[i] == CellVal(b.authorizationScopes[..][i]);
      }
    }
    if b.requestModels != null {
      assert w.requestModels.value.Keys == b.requestModels.m.Keys;
    }
    if b.requestParameters != null {
      assert |w.requestParameters.value| == b.requestParameters.Length;
      forall i | 0 <= i < b.requestParameters.Length ensures b.requestParameters[i] == null {
        assert w.requestParameters.value[i] == MapVal(b.requestParameters[..][i], p.parameters);
      }
    }
  }

  lemma PlainPointersEmptied(a: RouteSDK, s: Parts, b: RouteSDK, p: Parts, v: RouteValue)
    requires a.Holds(s, v) && b.Owns(p, CopiedRoute(true, v))
    ensures Emptied(a.flags.apiGatewayManaged, b.flags.apiGatewayManaged, false)
    ensures Emptied(a.flags.apiKeyRequired, b.flags.apiKeyRequired, false)
    ensures forall i :: 0 <= i < 8 ==> Emptied(Strings(a)[i], Strings(b)[i], [])
  {
    var f, f' := a.flags.Pointers(), b.flags.Pointers();
    PointersEmptied(f, s.flags, f', p.flags, false);
    assert Emptied(f[0], f'[0], false) && Emptied(f[1], f'[1], false);
    var u, u' := a.authorization.Pointers(), b.authorization.Pointers();
    PointersEmptied(u, s.authorization, u', p.authorization, EMPTY);
    var n, n' := a.identity.Pointers(), b.identity.Pointers();
    PointersEmptied(n, s.identity, n', p.identity, EMPTY);
    forall i | 0 <= i < 8 ensures Emptied(Strings(a)[i], Strings(b)[i], []) {
      if i < 4 {
        assert Emptied(u[i], u'[i], EMPTY);
      } else {
        assert Emptied(n[i - 4], n'[i - 4], EMPTY);
      }
    }
  }

  // ----- Every struct holds a value

  ghost function Targets<T>(ps: seq<Cell?<T>>): set<object> {
    set i | 0 <= i < |ps| && ps[i] != null :: ps[i]
  }

  /** The precondition of `DeepCopyInto` can always be met: some objects make up the struct, and give its value. */
  lemma EveryStructHolds(a: RouteSDK) returns (s: Parts, v: RouteValue)
    ensures a.Holds(s, v)
  {
    var f, u, n := Targets(a.flags.Pointers()), Targets(a.authorization.Pointers()), Targets(a.identity.Pointers());
    var scopes: set<object> := {};
    if a.authorizationScopes != null {
      scopes := {a.authorizationScopes} + Targets(a.authorizationScopes[..]);
    }
    var models := ModelObjs(a.requestModels);
    var parameters := ParameterObjs(a.requestParameters);
    s := Parts(f, scopes, u, models, parameters, n);
    v := RouteValue(
      PtrsVal(a.flags.Pointers(), f), SliceVal(a.authorizationScopes, scopes),
      PtrsVal(a.authorization.Pointers(), u), StrMapVal(a.requestModels, models),
      MapSliceVal(a.requestParameters, parameters), PtrsVal(a.identity.Pointers(), n));
  }

  lemma ModelObjs(p: GoMap?<Cell?<Str>>) returns (s: set<object>)
    ensures StrMapIn(p, s)
  {
    s := {};
    if p != null {
      s := {p} + set k | k in p.m && p.m[k] != null :: p.m[k];
    }
  }

  lemma ConstraintMapObjs(p: ConstraintMap) returns (s: set<object>)
    ensures MapIn(p, s)
  {
    s := {};
    if p != null {
      var structs: set<object> := set k | k in p.m && p.m[k] != null :: p.m[k];
      var cells: set<object> := set k | k in p.m && p.m[k] != null && p.m[k].required != null :: p.m[k].required;
      var own: set<object> := {p};
      s := own + structs + cells;
    }
  }

  lemma {:induction false} MapsObjs(ms: Maps) returns (s: set<object>)
    ensures MapsIn(ms, s)
    decreases |ms|
  {
    s := {};
    if ms != [] {
      var n := |ms| - 1;
      var init := MapsObjs(ms[..n]);
      var last := ConstraintMapObjs(ms[n]);
      MapsInLarger(ms[..n], init, last);
      InLarger(ms[n], last, init);
      s := init + last;
      assert last + init == s;
      assert forall i :: 0 <= i < n ==> ms[i] == ms[..n][i];
    }
  }

  lemma ParameterObjs(a: MapSlice) returns (s: set<object>)
    ensures MapSliceIn(a, s)
  {
    s := {};
    if a != null {
      var ms := MapsObjs(a[..]);
      MapsInLarger(a[..], ms, {a});
      s := ms + {a};
    }
  }
}
