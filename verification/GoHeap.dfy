/**
 Go pointers, slices and maps as heap objects, and the copying loops of generated
 `DeepCopyInto` functions.

 `In(x, s)` says that everything reachable from `x` lies in the object set `s`; the
 `Val` functions then give the value behind `x`, which depends on `s` alone. A copy
 comes with a set of new objects that holds all of it.
 */
module GoHeap {
  import opened GoValues

  /** The target of a pointer to a plain value. */
  class Cell<T> {
    var v: T

    constructor (v: T)
      ensures this.v == v
    {
      this.v := v;
    }
  }

  /** A map with string keys, held by reference. */
  class GoMap<V> {
    var m: map<Str, V>

    constructor (m: map<Str, V>)
      ensures this.m == m
    {
      this.m := m;
    }
  }

  // ----- Pointers to plain values

  ghost function CellObjs<T>(c: Cell?<T>): set<object> {
    if c == null then {} else {c}
  }

  ghost function CellVal<T>(c: Cell?<T>): Option<T>
    reads c
  {
    if c == null then None else Some(c.v)
  }

  /** A new cell with the value of `c`, or nil for nil. */
  method CopyCell<T>(c: Cell?<T>, zero: T) returns (d: Cell?<T>)
    ensures CellVal(d) == CellVal(c) && fresh(CellObjs(d))
  {
    d := null;
    if c != null {
      d := new Cell(zero);
      d.v := c.v;
    }
  }

  // ----- Runs of pointers

  ghost predicate PtrsIn<T>(ps: seq<Cell?<T>>, s: set<object>) {
    forall i :: 0 <= i < |ps| ==> CellObjs(ps[i]) <= s
  }

  ghost function PtrsVal<T>(ps: seq<Cell?<T>>, s: set<object>): (v: seq<Option<T>>)
    requires PtrsIn(ps, s)
    reads s
    ensures |v| == |ps| && forall i :: 0 <= i < |ps| ==> v[i] == CellVal(ps[i])
  {
    seq(|ps|, i requires 0 <= i < |ps| && PtrsIn(ps, s) reads s => CellVal(ps[i]))
  }

  /** No two pointers have the same target. */
  ghost predicate PtrsUnshared<T>(ps: seq<Cell?<T>>) {
    forall i, j :: 0 <= i < j < |ps| ==> CellObjs(ps[i]) !! CellObjs(ps[j])
  }

  lemma FourCopied<T>(v: seq<Option<T>>, qs: seq<Cell?<T>>, s: set<object>, self: bool, zero: T)
    requires |v| == |qs| == 4
    requires CellVal(qs[0]) == Copied(self, v[0], zero) && CellVal(qs[1]) == Copied(self, v[1], zero)
    requires CellVal(qs[2]) == Copied(self, v[2], zero) && CellVal(qs[3]) == Copied(self, v[3], zero)
    requires CellObjs(qs[0]) + CellObjs(qs[1]) + CellObjs(qs[2]) + CellObjs(qs[3]) <= s
    requires CellObjs(qs[0]) !! CellObjs(qs[1]) !! CellObjs(qs[2]) !! CellObjs(qs[3])
    ensures PtrsIn(qs, s) && PtrsUnshared(qs) && PtrsVal(qs, s) == CopiedPtrs(self, v, zero)
  {
  }

  // ----- Slices of pointers

  type Slice<T> = array?<Cell?<T>>

  ghost predicate SliceIn<T>(a: Slice<T>, s: set<object>)
    reads s
  {
    a != null ==> a in s && PtrsIn(a[..], s)
  }

  ghost function SliceVal<T>(a: Slice<T>, s: set<object>): Option<seq<Option<T>>>
    requires SliceIn(a, s)
    reads s
  {
    if a == null then None else Some(PtrsVal(a[..], s))
  }

  ghost predicate SliceUnshared<T>(a: Slice<T>, s: set<object>)
    requires SliceIn(a, s)
    reads s
  {
    a != null ==> PtrsUnshared(a[..])
  }

  /** Stores copied elements in a newly made slice. */
  method StoreElements<T>(a: array<T>, elements: seq<T>)
    requires a.Length == |elements|
    modifies a
    ensures a[..] == elements
  {
    for i := 0 to a.Length
      invariant a[..i] == elements[..i]
    {
      a[i] := elements[i];
    }
  }

  /** Fills the newly made slice `dst` from `src`, which may be `dst` itself. */
  method FillSlice<T>(src: array<Cell?<T>>, dst: array<Cell?<T>>, zero: T, ghost s: set<object>)
    returns (ghost t: set<object>)
    requires src.Length == dst.Length && forall i :: 0 <= i < dst.Length ==> dst[i] == null
    requires SliceIn(src, s) && (src != dst ==> dst !in s)
    modifies dst
    ensures fresh(t - {dst}) && SliceIn(dst, t)
    ensures SliceVal(dst, t) == old(SliceVal(src, s)) && SliceUnshared(dst, t)
  {
    t := {dst};
    ghost var v := SliceVal(src, s).value;
    for i := 0 to src.Length
      invariant src == dst ==> forall j :: 0 <= j < dst.Length ==> dst[j] == null
      invariant src != dst ==> SliceIn(src, s) && SliceVal(src, s).value == v
      invariant dst in t && fresh(t - {dst})
      invariant forall j :: 0 <= j < i ==> CellObjs(dst[j]) <= t && CellVal(dst[j]) == v[j]
      invariant forall j :: i <= j < dst.Length ==> dst[j] == null
      invariant forall j, l :: 0 <= j < l < i ==> CellObjs(dst[j]) !! CellObjs(dst[l])
    {
      if src[i] != null {
        var c := CopyCell(src[i], zero);
        dst[i] := c;
        t := t + CellObjs(c);
      }
    }
    assert SliceVal(dst, t).value == v;
  }

  // ----- Maps to string pointers

  type StrMap = GoMap<Cell?<Str>>

  ghost predicate StrMapIn(p: GoMap?<Cell?<Str>>, s: set<object>)
    reads s
  {
    p != null ==> p in s && forall k :: k in p.m ==> CellObjs(p.m[k]) <= s
  }

  ghost function StrMapVal(p: GoMap?<Cell?<Str>>, s: set<object>): Option<map<Str, Option<Str>>>
    requires StrMapIn(p, s)
    reads s
  {
    if p == null then None else Some(map k | k in p.m :: CellVal(p.m[k]))
  }

  ghost predicate StrMapUnshared(p: GoMap?<Cell?<Str>>, s: set<object>)
    requires StrMapIn(p, s)
    reads s
  {
    p != null ==> forall k, l :: k in p.m && l in p.m && k != l ==> CellObjs(p.m[k]) !! CellObjs(p.m[l])
  }

  /** The entries of a copied map: nil for nil, otherwise a new cell each. */
  method CopyStrEntries(m: map<Str, Cell?<Str>>) returns (r: map<Str, Cell?<Str>>, ghost t: set<object>)
    ensures r.Keys == m.Keys && forall k :: k in m ==> CellVal(r[k]) == CellVal(m[k]) && CellObjs(r[k]) <= t
    ensures fresh(t) && forall k, l :: k in r && l in r && k != l ==> CellObjs(r[k]) !! CellObjs(r[l])
  {
    r, t := map[], {};
    var rest := m.Keys;
    while rest != {}
      invariant rest <= m.Keys && forall k :: k in r <==> k in m && k !in rest
      invariant fresh(t) && forall k :: k in r ==> CellVal(r[k]) == CellVal(m[k]) && CellObjs(r[k]) <= t
      invariant forall k, l :: k in r && l in r && k != l ==> CellObjs(r[k]) !! CellObjs(r[l])
      decreases |rest|
    {
      var key :| key in rest;
      rest := rest - {key};
      var outVal := CopyCell(m[key], EMPTY);
      r, t := r[key := outVal], t + CellObjs(outVal);
    }
  }

  /** Fills the newly made map `dst` from `src`, which may be `dst` itself. */
  method FillStrMap(src: StrMap, dst: StrMap, ghost s: set<object>) returns (ghost t: set<object>)
    requires StrMapIn(src, s)
    modifies dst
    ensures fresh(t - {dst}) && StrMapIn(dst, t)
    ensures StrMapVal(dst, t) == old(StrMapVal(src, s)) && StrMapUnshared(dst, t)
  {
    ghost var v := StrMapVal(src, s).value;
    var entries, made := CopyStrEntries(src.m);
    dst.m := entries;
    t := made + {dst};
    assert StrMapVal(dst, t).value == v;
  }

  // ----- What a field holds after a copy
  //
  // The new object is made first and then filled from the source field. When a struct
  // is copied into itself (`self`), that field already holds the new object.

  function Copied<T>(self: bool, v: Option<T>, zero: T): Option<T> {
    if self && v.Some? then Some(zero) else v
  }

  function CopiedPtrs<T>(self: bool, v: seq<Option<T>>, zero: T): (r: seq<Option<T>>)
    ensures |r| == |v| && forall i :: 0 <= i < |v| ==> r[i] == Copied(self, v[i], zero)
  {
    seq(|v|, i requires 0 <= i < |v| => Copied(self, v[i], zero))
  }

  function CopiedSlice<T>(self: bool, v: Option<seq<Option<T>>>): Option<seq<Option<T>>> {
    if self && v.Some? then Some(seq(|v.value|, _ => None)) else v
  }

  function CopiedMap<V>(self: bool, v: Option<map<Str, V>>): Option<map<Str, V>> {
    if self && v.Some? then Some(map[]) else v
  }
}
