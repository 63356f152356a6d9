/** `DiffLabels` and `DiffTags`: edit scripts between two string maps. */
module LabelDiff {
  import opened GoValues
  import opened EditScripts

  // ----- What the two diffs return

  /** The desired entries that the remote map lacks or holds with another value. */
  function Missing(local: Store, remote: Store): Store {
    map k | k in local && Lookup(remote, k) != Some(local[k]) :: local[k]
  }

  function Stale(local: Store, remote: Store): set<Str> {
    remote.Keys - local.Keys
  }

  function Changed(local: Store, remote: Store): set<Str> {
    set k | k in local && k in remote && local[k] != remote[k]
  }

  /** The remote keys that hold no desired entry: the stale and the changed ones. */
  function Outdated(local: Store, remote: Store): set<Str> {
    set k | k in remote && (k !in local || local[k] != remote[k])
  }

  ghost predicate IsLabelDiff(local: Store, remote: Store, addOrModify: Store, remove: seq<Str>) {
    addOrModify == Missing(local, remote) && Arranges(remove, Stale(local, remote))
  }

  ghost predicate IsTagDiff(local: Store, remote: Store, add: Store, remove: seq<Str>) {
    add == Missing(local, remote) && Arranges(remove, Outdated(local, remote))
  }

  /** The put and delete operations that the two outputs of a diff stand for. */
  function Script(add: Store, remove: seq<Str>): (ops: set<Op>)
    ensures forall op :: op in ops <==>
              (op.Put? && op.key in add && op.value == add[op.key]) || (op.Delete? && op.key in remove)
  {
    (set k | k in add :: Put(k, add[k])) + (set k | k in remove :: Delete(k))
  }

  lemma ArrangesAppend(xs: seq<Str>, members: set<Str>, x: Str)
    requires Arranges(xs, members) && x !in members
    ensures Arranges(xs + [x], members + {x})
  {
  }

  lemma {:induction false} ArrangesSize(xs: seq<Str>, members: set<Str>)
    requires Arranges(xs, members)
    ensures |xs| == |members|
    decreases |xs|
  {
    if xs == [] {
      assert members == {};
    } else {
      var n := |xs| - 1;
      InitOrLast(xs);
      assert xs[n] in members;
      ArrangesSize(xs[..n], members - {xs[n]});
    }
  }

  // ----- The loops. A `range` over a Go map visits its keys in any order.

  /** `add` while the scan of `remote` has yet to visit the keys in `rest`. */
  ghost function Pending(local: Store, remote: Store, rest: set<Str>): Store {
    map k | k in local && (k in rest || Lookup(remote, k) != Some(local[k])) :: local[k]
  }

  /** Where the scan of `remote` stands: the keys in `gone` are removed as they are met. */
  ghost predicate Scanned(local: Store, remote: Store, gone: set<Str>, rest: set<Str>, add: Store, remove: seq<Str>) {
    rest <= remote.Keys && add == Pending(local, remote, rest) && Arranges(remove, gone - rest)
  }

  lemma ScanStarts(local: Store, remote: Store, gone: set<Str>)
    requires gone <= remote.Keys
    ensures Scanned(local, remote, gone, remote.Keys, local, [])
  {
    assert Pending(local, remote, remote.Keys) == local;
    assert gone - remote.Keys == {};
  }

  lemma ScanStep(local: Store, remote: Store, gone: set<Str>, rest: set<Str>, add: Store, remove: seq<Str>, k: Str)
    requires Scanned(local, remote, gone, rest, add, remove) && k in rest
    ensures Scanned(local, remote, gone, rest - {k},
                    if k in Changed(local, remote) then add else add - {k},
                    if k in gone then remove + [k] else remove)
  {
    assert Pending(local, remote, rest - {k}) == if k in Changed(local, remote) then add else add - {k};
    if k in gone {
      ArrangesAppend(remove, gone - rest, k);
      assert gone - (rest - {k}) == (gone - rest) + {k};
    } else {
      assert gone - (rest - {k}) == gone - rest;
    }
  }

  lemma ScanEnds(local: Store, remote: Store, gone: set<Str>, add: Store, remove: seq<Str>)
    requires Scanned(local, remote, gone, {}, add, remove)
    ensures add == Missing(local, remote) && Arranges(remove, gone)
  {
    assert gone - {} == gone;
  }

  /** `for k, v := range m { r[k] = v }` into an empty map. */
  method CopyEntries(m: Store) returns (r: Store)
    ensures r == m
  {
    r := map[];
    var rest := m.Keys;
    while rest != {}
      invariant rest <= m.Keys
      invariant r.Keys == m.Keys - rest
      invariant forall k :: k in r ==> r[k] == m[k]
      decreases |rest|
    {
      var k :| k in rest;
      rest := rest - {k};
      r := r[k := m[k]];
    }
  }

  method DiffLabels(local: Store, remote: Store) returns (addOrModify: Store, remove: seq<Str>)
    ensures IsLabelDiff(local, remote, addOrModify, remove)
    ensures forall k :: k in addOrModify <==> k in local && (k !in remote || remote[k] != local[k])
    ensures forall k :: k in addOrModify ==> addOrModify[k] == local[k]
    ensures forall k :: k in remove <==> k in remote && k !in local
    ensures forall i, j :: 0 <= i < j < |remove| ==> remove[i] != remove[j]
  {
    addOrModify := CopyEntries(local);
    remove := [];
    var rest := remote.Keys;
    ghost var gone := Stale(local, remote);
    ScanStarts(local, remote, gone);
    while rest != {}
      invariant Scanned(local, remote, gone, rest, addOrModify, remove)
      decreases |rest|
    {
      var k :| k in rest;
      ScanStep(local, remote, gone, rest, addOrModify, remove, k);
      rest := rest - {k};
      if k in local && local[k] != remote[k] {
        continue;
      } else if k !in local {
        remove := remove + [k];
        addOrModify := addOrModify - {k};
      } else {
        addOrModify := addOrModify - {k};
      }
    }
    ScanEnds(local, remote, gone, addOrModify, remove);
  }

  method DiffTags(local: Store, remote: Store) returns (add: Store, remove: seq<Str>)
    ensures IsTagDiff(local, remote, add, remove)
    ensures forall k :: k in add <==> k in local && (k !in remote || remote[k] != local[k])
    ensures forall k :: k in add ==> add[k] == local[k]
    ensures forall k :: k in remove <==> k in remote && (k !in local || local[k] != remote[k])
    ensures forall i, j :: 0 <= i < j < |remove| ==> remove[i] != remove[j]
  {
    add := CopyEntries(local);
    remove := [];
    var rest := remote.Keys;
    ghost var gone := Outdated(local, remote);
    ScanStarts(local, remote, gone);
    while rest != {}
      invariant Scanned(local, remote, gone, rest, add, remove)
      decreases |rest|
    {
      var k :| k in rest;
      ScanStep(local, remote, gone, rest, add, remove, k);
      rest := rest - {k};
      if k in local && local[k] != remote[k] {
        remove := remove + [k];
      } else if k !in local {
        remove := remove + [k];
        add := add - {k};
      } else {
        add := add - {k};
      }
    }
    ScanEnds(local, remote, gone, add, remove);
  }

  // ----- DiffLabels is the shortest edit script, in any order

  lemma WrongSplits(local: Store, remote: Store)
    ensures Wrong(local, remote) == Missing(local, remote).Keys + Stale(local, remote)
    ensures Missing(local, remote).Keys !! Stale(local, remote)
  {
  }

  lemma LabelDiffSize(local: Store, remote: Store, addOrModify: Store, remove: seq<Str>)
    requires IsLabelDiff(local, remote, addOrModify, remove)
    ensures |addOrModify| + |remove| == |Wrong(local, remote)|
  {
    ArrangesSize(remove, Stale(local, remote));
    WrongSplits(local, remote);
    assert |addOrModify| == |addOrModify.Keys|;
  }

  lemma LabelDiffIsThePlan(local: Store, remote: Store, addOrModify: Store, remove: seq<Str>)
    requires IsLabelDiff(local, remote, addOrModify, remove)
    ensures Script(addOrModify, remove) == Plan(local, remote)
  {
    forall op
      ensures op in Script(addOrModify, remove) <==> op in Plan(local, remote)
    {
      WrongAt(local, remote, op.key);
    }
  }

  /**
   No sequence of puts and deletes that turns `remote` into `local` is shorter than
   the outputs of `DiffLabels`; and the sequences that reach this bound are exactly
   the orderings of those outputs.
   */
  lemma LabelDiffIsMinimal(local: Store, remote: Store, addOrModify: Store, remove: seq<Str>, ops: seq<Op>)
    requires IsLabelDiff(local, remote, addOrModify, remove)
    ensures Run(remote, ops) == local ==> |ops| >= |addOrModify| + |remove|
    ensures Run(remote, ops) == local && |ops| == |addOrModify| + |remove| <==>
            Arranges(ops, Script(addOrModify, remove))
  {
    LabelDiffIsThePlan(local, remote, addOrModify, remove);
    LabelDiffSize(local, remote, addOrModify, remove);
    ShortestScriptsArrangeThePlan(local, remote, ops);
    RunRepairsAtMostLength(local, remote, ops);
    NothingWrong(local, Run(remote, ops));
  }

  /**
   At every point of every ordering of the `DiffLabels` operations, each key holds
   either its old value or its desired one.
   */
  lemma LabelUpdateShowsOldOrNew(local: Store, remote: Store, addOrModify: Store, remove: seq<Str>,
                                 ops: seq<Op>, n: nat, k: Str)
    requires IsLabelDiff(local, remote, addOrModify, remove)
    requires Arranges(ops, Script(addOrModify, remove)) && n <= |ops|
    ensures Lookup(Run(remote, ops[..n]), k) ==
            if Fix(local, k) in ops[..n] then Lookup(local, k) else Lookup(remote, k)
  {
    LabelDiffIsThePlan(local, remote, addOrModify, remove);
    forall op | op in ops[..n] ensures op == Fix(local, op.key) {
      assert op in ops;
    }
    FixesRepairTheirKeys(local, remote, ops[..n]);
    if Fix(local, k) in ops[..n] {
      assert Fix(local, k).key in KeysOf(ops[..n]);
      WrongAt(local, Run(remote, ops[..n]), k);
    } else {
      RunElsewhere(remote, ops[..n], k);
    }
  }

  // ----- DiffTags: changed keys are both removed and added

  /** The operations `DiffTags` asks for: the plan, and a delete for every changed key. */
  function TagPlan(local: Store, remote: Store): (ops: set<Op>)
    ensures forall op :: op in ops <==>
              || (op.key in Wrong(local, remote) && op == Fix(local, op.key))
              || (op.key in Changed(local, remote) && op == Delete(op.key))
  {
    Plan(local, remote) + (set k | k in Changed(local, remote) :: Delete(k))
  }

  lemma TagDiffIsTheTagPlan(local: Store, remote: Store, add: Store, remove: seq<Str>)
    requires IsTagDiff(local, remote, add, remove)
    ensures Script(add, remove) == TagPlan(local, remote)
    ensures forall k :: k in add && k in remove <==> k in Changed(local, remote)
  {
    WrongSplits(local, remote);
  }

  /** No key is put and deleted again later. */
  ghost predicate DeletesFirst(ops: seq<Op>) {
    forall i, j :: 0 <= i < j < |ops| && ops[i].Put? && ops[j].Delete? ==> ops[i].key != ops[j].key
  }

  /** The value of every key after any prefix of a deletes-first ordering. */
  lemma TagPrefixAt(local: Store, remote: Store, ops: seq<Op>, n: nat, k: Str)
    requires Arranges(ops, TagPlan(local, remote)) && DeletesFirst(ops) && n <= |ops|
    ensures Lookup(Run(remote, ops[..n]), k) ==
            if k in Wrong(local, remote) && Fix(local, k) in ops[..n] then Lookup(local, k)
            else if Delete(k) in ops[..n] then None
            else Lookup(remote, k)
  {
    var p := ops[..n];
    assert forall op :: op in p ==> op in ops;
    if k in Wrong(local, remote) && Fix(local, k) in p {
      var i :| 0 <= i < n && p[i] == Fix(local, k);
      LastTagOp(local, remote, ops, n, i);
      RunAtLast(remote, p, i);
    } else if Delete(k) in p {
      var i :| 0 <= i < n && p[i] == Delete(k);
      LastTagOp(local, remote, ops, n, i);
      RunAtLast(remote, p, i);
    } else {
      RunElsewhere(remote, p, k);
    }
  }

  /** Within a prefix, a fix is the last operation on its key, and so is a delete whose put has not come yet. */
  lemma LastTagOp(local: Store, remote: Store, ops: seq<Op>, n: nat, i: nat)
    requires Arranges(ops, TagPlan(local, remote)) && DeletesFirst(ops) && i < n <= |ops|
    requires ops[i] == Fix(local, ops[i].key) || Fix(local, ops[i].key) !in ops[..n]
    ensures forall m :: i < m < n ==> ops[..n][m].key != ops[..n][i].key
  {
    forall m | i < m < n
      ensures ops[..n][m].key != ops[..n][i].key
    {
      assert ops[i] in ops && ops[m] in ops && ops[m] in ops[..n];
    }
  }

  /**
   Exact progress of an interrupted reconcile: after any prefix of a deletes-first
   ordering, the keys still wrong are those whose fix has not been applied. So a
   correct key is never disturbed and the distance to `local` never grows.
   */
  lemma TagPrefixProgress(local: Store, remote: Store, ops: seq<Op>, n: nat)
    requires Arranges(ops, TagPlan(local, remote)) && DeletesFirst(ops) && n <= |ops|
    ensures Wrong(local, Run(remote, ops[..n])) ==
            set k | k in Wrong(local, remote) && Fix(local, k) !in ops[..n]
    ensures n == |ops| ==> Run(remote, ops[..n]) == local
  {
    var now := Run(remote, ops[..n]);
    forall k
      ensures k in Wrong(local, now) <==> k in Wrong(local, remote) && Fix(local, k) !in ops[..n]
    {
      TagPrefixAt(local, remote, ops, n, k);
      WrongAt(local, now, k);
      WrongAt(local, remote, k);
      if Delete(k) in ops[..n] {
        assert Delete(k) in ops;
      }
    }
    if n == |ops| {
      assert ops[..n] == ops;
      forall k | k in Wrong(local, remote) ensures Fix(local, k) in ops {
        assert Fix(local, k) in TagPlan(local, remote);
      }
      NothingWrong(local, now);
    }
  }

  /**
   An ordering of the `DiffTags` operations ends in `local` if and only if every
   changed key is deleted before it is put.
   */
  lemma TagOrderMatters(local: Store, remote: Store, add: Store, remove: seq<Str>, ops: seq<Op>)
    requires IsTagDiff(local, remote, add, remove)
    requires Arranges(ops, Script(add, remove))
    ensures Run(remote, ops) == local <==> DeletesFirst(ops)
  {
    TagDiffIsTheTagPlan(local, remote, add, remove);
    if DeletesFirst(ops) {
      TagPrefixProgress(local, remote, ops, |ops|);
      assert ops[..|ops|] == ops;
    } else {
      var i, j :| 0 <= i < j < |ops| && ops[i].Put? && ops[j].Delete? && ops[i].key == ops[j].key;
      PutThenDeleteLosesTheKey(local, remote, ops, i, j);
    }
  }

  lemma PutThenDeleteLosesTheKey(local: Store, remote: Store, ops: seq<Op>, i: nat, j: nat)
    requires Arranges(ops, TagPlan(local, remote))
    requires i < j < |ops| && ops[i].Put? && ops[j].Delete? && ops[i].key == ops[j].key
    ensures ops[j].key in local && ops[j].key !in Run(remote, ops)
  {
    var k := ops[j].key;
    assert ops[i] in ops && ops[j] in ops;
    assert Fix(local, k) == ops[i];
    forall m | j < m < |ops| ensures ops[m].key != k {
      assert ops[m] in ops;
    }
    RunAtLast(remote, ops, j);
  }

  /** Deleting all of `remove` and then putting all of `add`, as the controllers do, is deletes-first. */
  lemma RemovesThenAddsIsDeletesFirst(removes: seq<Op>, adds: seq<Op>)
    requires forall op :: op in removes ==> op.Delete?
    requires forall op :: op in adds ==> op.Put?
    ensures DeletesFirst(removes + adds)
  {
    var ops := removes + adds;
    assert forall i :: 0 <= i < |removes| ==> ops[i] in removes;
    assert forall j :: |removes| <= j < |ops| ==> ops[j] in adds;
  }

  // ----- Any number of interrupted attempts

  /** One reconcile attempt: a diff of the current store, ordered deletes-first, cut off after `applied` operations. */
  datatype Attempt = Attempt(ops: seq<Op>, applied: nat)

  ghost predicate ValidAttempts(local: Store, s: Store, attempts: seq<Attempt>)
    decreases |attempts|
  {
    attempts == [] ||
    (&& Arranges(attempts[0].ops, TagPlan(local, s)) && DeletesFirst(attempts[0].ops)
     && attempts[0].applied <= |attempts[0].ops|
     && ValidAttempts(local, Run(s, attempts[0].ops[..attempts[0].applied]), attempts[1..]))
  }

  ghost function AfterAttempts(local: Store, s: Store, attempts: seq<Attempt>): Store
    requires ValidAttempts(local, s, attempts)
    decreases |attempts|
  {
    if attempts == [] then s
    else AfterAttempts(local, Run(s, attempts[0].ops[..attempts[0].applied]), attempts[1..])
  }

  /**
   Over any run of attempts, each diffing afresh and each interrupted anywhere, the
   set of wrong keys only shrinks; and once one attempt runs to its end, the store
   equals `local` whatever follows.
   */
  lemma {:induction false} InterruptedReconcilesAreSafe(local: Store, s: Store, attempts: seq<Attempt>)
    requires ValidAttempts(local, s, attempts)
    ensures Wrong(local, AfterAttempts(local, s, attempts)) <= Wrong(local, s)
    ensures (exists i :: 0 <= i < |attempts| && attempts[i].applied == |attempts[i].ops|) ==>
              AfterAttempts(local, s, attempts) == local
    decreases |attempts|
  {
    if attempts != [] {
      var a := attempts[0];
      var next := Run(s, a.ops[..a.applied]);
      TagPrefixProgress(local, s, a.ops, a.applied);
      InterruptedReconcilesAreSafe(local, next, attempts[1..]);
      if i :| 0 <= i < |attempts| && attempts[i].applied == |attempts[i].ops| {
        if i == 0 {
          NothingWrong(local, next);
          NothingWrong(local, AfterAttempts(local, s, attempts));
        } else {
          assert attempts[1..][i - 1] == attempts[i];
        }
      }
    }
  }

  /** The diffs of equal maps are empty, and only those. */
  lemma TagDiffEmptyIffEqual(local: Store, remote: Store, add: Store, remove: seq<Str>)
    requires IsTagDiff(local, remote, add, remove)
    ensures add == map[] && remove == [] <==> local == remote
  {
    WrongSplits(local, remote);
    NothingWrong(local, remote);
    if add == map[] && remove == [] {
      forall k ensures k !in Stale(local, remote) {
        assert k !in remove;
      }
    }
    assert remove != [] ==> remove[0] in remove;
  }

  /**
   Swapping the arguments of `DiffTags` exchanges removed and added keys; and the
   entries it leaves alone are counted alike on both sides.
   */
  lemma TagDiffDuality(local: Store, remote: Store, add: Store, remove: seq<Str>, add': Store, remove': seq<Str>)
    requires IsTagDiff(local, remote, add, remove)
    requires IsTagDiff(remote, local, add', remove')
    ensures Arranges(remove, add'.Keys) && Arranges(remove', add.Keys)
    ensures |local| - |add| == |remote| - |remove|
  {
    OutdatedIsMissing(local, remote);
    OutdatedIsMissing(remote, local);
    TagDiffConserves(local, remote, add, remove);
  }

  lemma OutdatedIsMissing(local: Store, remote: Store)
    ensures Outdated(local, remote) == Missing(remote, local).Keys
  {
  }

  lemma TagDiffConserves(local: Store, remote: Store, add: Store, remove: seq<Str>)
    requires IsTagDiff(local, remote, add, remove)
    ensures |local| - |add| == |remote| - |remove|
  {
    OutdatedIsMissing(local, remote);
    ArrangesSize(remove, Outdated(local, remote));
    SharedEntries(local, remote);
    SharedEntries(remote, local);
    assert Shared(local, remote) == Shared(remote, local);
    assert |add| == |add.Keys|;
  }

  function Shared(a: Store, b: Store): set<Str> {
    set k | k in a && k in b && a[k] == b[k]
  }

  lemma SharedEntries(a: Store, b: Store)
    ensures |a| == |Missing(a, b).Keys| + |Shared(a, b)|
  {
    assert a.Keys == Missing(a, b).Keys + Shared(a, b);
    assert |a| == |a.Keys|;
  }
}
