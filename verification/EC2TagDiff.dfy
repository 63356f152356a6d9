/** `DiffEC2Tags`: the diff of two tag lists, on all lists, with nil pointers and repeated keys. */
module EC2TagDiff {
  import opened GoValues
  import opened EditScripts
  import opened LabelDiff

  /** The SDK's tag: pointers to a key and a value, either of which may be nil. */
  datatype EC2Tag = EC2Tag(key: Option<Str>, value: Option<Str>) {
    function Key(): Str {
      StringValue(key)
    }

    function Value(): Str {
      StringValue(value)
    }
  }

  ghost predicate DistinctKeys(tags: seq<EC2Tag>) {
    forall i, j :: 0 <= i < j < |tags| ==> tags[i].Key() != tags[j].Key()
  }

  ghost predicate AllSet(tags: seq<EC2Tag>) {
    forall i :: 0 <= i < |tags| ==> tags[i].key.Some? && tags[i].value.Some?
  }

  /** The map a tag list stands for; the last entry of a repeated key wins. */
  function AsStore(tags: seq<EC2Tag>): Store {
    if tags == [] then map[]
    else
      var t := tags[|tags| - 1];
      AsStore(tags[..|tags| - 1])[t.Key() := t.Value()]
  }

  lemma {:induction false} AsStoreHas(tags: seq<EC2Tag>, k: Str)
    ensures k in AsStore(tags) <==> exists i :: 0 <= i < |tags| && tags[i].Key() == k
    decreases |tags|
  {
    if tags != [] {
      var n := |tags| - 1;
      AsStoreHas(tags[..n], k);
      if k in AsStore(tags[..n]) {
        var i :| 0 <= i < n && tags[..n][i].Key() == k;
        assert tags[i].Key() == k;
      }
      if i :| 0 <= i < n && tags[i].Key() == k {
        assert tags[..n][i].Key() == k;
      }
      assert tags[n].Key() in AsStore(tags);
    }
  }

  lemma {:induction false} AsStoreLast(tags: seq<EC2Tag>, i: nat)
    requires i < |tags|
    requires forall m :: i < m < |tags| ==> tags[m].Key() != tags[i].Key()
    ensures tags[i].Key() in AsStore(tags) && AsStore(tags)[tags[i].Key()] == tags[i].Value()
    decreases |tags|
  {
    var n := |tags| - 1;
    if i < n {
      assert tags[..n][i] == tags[i];
      AsStoreLast(tags[..n], i);
    }
  }

  lemma {:induction false} LastIndex(tags: seq<EC2Tag>, k: Str) returns (i: nat)
    requires k in AsStore(tags)
    ensures i < |tags| && tags[i].Key() == k
    ensures forall m :: i < m < |tags| ==> tags[m].Key() != k
    ensures AsStore(tags)[k] == tags[i].Value()
    decreases |tags|
  {
    var n := |tags| - 1;
    if tags[n].Key() == k {
      i := n;
    } else {
      i := LastIndex(tags[..n], k);
    }
  }

  // ----- What the diff returns on arbitrary lists

  predicate Matches(w: Store, t: EC2Tag) {
    t.Key() in w && w[t.Key()] == t.Value()
  }

  /** One of the first `n` remote entries equals the wanted entry of key `k`. */
  predicate MatchedIn(w: Store, remote: seq<EC2Tag>, n: nat, k: Str)
    requires n <= |remote|
  {
    exists j :: 0 <= j < n && remote[j].Key() == k && Matches(w, remote[j])
  }

  /** Remote entry `i` is removed: its key is not wanted, or an earlier entry already matched it. */
  predicate Drops(w: Store, remote: seq<EC2Tag>, i: nat)
    requires i < |remote|
  {
    remote[i].Key() !in w || MatchedIn(w, remote, i, remote[i].Key())
  }

  /** The removed positions, in order. */
  function Dropped(w: Store, remote: seq<EC2Tag>, n: nat): (d: seq<nat>)
    requires n <= |remote|
    ensures forall i :: 0 <= i < |d| ==> d[i] < n
    ensures forall i, j :: 0 <= i < j < |d| ==> d[i] < d[j]
    ensures forall x: nat :: x in d <==> x < n && Drops(w, remote, x)
  {
    if n == 0 then []
    else
      var d := Dropped(w, remote, n - 1);
      if Drops(w, remote, n - 1) then d + [n - 1] else d
  }

  /** The wanted entries that none of the first `n` remote entries matches. */
  function Unmatched(w: Store, remote: seq<EC2Tag>, n: nat): Store
    requires n <= |remote|
  {
    map k | k in w && !MatchedIn(w, remote, n, k) :: w[k]
  }

  /** The delete requests for some remote positions: their keys, with nil values. */
  function Removals(remote: seq<EC2Tag>, d: seq<nat>): (remove: seq<EC2Tag>)
    requires forall i :: 0 <= i < |d| ==> d[i] < |remote|
    ensures |remove| == |d|
    ensures forall i :: 0 <= i < |d| ==> remove[i] == EC2Tag(remote[d[i]].key, None)
  {
    seq(|d|, i requires 0 <= i < |d| => EC2Tag(remote[d[i]].key, None))
  }

  ghost predicate IsEC2Diff(local: seq<EC2Tag>, remote: seq<EC2Tag>, add: seq<EC2Tag>, remove: seq<EC2Tag>) {
    var w := AsStore(local);
    var d := Dropped(w, remote, |remote|);
    && AllSet(add) && DistinctKeys(add) && AsStore(add) == Unmatched(w, remote, |remote|)
    && remove == Removals(remote, d)
  }

  function Keys(tags: seq<EC2Tag>): (ks: seq<Str>)
    ensures |ks| == |tags|
    ensures forall i :: 0 <= i < |tags| ==> ks[i] == tags[i].Key()
  {
    seq(|tags|, i requires 0 <= i < |tags| => tags[i].Key())
  }

  // ----- The loops

  lemma UnmatchedStep(w: Store, remote: seq<EC2Tag>, n: nat)
    requires n < |remote|
    ensures var t := remote[n];
            && (t.Key() !in Unmatched(w, remote, n) <==> Drops(w, remote, n))
            && Unmatched(w, remote, n + 1) ==
               if Matches(w, t) then Unmatched(w, remote, n) - {t.Key()} else Unmatched(w, remote, n)
  {
    forall k | k in w
      ensures MatchedIn(w, remote, n + 1, k) <==>
              MatchedIn(w, remote, n, k) || (k == remote[n].Key() && Matches(w, remote[n]))
    {
      if k == remote[n].Key() && Matches(w, remote[n]) {
        assert MatchedIn(w, remote, n + 1, k);
      }
    }
  }

  /** Where the scan of the first `n` remote entries stands. */
  ghost predicate TagScanned(w: Store, remote: seq<EC2Tag>, n: nat, tagsToAdd: Store, remove: seq<EC2Tag>)
    requires n <= |remote|
  {
    tagsToAdd == Unmatched(w, remote, n) && remove == Removals(remote, Dropped(w, remote, n))
  }

  lemma TagScanStep(w: Store, remote: seq<EC2Tag>, n: nat, tagsToAdd: Store, remove: seq<EC2Tag>)
    requires n < |remote| && TagScanned(w, remote, n, tagsToAdd, remove)
    ensures var t := remote[n];
            TagScanned(w, remote, n + 1,
                       if t.Key() in tagsToAdd && tagsToAdd[t.Key()] == t.Value() then tagsToAdd - {t.Key()}
                       else tagsToAdd,
                       if t.Key() !in tagsToAdd then remove + [EC2Tag(t.key, None)] else remove)
  {
    UnmatchedStep(w, remote, n);
    var d := Dropped(w, remote, n);
    assert Removals(remote, d + [n]) == Removals(remote, d) + [EC2Tag(remote[n].key, None)];
  }

  method DiffEC2Tags(local: seq<EC2Tag>, remote: seq<EC2Tag>) returns (add: seq<EC2Tag>, remove: seq<EC2Tag>)
    ensures IsEC2Diff(local, remote, add, remove)
  {
    var tagsToAdd: Store := map[];
    for i := 0 to |local|
      invariant tagsToAdd == AsStore(local[..i])
    {
      assert local[..i + 1][..i] == local[..i];
      tagsToAdd := tagsToAdd[local[i].Key() := local[i].Value()];
    }
    assert local[..|local|] == local;
    ghost var w := AsStore(local);
    assert Unmatched(w, remote, 0) == w;
    remove := [];
    for i := 0 to |remote|
      invariant TagScanned(w, remote, i, tagsToAdd, remove)
    {
      var j := remote[i];
      TagScanStep(w, remote, i, tagsToAdd, remove);
      if j.Key() in tagsToAdd && tagsToAdd[j.Key()] == j.Value() {
        tagsToAdd := tagsToAdd - {j.Key()};
      } else if j.Key() !in tagsToAdd {
        remove := remove + [EC2Tag(j.key, None)];
      }
    }
    add := ListEntries(tagsToAdd);
  }

  /** Nil keys and values stand for empty strings. */
  lemma NilEntryIsEmpty(t: EC2Tag)
    ensures t.Key() == if t.key.Some? then t.key.value else []
    ensures t.Value() == if t.value.Some? then t.value.value else []
    ensures AsStore([t]) == map[t.Key() := t.Value()]
  {
    assert [t][..0] == [];
  }

  /** A remote nil value matches a wanted empty one. */
  lemma NilMatchesEmpty(k: Str, add: seq<EC2Tag>, remove: seq<EC2Tag>)
    requires IsEC2Diff([EC2Tag(Some(k), Some([]))], [EC2Tag(Some(k), None)], add, remove)
    ensures add == [] && remove == []
  {
    var local, remote := [EC2Tag(Some(k), Some([]))], [EC2Tag(Some(k), None)];
    NilEntryIsEmpty(local[0]);
    NilEntryIsEmpty(remote[0]);
    assert Matches(AsStore(local), remote[0]);
    assert Dropped(AsStore(local), remote, 0) == [] && !Drops(AsStore(local), remote, 0);
    assert Dropped(AsStore(local), remote, 1) == [];
    if add != [] {
      AsStoreHas(add, add[0].Key());
    }
  }

  /** Entry `i` is the last of its key, so the one that counts. */
  ghost predicate Counts(local: seq<EC2Tag>, i: nat) {
    i < |local| && forall m :: i < m < |local| ==> local[m].Key() != local[i].Key()
  }

  /** Entry `t` equals the local entry that counts for its key. */
  ghost predicate Wanted(local: seq<EC2Tag>, t: EC2Tag) {
    exists i :: 0 <= i < |local| && Counts(local, i) && local[i].Key() == t.Key() && local[i].Value() == t.Value()
  }

  lemma WantedMatches(local: seq<EC2Tag>, t: EC2Tag)
    ensures Matches(AsStore(local), t) <==> Wanted(local, t)
  {
    if Matches(AsStore(local), t) {
      var i := LastIndex(local, t.Key());
    }
    if i :| 0 <= i < |local| && Counts(local, i) && local[i].Key() == t.Key() && local[i].Value() == t.Value() {
      AsStoreLast(local, i);
    }
  }

  /**
   The diff in terms of the two lists alone: what is added are the local entries that
   count and that no remote entry equals; what is removed, in remote order and without
   value, are the entries whose key is not local or was matched earlier.
   */
  lemma EC2DiffMeans(local: seq<EC2Tag>, remote: seq<EC2Tag>, add: seq<EC2Tag>, remove: seq<EC2Tag>)
    returns (d: seq<nat>)
    requires IsEC2Diff(local, remote, add, remove)
    ensures forall t :: t in add <==>
              && t.key.Some? && t.value.Some? && Wanted(local, t)
              && forall j :: 0 <= j < |remote| ==> remote[j].Key() != t.Key() || remote[j].Value() != t.Value()
    ensures forall i, j :: 0 <= i < j < |add| ==> add[i].key != add[j].key
    ensures |d| == |remove| && forall x, y :: 0 <= x < y < |d| ==> d[x] < d[y]
    ensures forall x :: 0 <= x < |d| ==> d[x] < |remote| && remove[x] == EC2Tag(remote[d[x]].key, None)
    ensures forall i: nat :: i in d <==>
              && i < |remote|
              && ((forall m :: 0 <= m < |local| ==> local[m].Key() != remote[i].Key()) ||
                  (exists j :: 0 <= j < i && remote[j].Key() == remote[i].Key() && Wanted(local, remote[j])))
  {
    var w := AsStore(local);
    d := Dropped(w, remote, |remote|);
    forall t ensures t in add <==>
                     && t.key.Some? && t.value.Some? && Wanted(local, t)
                     && forall j :: 0 <= j < |remote| ==> remote[j].Key() != t.Key() || remote[j].Value() != t.Value()
    {
      AddedMeans(local, remote, add, remove, t);
    }
    forall i: nat | i < |remote|
      ensures Drops(w, remote, i) <==>
              (forall m :: 0 <= m < |local| ==> local[m].Key() != remote[i].Key()) ||
              (exists j :: 0 <= j < i && remote[j].Key() == remote[i].Key() && Wanted(local, remote[j]))
    {
      AsStoreHas(local, remote[i].Key());
      forall j | 0 <= j < i ensures Matches(w, remote[j]) <==> Wanted(local, remote[j]) {
        WantedMatches(local, remote[j]);
      }
    }
  }

  lemma AddedMeans(local: seq<EC2Tag>, remote: seq<EC2Tag>, add: seq<EC2Tag>, remove: seq<EC2Tag>, t: EC2Tag)
    requires IsEC2Diff(local, remote, add, remove)
    ensures t in add <==>
            && t.key.Some? && t.value.Some? && Wanted(local, t)
            && forall j :: 0 <= j < |remote| ==> remote[j].Key() != t.Key() || remote[j].Value() != t.Value()
  {
    var w := AsStore(local);
    WantedMatches(local, t);
    if t in add {
      var i :| 0 <= i < |add| && add[i] == t;
      AsStoreLast(add, i);
    }
    if t.key.Some? && t.value.Some? && t.Key() in AsStore(add) && AsStore(add)[t.Key()] == t.Value() {
      var i := LastIndex(add, t.Key());
      assert add[i] == t;
    }
  }

  lemma AppendEntry(tags: seq<EC2Tag>, k: Str, v: Str)
    requires AllSet(tags) && DistinctKeys(tags) && k !in AsStore(tags)
    ensures var tags' := tags + [EC2Tag(Some(k), Some(v))];
            AllSet(tags') && DistinctKeys(tags') && AsStore(tags') == AsStore(tags)[k := v]
  {
    var tags' := tags + [EC2Tag(Some(k), Some(v))];
    assert tags'[..|tags|] == tags;
    AsStoreHas(tags, k);
  }

  /** `for i, j := range m { add = append(add, ...) }`: the entries of a map, in any order. */
  method ListEntries(m: Store) returns (add: seq<EC2Tag>)
    ensures AllSet(add) && DistinctKeys(add) && AsStore(add) == m
  {
    add := [];
    var rest := m.Keys;
    while rest != {}
      invariant rest <= m.Keys
      invariant AllSet(add) && DistinctKeys(add)
      invariant AsStore(add).Keys == m.Keys - rest
      invariant forall k :: k in AsStore(add) ==> AsStore(add)[k] == m[k]
      decreases |rest|
    {
      var k :| k in rest;
      rest := rest - {k};
      AppendEntry(add, k, m[k]);
      add := add + [EC2Tag(Some(k), Some(m[k]))];
    }
  }

  // ----- When the diff does its job

  /** Some entry repeats the key of an earlier entry that matched exactly. */
  ghost predicate RepeatsAfterMatch(w: Store, remote: seq<EC2Tag>) {
    exists i, j :: 0 <= i < j < |remote| && remote[i].Key() == remote[j].Key() && Matches(w, remote[i])
  }

  /** Some entry repeats the key of an earlier entry that matched exactly or is not wanted. */
  ghost predicate RepeatsAfterSettled(w: Store, remote: seq<EC2Tag>) {
    exists i, j :: && 0 <= i < j < |remote| && remote[i].Key() == remote[j].Key()
                   && (remote[i].Key() !in w || Matches(w, remote[i]))
  }

  /** Which keys are removed: `k` is, exactly when some entry with that key is dropped. */
  lemma RemovedKeys(local: seq<EC2Tag>, remote: seq<EC2Tag>, add: seq<EC2Tag>, remove: seq<EC2Tag>, k: Str)
    requires IsEC2Diff(local, remote, add, remove)
    ensures k in Keys(remove) <==>
            exists i: nat :: i < |remote| && remote[i].Key() == k && Drops(AsStore(local), remote, i)
  {
    var d := Dropped(AsStore(local), remote, |remote|);
    if k in Keys(remove) {
      var x :| 0 <= x < |remove| && Keys(remove)[x] == k;
      assert d[x] in d;
      assert remote[d[x]].Key() == k;
    }
    if i: nat :| i < |remote| && remote[i].Key() == k && Drops(AsStore(local), remote, i) {
      assert i in d;
      var x :| 0 <= x < |d| && d[x] == i;
      assert Keys(remove)[x] == k;
    }
  }

  /** Without repeats after a match, a wanted key is matched exactly when the remote map holds its value. */
  lemma MatchedIsHeld(w: Store, remote: seq<EC2Tag>, k: Str)
    requires !RepeatsAfterMatch(w, remote) && k in w
    ensures MatchedIn(w, remote, |remote|, k) <==> Lookup(AsStore(remote), k) == Some(w[k])
  {
    if MatchedIn(w, remote, |remote|, k) {
      var j :| 0 <= j < |remote| && remote[j].Key() == k && Matches(w, remote[j]);
      AsStoreLast(remote, j);
    }
    if k in AsStore(remote) {
      var i := LastIndex(remote, k);
    }
  }

  /** ... and only unwanted keys are removed. */
  lemma RemovedIsStale(local: seq<EC2Tag>, remote: seq<EC2Tag>, add: seq<EC2Tag>, remove: seq<EC2Tag>, k: Str)
    requires IsEC2Diff(local, remote, add, remove)
    requires !RepeatsAfterMatch(AsStore(local), remote)
    ensures k in Keys(remove) <==> k in Stale(AsStore(local), AsStore(remote))
  {
    RemovedKeys(local, remote, add, remove, k);
    AsStoreHas(remote, k);
  }

  /** A repeat after a match removes a wanted key without adding it back. */
  lemma RepeatLosesTheKey(local: seq<EC2Tag>, remote: seq<EC2Tag>, add: seq<EC2Tag>, remove: seq<EC2Tag>)
    returns (k: Str)
    requires IsEC2Diff(local, remote, add, remove)
    requires RepeatsAfterMatch(AsStore(local), remote)
    ensures k in AsStore(local) && k !in AsStore(add) && k in Keys(remove)
  {
    var w := AsStore(local);
    var i, j :| 0 <= i < j < |remote| && remote[i].Key() == remote[j].Key() && Matches(w, remote[i]);
    k := remote[i].Key();
    assert MatchedIn(w, remote, j, k) && MatchedIn(w, remote, |remote|, k);
    assert Drops(w, remote, j);
    RemovedKeys(local, remote, add, remove, k);
  }

  /** `ops` carries out the two outputs of a diff, in any order, possibly with repeats. */
  ghost predicate CarriesOut(ops: seq<Op>, add: seq<EC2Tag>, remove: seq<EC2Tag>) {
    forall op :: op in ops <==> op in Script(AsStore(add), Keys(remove))
  }

  /**
   Carrying out the diff, deletes and creates in any order, turns the remote map
   into the wanted one if and only if no remote entry repeats a key after an exact
   match of it. In particular distinct remote keys suffice.
   */
  lemma EC2DiffConvergesIff(local: seq<EC2Tag>, remote: seq<EC2Tag>, add: seq<EC2Tag>, remove: seq<EC2Tag>,
                            ops: seq<Op>)
    requires IsEC2Diff(local, remote, add, remove) && CarriesOut(ops, add, remove)
    ensures Run(AsStore(remote), ops) == AsStore(local) <==> !RepeatsAfterMatch(AsStore(local), remote)
  {
    var w, s := AsStore(local), AsStore(remote);
    if RepeatsAfterMatch(w, remote) {
      var k := RepeatLosesTheKey(local, remote, add, remove);
      RunAgreed(s, ops, Delete(k));
    } else {
      forall op | op in ops ensures op == Fix(w, op.key) {
        RemovedIsStale(local, remote, add, remove, op.key);
      }
      FixesRepairTheirKeys(w, s, ops);
      forall k | k in Wrong(w, s) ensures k in KeysOf(ops) {
        RemovedIsStale(local, remote, add, remove, k);
        if k in w {
          MatchedIsHeld(w, remote, k);
        }
        assert Fix(w, k) in Script(AsStore(add), Keys(remove));
        assert Fix(w, k) in ops;
      }
      NothingWrong(w, Run(s, ops));
    }
  }

  /**
   `DiffEC2Tags` refines `DiffLabels` on the maps the lists stand for if and only
   if no remote entry repeats a key after an entry that matched or is not wanted.
   */
  lemma EC2DiffRefinesLabelDiffIff(local: seq<EC2Tag>, remote: seq<EC2Tag>, add: seq<EC2Tag>, remove: seq<EC2Tag>)
    requires IsEC2Diff(local, remote, add, remove)
    ensures IsLabelDiff(AsStore(local), AsStore(remote), AsStore(add), Keys(remove)) <==>
            !RepeatsAfterSettled(AsStore(local), remote)
  {
    var w, s := AsStore(local), AsStore(remote);
    if RepeatsAfterSettled(w, remote) {
      RepeatBreaksRefinement(local, remote, add, remove);
    } else {
      assert !RepeatsAfterMatch(w, remote);
      forall k | k in w
        ensures MatchedIn(w, remote, |remote|, k) <==> Lookup(s, k) == Some(w[k])
      {
        MatchedIsHeld(w, remote, k);
      }
      assert Unmatched(w, remote, |remote|) == Missing(w, s);
      forall k ensures k in Keys(remove) <==> k in Stale(w, s) {
        RemovedIsStale(local, remote, add, remove, k);
      }
      RemovedOnce(local, remote, add, remove);
    }
  }

  lemma RemovedOnce(local: seq<EC2Tag>, remote: seq<EC2Tag>, add: seq<EC2Tag>, remove: seq<EC2Tag>)
    requires IsEC2Diff(local, remote, add, remove)
    requires !RepeatsAfterSettled(AsStore(local), remote)
    ensures Distinct(Keys(remove))
  {
    var w := AsStore(local);
    var d := Dropped(w, remote, |remote|);
    forall x, y | 0 <= x < y < |remove|
      ensures Keys(remove)[x] != Keys(remove)[y]
    {
      assert d[x] in d && d[y] in d;
      assert Drops(w, remote, d[x]) && Drops(w, remote, d[y]);
    }
  }

  lemma RepeatBreaksRefinement(local: seq<EC2Tag>, remote: seq<EC2Tag>, add: seq<EC2Tag>, remove: seq<EC2Tag>)
    requires IsEC2Diff(local, remote, add, remove)
    requires RepeatsAfterSettled(AsStore(local), remote)
    ensures !Arranges(Keys(remove), Stale(AsStore(local), AsStore(remote)))
  {
    var w := AsStore(local);
    if RepeatsAfterMatch(w, remote) {
      var k := RepeatLosesTheKey(local, remote, add, remove);
    } else {
      var d := Dropped(w, remote, |remote|);
      var i, j :| 0 <= i < j < |remote| && remote[i].Key() == remote[j].Key() && remote[i].Key() !in w;
      assert Drops(w, remote, i) && Drops(w, remote, j);
      assert i in d && j in d;
      var x :| 0 <= x < |d| && d[x] == i;
      var y :| 0 <= y < |d| && d[y] == j;
      assert Keys(remove)[x] == Keys(remove)[y] && x != y;
    }
  }

  /** The diff is empty if and only if the maps agree and nothing repeats after a match. */
  lemma EC2DiffEmptyIff(local: seq<EC2Tag>, remote: seq<EC2Tag>, add: seq<EC2Tag>, remove: seq<EC2Tag>)
    requires IsEC2Diff(local, remote, add, remove)
    ensures add == [] && remove == [] <==>
            AsStore(remote) == AsStore(local) && !RepeatsAfterMatch(AsStore(local), remote)
  {
    var w, s := AsStore(local), AsStore(remote);
    if add == [] && remove == [] {
      assert CarriesOut([], add, remove);
      if RepeatsAfterMatch(w, remote) {
        var k := RepeatLosesTheKey(local, remote, add, remove);
        assert false;
      }
      EC2DiffConvergesIff(local, remote, add, remove, []);
    }
    if s == w && !RepeatsAfterMatch(w, remote) {
      if add != [] {
        var k := add[0].Key();
        AsStoreHas(add, k);
        MatchedIsHeld(w, remote, k);
        assert false;
      }
      if remove != [] {
        RemovedIsStale(local, remote, add, remove, Keys(remove)[0]);
        assert false;
      }
    }
  }

  lemma DistinctNeverRepeats(w: Store, remote: seq<EC2Tag>)
    requires DistinctKeys(remote)
    ensures !RepeatsAfterMatch(w, remote) && !RepeatsAfterSettled(w, remote)
  {
  }

  /** The failure on repeated keys is real: the wanted tag, reported twice, gets deleted. */
  lemma RepeatedMatchIsDeleted(k: Str, v: Str, add: seq<EC2Tag>, remove: seq<EC2Tag>, ops: seq<Op>)
    requires var t := EC2Tag(Some(k), Some(v)); IsEC2Diff([t], [t, t], add, remove)
    requires CarriesOut(ops, add, remove)
    ensures k !in Run(map[k := v], ops)
  {
    var t := EC2Tag(Some(k), Some(v));
    assert [t][..0] == [] && [t, t][..1] == [t];
    assert AsStore([t]) == map[k := v];
    assert [t, t][0].Key() == [t, t][1].Key() && Matches(AsStore([t]), [t, t][0]);
    var lost := RepeatLosesTheKey([t], [t, t], add, remove);
    RunAgreed(map[k := v], ops, Delete(k));
  }
}
