/**
 How comparing and diffing fit together: when `CompareTags` reports equality, when it
 agrees with `DiffEC2Tags`, and what the observe-compare-diff-apply loop of an EC2
 controller does to the tags of a resource over any run.
 */
module TagReconcile {
  import opened GoValues
  import opened EditScripts
  import opened LabelDiff
  import opened EC2TagDiff
  import opened TagCompare

  ghost predicate DistinctTagKeys(tags: seq<Tag>) {
    forall i, j :: 0 <= i < j < |tags| ==> tags[i].key != tags[j].key
  }

  // ----- Order of the inputs, and ties

  /** What `CompareTags` may return depends on the entries of the two lists, not on their order. */
  lemma CompareIgnoresOrder(tags: seq<Tag>, tags': seq<Tag>, ec2: seq<EC2Tag>, ec2': seq<EC2Tag>, r: Outcome)
    requires multiset(tags) == multiset(tags') && multiset(ec2) == multiset(ec2')
    ensures CanReturn(tags, ec2, r) <==> CanReturn(tags', ec2', r)
  {
    SameLength(tags, tags');
    SameLength(ec2, ec2');
    NilKeyPermutes(ec2, ec2');
    if |tags| == |ec2| && !NilKey(ec2) {
      if CanReturn(tags, ec2, r) {
        var s, t :| SortOf(s, tags, TagKey) && SortOf(t, ec2, EC2Key) && |s| == |t| && r == Scan(s, t, 0);
        assert SortOf(s, tags', TagKey) && SortOf(t, ec2', EC2Key);
      }
      if CanReturn(tags', ec2', r) {
        var s, t :| SortOf(s, tags', TagKey) && SortOf(t, ec2', EC2Key) && |s| == |t| && r == Scan(s, t, 0);
        assert SortOf(s, tags, TagKey) && SortOf(t, ec2, EC2Key);
      }
    }
  }

  lemma AppendLargest(s: seq<Tag>, x: Tag)
    requires SortedBy(s, TagKey) && forall i :: 0 <= i < |s| ==> AtMost(s[i].key, x.key)
    ensures SortedBy(s + [x], TagKey)
  {
  }

  lemma LastIsLargest(s: seq<Tag>, x: Tag)
    requires SortedBy(s, TagKey) && s != [] && AtMost(s[|s| - 1].key, x.key)
    ensures forall i :: 0 <= i < |s| ==> AtMost(s[i].key, x.key)
  {
    var n := |s| - 1;
    forall i | 0 <= i < n ensures AtMost(s[i].key, x.key) {
      assert InOrder(TagKey(s[i]), TagKey(s[n]));
      Transitive(s[i].key, s[n].key, x.key);
    }
  }

  lemma {:induction false} Insert(s: seq<Tag>, x: Tag) returns (t: seq<Tag>)
    requires SortedBy(s, TagKey)
    ensures SortOf(t, s + [x], TagKey)
    decreases |s|
  {
    var n := |s| - 1;
    if s == [] {
      t := [x];
    } else if !Less(x.key, s[n].key) {
      LastIsLargest(s, x);
      AppendLargest(s, x);
      t := s + [x];
    } else {
      var u := Insert(s[..n], x);
      forall i | 0 <= i < |u| ensures AtMost(u[i].key, s[n].key) {
        SameMembers(u, s[..n] + [x], u[i]);
        BelowLast(s, x, u[i]);
      }
      AppendLargest(u, s[n]);
      t := u + [s[n]];
      assert s == s[..n] + [s[n]];
      assert multiset(t) == multiset(u) + multiset{s[n]};
    }
  }

  lemma BelowLast(s: seq<Tag>, x: Tag, y: Tag)
    requires SortedBy(s, TagKey) && s != [] && Less(x.key, s[|s| - 1].key)
    requires y in s[..|s| - 1] + [x]
    ensures AtMost(y.key, s[|s| - 1].key)
  {
    var n := |s| - 1;
    Trichotomy(x.key, s[n].key);
    if y != x {
      assert y in s[..n];
      var i :| 0 <= i < n && s[i] == y;
      assert InOrder(TagKey(s[i]), TagKey(s[n]));
    }
  }

  lemma {:induction false} SortedArrangement(tags: seq<Tag>) returns (s: seq<Tag>)
    ensures SortOf(s, tags, TagKey)
    decreases |tags|
  {
    if tags == [] {
      s := [];
    } else {
      var n := |tags| - 1;
      var u := SortedArrangement(tags[..n]);
      s := Insert(u, tags[n]);
      assert tags == tags[..n] + [tags[n]];
    }
  }

  /** A key with two values has two arrangements, and the scan can tell them apart. */
  lemma TiesCanDiffer(tags: seq<Tag>, ec2: seq<EC2Tag>)
    requires AllSet(ec2) && multiset(tags) == multiset(Build(ec2)) && !OneValuePerKey(tags)
    ensures CanReturn(tags, ec2, Returned(false))
  {
    var s := SortedArrangement(tags);
    var x, y :| x in tags && y in tags && x.key == y.key && x != y;
    SameMembers(s, tags, x);
    SameMembers(s, tags, y);
    var i :| 0 <= i < |s| && s[i] == x;
    var j :| 0 <= j < |s| && s[j] == y;
    var u := Swap(s, i, j);
    var t := Generate(u);
    SwapPermutes(s, i, j);
    MapPermutes(ToEC2, u, Build(ec2));
    ConversionsUndoEachOther(u, ec2);
    SwapKeepsOrder(s, i, j);
    SameLength(s, u);
    SameLength(tags, Build(ec2));
    ScanDecides(s, t, 0);
    assert s[0..] == s && Build(t)[0..] == u && u[i] != s[i];
    NoNilKeys(ec2);
    assert SortOf(t, ec2, EC2Key);
  }

  lemma SwapKeepsOrder(s: seq<Tag>, i: nat, j: nat)
    requires SortedBy(s, TagKey) && i < |s| && j < |s| && s[i].key == s[j].key
    ensures SortedBy(Generate(Swap(s, i, j)), EC2Key)
  {
    var t := Generate(Swap(s, i, j));
    forall p, q | 0 <= p < q < |t| ensures InOrder(EC2Key(t[p]), EC2Key(t[q])) {
      assert InOrder(TagKey(s[p]), TagKey(s[q]));
    }
  }

  lemma NoNilKeys(ec2: seq<EC2Tag>)
    requires AllSet(ec2)
    ensures !NilKey(ec2)
  {
  }

  /**
   Two lists with the same entries are sure to compare equal if and only if no key
   carries two values; otherwise a sort that breaks ties differently makes
   `CompareTags` report a difference.
   */
  lemma SameEntriesCompareEqualIff(tags: seq<Tag>, ec2: seq<EC2Tag>)
    requires AllSet(ec2) && multiset(tags) == multiset(Build(ec2))
    ensures (forall r :: CanReturn(tags, ec2, r) ==> r == Returned(true)) <==> OneValuePerKey(tags)
  {
    if OneValuePerKey(tags) {
      forall r | CanReturn(tags, ec2, r) ensures r == Returned(true) {
        CompareIsComplete(tags, ec2, r);
      }
    } else {
      TiesCanDiffer(tags, ec2);
    }
  }

  // ----- Lists and maps

  /** A list with one value per key holds an entry exactly when the map it stands for does. */
  lemma EntryInStore(tags: seq<EC2Tag>, x: Tag)
    requires OneValuePerKey(Build(tags))
    ensures x in Build(tags) <==> Lookup(AsStore(tags), x.key) == Some(x.value)
  {
    var b := Build(tags);
    if x in b {
      var i :| 0 <= i < |b| && b[i] == x;
      AsStoreHas(tags, x.key);
    }
    if x.key in AsStore(tags) {
      var i := LastIndex(tags, x.key);
      assert b[i] in b && b[i] == Tag(x.key, AsStore(tags)[x.key]);
    }
  }

  lemma DistinctHasOneValue(tags: seq<EC2Tag>)
    requires DistinctKeys(tags)
    ensures OneValuePerKey(Build(tags))
  {
    var b := Build(tags);
    forall x, y | x in b && y in b && x.key == y.key ensures x == y {
      var i :| 0 <= i < |b| && b[i] == x;
      var j :| 0 <= j < |b| && b[j] == y;
    }
  }

  lemma {:induction false} DistinctCounts<T>(xs: seq<T>, x: T)
    requires Distinct(xs)
    ensures multiset(xs)[x] == if x in xs then 1 else 0
    decreases |xs|
  {
    if xs != [] {
      assert xs == [xs[0]] + xs[1..];
      DistinctCounts(xs[1..], x);
    }
  }

  lemma SameSetSameEntries(xs: seq<Tag>, ys: seq<Tag>)
    requires Distinct(xs) && Distinct(ys) && forall x :: x in xs <==> x in ys
    ensures multiset(xs) == multiset(ys)
  {
    forall x ensures multiset(xs)[x] == multiset(ys)[x] {
      DistinctCounts(xs, x);
      DistinctCounts(ys, x);
    }
  }

  /** Having distinct keys is a property of the entries, not of their order. */
  lemma DistinctTagKeysPermute(xs: seq<Tag>, ys: seq<Tag>)
    requires multiset(xs) == multiset(ys) && DistinctTagKeys(ys)
    ensures DistinctTagKeys(xs)
  {
    forall i, j | 0 <= i < j < |xs| ensures xs[i].key != xs[j].key {
      SameMembers(xs, ys, xs[i]);
      SameMembers(xs, ys, xs[j]);
      var p :| 0 <= p < |ys| && ys[p] == xs[i];
      var q :| 0 <= q < |ys| && ys[q] == xs[j];
      DistinctCounts(ys, xs[i]);
      if xs[i] == xs[j] {
        CountedTwice(xs, i, j);
      }
    }
  }

  lemma CountedTwice<T>(xs: seq<T>, i: nat, j: nat)
    requires i < j < |xs| && xs[i] == xs[j]
    ensures multiset(xs)[xs[i]] >= 2
  {
    assert xs == xs[..j] + [xs[j]] + xs[j + 1..];
    assert xs[i] in xs[..j];
  }

  /**
   Against tags as EC2 reports them (set pointers, distinct keys), `CompareTags`
   returns, and returns true exactly when the desired list has distinct keys and
   both lists stand for the same map.
   */
  lemma CompareDecides(tags: seq<Tag>, ec2: seq<EC2Tag>, r: Outcome)
    requires AllSet(ec2) && DistinctKeys(ec2) && CanReturn(tags, ec2, r)
    ensures r == Returned(DistinctTagKeys(tags) && AsStore(Generate(tags)) == AsStore(ec2))
  {
    var b, g := Build(ec2), Generate(tags);
    CompareIsSound(tags, ec2, r);
    ConversionsUndoEachOther(tags, ec2);
    DistinctHasOneValue(ec2);
    if DistinctTagKeys(tags) {
      DistinctHasOneValue(g);
    }
    if r.value {
      DistinctTagKeysPermute(tags, b);
      DistinctHasOneValue(g);
      forall x: Tag ensures x in Build(g) <==> x in b {
        SameMembers(tags, b, x);
      }
      SameEntriesEqualStores(g, ec2);
    }
    if DistinctTagKeys(tags) && AsStore(g) == AsStore(ec2) {
      forall x ensures x in tags <==> x in b {
        EntryInStore(g, x);
        EntryInStore(ec2, x);
      }
      SameSetSameEntries(tags, b);
      CompareIsComplete(tags, ec2, r);
    }
  }

  lemma SameEntriesEqualStores(a: seq<EC2Tag>, b: seq<EC2Tag>)
    requires OneValuePerKey(Build(a)) && OneValuePerKey(Build(b))
    requires forall x :: x in Build(a) <==> x in Build(b)
    ensures AsStore(a) == AsStore(b)
  {
    forall k ensures Lookup(AsStore(a), k) == Lookup(AsStore(b), k) {
      if k in AsStore(a) {
        EntryInStore(a, Tag(k, AsStore(a)[k]));
        EntryInStore(b, Tag(k, AsStore(a)[k]));
      } else if k in AsStore(b) {
        EntryInStore(a, Tag(k, AsStore(b)[k]));
        EntryInStore(b, Tag(k, AsStore(b)[k]));
      }
    }
    SameLookups(AsStore(a), AsStore(b));
  }

  /**
   Comparing and diffing agree exactly up to repeated desired keys: the comparison
   is true if and only if the diff is empty and no desired key is repeated.
   */
  lemma CompareAgreesWithDiff(tags: seq<Tag>, ec2: seq<EC2Tag>, r: Outcome, add: seq<EC2Tag>, remove: seq<EC2Tag>)
    requires AllSet(ec2) && DistinctKeys(ec2) && CanReturn(tags, ec2, r)
    requires IsEC2Diff(Generate(tags), ec2, add, remove)
    ensures r == Returned(true) <==> DistinctTagKeys(tags) && add == [] && remove == []
  {
    CompareDecides(tags, ec2, r);
    DistinctNeverRepeats(AsStore(Generate(tags)), ec2);
    EC2DiffEmptyIff(Generate(tags), ec2, add, remove);
  }

  lemma TwoEntries(x: Tag, y: Tag)
    ensures AsStore([ToEC2(x)]) == map[x.key := x.value]
    ensures AsStore(Generate([x, y])) ==
            if x.key == y.key then map[y.key := y.value] else map[x.key := x.value, y.key := y.value]
  {
    var e, g := [ToEC2(x)], Generate([x, y]);
    assert e[..0] == [] && AsStore(e) == AsStore([])[x.key := x.value];
    assert g[..1] == e && g[1] == ToEC2(y);
    assert AsStore(g) == map[x.key := x.value][y.key := y.value];
  }

  /** One desired tag listed twice never matches the same tag listed once, though nothing is left to do. */
  lemma RepeatedTagNeverMatches(t: Tag, r: Outcome, add: seq<EC2Tag>, remove: seq<EC2Tag>)
    requires CanReturn([t, t], [ToEC2(t)], r)
    requires IsEC2Diff(Generate([t, t]), [ToEC2(t)], add, remove)
    ensures r == Returned(false) && add == [] && remove == []
  {
    var g, e := Generate([t, t]), [ToEC2(t)];
    TwoEntries(t, t);
    DistinctNeverRepeats(AsStore(g), e);
    EC2DiffEmptyIff(g, e, add, remove);
  }

  /** A key with two values, compared with itself: either result is possible. */
  lemma TieComparesEitherWay(k: Str, v1: Str, v2: Str)
    requires v1 != v2
    ensures var tags := [Tag(k, v1), Tag(k, v2)];
            CanReturn(tags, Generate(tags), Returned(true)) && CanReturn(tags, Generate(tags), Returned(false))
  {
    var tags := [Tag(k, v1), Tag(k, v2)];
    var g := Generate(tags);
    ConversionsUndoEachOther(tags, g);
    assert tags[0] in tags && tags[1] in tags;
    TiesCanDiffer(tags, g);
    Trichotomy(k, k);
    ScanDecides(tags, g, 0);
    assert SortOf(tags, tags, TagKey) && SortOf(g, g, EC2Key);
  }

  // ----- Sorting the desired list

  /** Rearranging a list with one value per key does not change the map it stands for. */
  lemma RearrangedSameMap(tags: seq<Tag>, tags': seq<Tag>)
    requires multiset(tags) == multiset(tags') && OneValuePerKey(tags)
    ensures AsStore(Generate(tags)) == AsStore(Generate(tags'))
  {
    ConversionsUndoEachOther(tags, []);
    ConversionsUndoEachOther(tags', []);
    forall x ensures x in tags <==> x in tags' {
      SameMembers(tags, tags', x);
    }
    SameEntriesEqualStores(Generate(tags), Generate(tags'));
  }

  /** Sorting a list in which some key has two values can make it stand for another map. */
  lemma SortCanChangeTheMap(tags: seq<Tag>) returns (s: seq<Tag>)
    requires !OneValuePerKey(tags)
    ensures SortOf(s, tags, TagKey) && AsStore(Generate(s)) != AsStore(Generate(tags))
  {
    s := SortedArrangement(tags);
    if AsStore(Generate(s)) == AsStore(Generate(tags)) {
      var x, y :| x in tags && y in tags && x.key == y.key && x != y;
      SameMembers(s, tags, x);
      SameMembers(s, tags, y);
      var g := Generate(s);
      var p :| 0 <= p < |s| && s[p] == x;
      var q :| 0 <= q < |s| && s[q] == y;
      assert g[p].Key() == x.key;
      AsStoreHas(g, x.key);
      var last := LastIndex(g, x.key);
      var i := if s[p].value != s[last].value then p else q;
      assert s[last].key == g[last].Key();
      s := SwapLast(s, i, last);
    }
  }

  lemma SwapLast(s: seq<Tag>, i: nat, last: nat) returns (t: seq<Tag>)
    requires SortedBy(s, TagKey) && i < |s| && last < |s|
    requires s[i].key == s[last].key && s[i].value != s[last].value
    requires forall m :: last < m < |s| ==> s[m].key != s[last].key
    ensures multiset(t) == multiset(s) && SortedBy(t, TagKey) && AsStore(Generate(t)) != AsStore(Generate(s))
  {
    t := Swap(s, i, last);
    SwapPermutes(s, i, last);
    SwapKeepsOrder(s, i, last);
    forall p, q | 0 <= p < q < |t| ensures InOrder(TagKey(t[p]), TagKey(t[q])) {
      assert InOrder(EC2Key(Generate(t)[p]), EC2Key(Generate(t)[q]));
    }
    AsStoreLast(Generate(s), last);
    AsStoreLast(Generate(t), last);
  }

  /** All sorted arrangements of a list stand for its own map if and only if it has one value per key. */
  lemma SortKeepsMapIff(tags: seq<Tag>)
    ensures (forall s :: SortOf(s, tags, TagKey) ==> AsStore(Generate(s)) == AsStore(Generate(tags))) <==>
            OneValuePerKey(tags)
  {
    if OneValuePerKey(tags) {
      forall s | SortOf(s, tags, TagKey) ensures AsStore(Generate(s)) == AsStore(Generate(tags)) {
        RearrangedSameMap(tags, s);
      }
    } else {
      var s := SortCanChangeTheMap(tags);
    }
  }

  // ----- The reconcile loop

  /** A description of the resource lists its tags once each, in any order. */
  ghost predicate Observes(listing: seq<EC2Tag>, s: Store) {
    AllSet(listing) && DistinctKeys(listing) && AsStore(listing) == s
  }

  /**
   One round: observe, compare, and when the comparison does not report equality,
   describe again and carry out the diff, in any order, cut off after `applied`
   operations. The comparison leaves the desired list sorted, and it is the sorted
   list that is diffed; the next round starts from the stored object again.
   */
  datatype Round = Round(observed: seq<EC2Tag>, verdict: Outcome, sorted: seq<Tag>, listing: seq<EC2Tag>,
                         add: seq<EC2Tag>, remove: seq<EC2Tag>, ops: seq<Op>, applied: nat)

  /** The desired list as the comparison leaves it: sorted if the lengths agree, else untouched. */
  ghost predicate LeftSorted(tags: seq<Tag>, observed: seq<EC2Tag>, sorted: seq<Tag>) {
    if |tags| == |observed| then SortOf(sorted, tags, TagKey) else sorted == tags
  }

  ghost predicate ValidRound(tags: seq<Tag>, s: Store, r: Round) {
    && Observes(r.observed, s) && Observes(r.listing, s)
    && CanReturn(tags, r.observed, r.verdict)
    && LeftSorted(tags, r.observed, r.sorted)
    && IsEC2Diff(Generate(r.sorted), r.listing, r.add, r.remove)
    && CarriesOut(r.ops, r.add, r.remove)
    && r.applied <= |r.ops|
  }

  ghost function AfterRound(s: Store, r: Round): Store
    requires r.applied <= |r.ops|
  {
    if r.verdict == Returned(true) then s else Run(s, r.ops[..r.applied])
  }

  /** The round leaves the tags alone because they are up to date, or finishes its update. */
  ghost predicate Settles(r: Round) {
    r.verdict == Returned(true) || r.applied == |r.ops|
  }

  /** Every operation of a round fixes its key, towards the list it diffs. */
  lemma RoundFixes(tags: seq<Tag>, s: Store, r: Round)
    requires ValidRound(tags, s, r)
    ensures forall op :: op in r.ops ==> op == Fix(AsStore(Generate(r.sorted)), op.key)
  {
    var g := Generate(r.sorted);
    DistinctNeverRepeats(AsStore(g), r.listing);
    forall op | op in r.ops ensures op == Fix(AsStore(g), op.key) {
      RemovedIsStale(g, r.listing, r.add, r.remove, op.key);
    }
  }

  /** A finished update makes the tags those of the list it diffs. */
  lemma FinishedUpdate(tags: seq<Tag>, s: Store, r: Round)
    requires ValidRound(tags, s, r)
    ensures Run(s, r.ops) == AsStore(Generate(r.sorted))
    ensures s == AsStore(Generate(r.sorted)) ==> r.ops == []
  {
    var g := Generate(r.sorted);
    DistinctNeverRepeats(AsStore(g), r.listing);
    EC2DiffConvergesIff(g, r.listing, r.add, r.remove, r.ops);
    EC2DiffEmptyIff(g, r.listing, r.add, r.remove);
    assert r.ops != [] ==> r.ops[0] in r.ops;
  }

  /** The list that the round diffs stands for the desired map. */
  ghost predicate KeepsMap(tags: seq<Tag>, r: Round) {
    AsStore(Generate(r.sorted)) == AsStore(Generate(tags))
  }

  lemma RoundOnSettled(tags: seq<Tag>, s: Store, r: Round)
    requires ValidRound(tags, s, r) && KeepsMap(tags, r)
    ensures s == AsStore(Generate(tags)) ==> r.verdict == Returned(DistinctTagKeys(tags)) && r.ops == []
    ensures r.verdict == Returned(true) ==> s == AsStore(Generate(tags))
  {
    CompareDecides(tags, r.observed, r.verdict);
    FinishedUpdate(tags, s, r);
  }

  lemma RoundMakesProgress(tags: seq<Tag>, s: Store, r: Round)
    requires ValidRound(tags, s, r) && KeepsMap(tags, r)
    ensures Wrong(AsStore(Generate(tags)), AfterRound(s, r)) <= Wrong(AsStore(Generate(tags)), s)
    ensures Settles(r) ==> AfterRound(s, r) == AsStore(Generate(tags))
  {
    RoundOnSettled(tags, s, r);
    FinishedUpdate(tags, s, r);
    RoundFixes(tags, s, r);
    var p := r.ops[..r.applied];
    assert forall op :: op in p ==> op in r.ops;
    FixesRepairTheirKeys(AsStore(Generate(tags)), s, p);
    assert r.applied == |r.ops| ==> p == r.ops;
  }

  ghost predicate ValidRounds(tags: seq<Tag>, s: Store, rounds: seq<Round>)
    decreases |rounds|
  {
    rounds == [] ||
    (ValidRound(tags, s, rounds[0]) && ValidRounds(tags, AfterRound(s, rounds[0]), rounds[1..]))
  }

  ghost function AfterRounds(tags: seq<Tag>, s: Store, rounds: seq<Round>): Store
    requires ValidRounds(tags, s, rounds)
    decreases |rounds|
  {
    if rounds == [] then s else AfterRounds(tags, AfterRound(s, rounds[0]), rounds[1..])
  }

  /**
   What the loop is meant to achieve: wrong tags only disappear; once a round settles,
   the tags are the desired ones for good; and from then on every update is empty and
   every comparison reports equality if and only if the desired list has distinct keys.
   */
  ghost predicate Safe(tags: seq<Tag>, s: Store, rounds: seq<Round>)
    requires ValidRounds(tags, s, rounds)
  {
    && Wrong(AsStore(Generate(tags)), AfterRounds(tags, s, rounds)) <= Wrong(AsStore(Generate(tags)), s)
    && (forall i, j :: 0 <= i < j < |rounds| && Settles(rounds[i]) ==>
          rounds[j].verdict == Returned(DistinctTagKeys(tags)) && rounds[j].ops == [])
    && ((exists i :: 0 <= i < |rounds| && Settles(rounds[i])) ==>
          AfterRounds(tags, s, rounds) == AsStore(Generate(tags)))
  }

  /** Once the tags are the desired ones, nothing changes them. */
  lemma {:induction false} SettledStays(tags: seq<Tag>, rounds: seq<Round>)
    requires ValidRounds(tags, AsStore(Generate(tags)), rounds) && AllKeepMap(tags, rounds)
    ensures AfterRounds(tags, AsStore(Generate(tags)), rounds) == AsStore(Generate(tags))
    ensures forall j :: 0 <= j < |rounds| ==>
              rounds[j].verdict == Returned(DistinctTagKeys(tags)) && rounds[j].ops == []
    decreases |rounds|
  {
    if rounds != [] {
      var w, rest := AsStore(Generate(tags)), rounds[1..];
      assert rounds[0] in rounds;
      RoundOnSettled(tags, w, rounds[0]);
      assert rounds[0].ops[..rounds[0].applied] == [];
      assert AfterRound(w, rounds[0]) == w;
      SettledStays(tags, rest);
      assert forall j :: 1 <= j < |rounds| ==> rounds[j] == rest[j - 1];
    }
  }

  ghost predicate AllKeepMap(tags: seq<Tag>, rounds: seq<Round>) {
    forall r :: r in rounds ==> KeepsMap(tags, r)
  }

  /**
   For all desired lists, every run in which the sorts keep the desired map achieves it,
   with updates cut off anywhere and applied in any order. A list that repeats a key is
   never reported up to date, although every further update is empty.
   */
  lemma {:induction false} SafeIfSortsKeepMap(tags: seq<Tag>, s: Store, rounds: seq<Round>)
    requires ValidRounds(tags, s, rounds) && AllKeepMap(tags, rounds)
    ensures Safe(tags, s, rounds)
    decreases |rounds|
  {
    if rounds != [] {
      var next, rest := AfterRound(s, rounds[0]), rounds[1..];
      assert rounds[0] in rounds;
      RoundMakesProgress(tags, s, rounds[0]);
      SafeIfSortsKeepMap(tags, next, rest);
      if Settles(rounds[0]) {
        SettledStays(tags, rest);
      }
      forall i, j | 0 <= i < j < |rounds| && Settles(rounds[i])
        ensures rounds[j].verdict == Returned(DistinctTagKeys(tags)) && rounds[j].ops == []
      {
        assert rounds[j] == rest[j - 1];
        if i > 0 {
          assert rounds[i] == rest[i - 1];
        }
      }
      if i :| 0 <= i < |rounds| && Settles(rounds[i]) {
        assert i > 0 ==> rounds[i] == rest[i - 1];
      }
    }
  }

  lemma {:induction false} OneValueKeepsMap(tags: seq<Tag>, s: Store, rounds: seq<Round>)
    requires ValidRounds(tags, s, rounds) && OneValuePerKey(tags)
    ensures AllKeepMap(tags, rounds)
    decreases |rounds|
  {
    if rounds != [] {
      if |tags| == |rounds[0].observed| {
        RearrangedSameMap(tags, rounds[0].sorted);
      }
      OneValueKeepsMap(tags, AfterRound(s, rounds[0]), rounds[1..]);
      assert rounds == [rounds[0]] + rounds[1..];
    }
  }

  /** With one value per key, every run achieves it. */
  lemma ReconcileLoop(tags: seq<Tag>, s: Store, rounds: seq<Round>)
    requires ValidRounds(tags, s, rounds) && OneValuePerKey(tags)
    ensures Safe(tags, s, rounds)
  {
    OneValueKeepsMap(tags, s, rounds);
    SafeIfSortsKeepMap(tags, s, rounds);
  }

  // ----- Stable sorts

  /** The entries with key `k`, in order. */
  function OfKey(tags: seq<Tag>, k: Str): seq<Tag> {
    if tags == [] then []
    else
      var t := tags[|tags| - 1];
      OfKey(tags[..|tags| - 1], k) + if t.key == k then [t] else []
  }

  /** Entries with the same key stand in the same order. */
  ghost predicate SameOrder(s: seq<Tag>, tags: seq<Tag>) {
    forall k :: OfKey(s, k) == OfKey(tags, k)
  }

  lemma {:induction false} LookupIsLastOfKey(tags: seq<Tag>, k: Str)
    ensures Lookup(AsStore(Generate(tags)), k) ==
            var ts := OfKey(tags, k); if ts == [] then None else Some(ts[|ts| - 1].value)
    decreases |tags|
  {
    if tags != [] {
      var n := |tags| - 1;
      LookupIsLastOfKey(tags[..n], k);
      assert Generate(tags)[..n] == Generate(tags[..n]) && Generate(tags)[n] == ToEC2(tags[n]);
    }
  }

  lemma SameOrderSameMap(s: seq<Tag>, tags: seq<Tag>)
    requires SameOrder(s, tags)
    ensures AsStore(Generate(s)) == AsStore(Generate(tags))
  {
    var m, m' := AsStore(Generate(s)), AsStore(Generate(tags));
    forall k ensures Lookup(m, k) == Lookup(m', k) {
      LookupIsLastOfKey(s, k);
      LookupIsLastOfKey(tags, k);
    }
    assert forall k :: k in m <==> Lookup(m, k).Some?;
    assert forall k :: k in m' <==> Lookup(m', k).Some?;
  }

  /** With stable sorts the loop is safe for all desired lists: only the order of ties can break it. */
  lemma StableSortsAreSafe(tags: seq<Tag>, s: Store, rounds: seq<Round>)
    requires ValidRounds(tags, s, rounds)
    requires forall r :: r in rounds ==> SameOrder(r.sorted, tags)
    ensures Safe(tags, s, rounds)
  {
    forall r | r in rounds ensures KeepsMap(tags, r) {
      SameOrderSameMap(r.sorted, tags);
    }
    SafeIfSortsKeepMap(tags, s, rounds);
  }

  // ----- The loop fails for a key with two values

  /** Any map can be listed. */
  lemma {:induction false} Listing(m: Store) returns (l: seq<EC2Tag>)
    ensures Observes(l, m)
    decreases |m|
  {
    if m == map[] {
      l := [];
    } else {
      var k :| k in m;
      l := Listing(m - {k});
      AppendEntry(l, k, m[k]);
      l := l + [EC2Tag(Some(k), Some(m[k]))];
    }
  }

  lemma {:induction false} ListOps(ops: set<Op>) returns (l: seq<Op>)
    ensures forall op :: op in l <==> op in ops
    decreases |ops|
  {
    if ops == {} {
      l := [];
    } else {
      var op :| op in ops;
      l := ListOps(ops - {op});
      l := l + [op];
    }
  }

  /** Lists of every length have distinct keys. */
  lemma {:induction false} ListingOfLength(n: nat) returns (l: seq<EC2Tag>)
    ensures |l| == n && AllSet(l) && DistinctKeys(l)
    ensures forall i :: 0 <= i < n ==> |l[i].Key()| == i
  {
    if n == 0 {
      l := [];
    } else {
      l := ListingOfLength(n - 1);
      l := l + [EC2Tag(Some(seq(n - 1, _ => 0 as byte)), Some(EMPTY))];
    }
  }

  /** There is a result for every pair of lists. */
  lemma SomeResult(tags: seq<Tag>, ec2: seq<EC2Tag>) returns (r: Outcome)
    requires AllSet(ec2)
    ensures CanReturn(tags, ec2, r)
  {
    if |tags| != |ec2| {
      r := Returned(false);
    } else {
      NoNilKeys(ec2);
      var s := SortedArrangement(tags);
      var b := SortedArrangement(Build(ec2));
      var t := Generate(b);
      ConversionsUndoEachOther(b, ec2);
      MapPermutes(ToEC2, b, Build(ec2));
      forall p, q | 0 <= p < q < |t| ensures InOrder(EC2Key(t[p]), EC2Key(t[q])) {
        assert InOrder(TagKey(b[p]), TagKey(b[q]));
      }
      SameLength(s, tags);
      SameLength(t, ec2);
      r := Scan(s, t, 0);
      assert SortOf(t, ec2, EC2Key);
    }
  }

  lemma TwoValuesNotDistinct(tags: seq<Tag>)
    requires !OneValuePerKey(tags)
    ensures !DistinctTagKeys(tags)
  {
    var x, y :| x in tags && y in tags && x.key == y.key && x != y;
    var i :| 0 <= i < |tags| && tags[i] == x;
    var j :| 0 <= j < |tags| && tags[j] == y;
    assert i < j || j < i;
  }

  /**
   A round that observes as many tags as are desired may leave any sorted arrangement,
   and finish; when a key carries two values, it ends with the tags of that arrangement.
   */
  lemma FinishedRound(tags: seq<Tag>, sorted: seq<Tag>, observed: seq<EC2Tag>) returns (r: Round)
    requires SortOf(sorted, tags, TagKey) && |observed| == |tags| && AllSet(observed) && DistinctKeys(observed)
    ensures ValidRound(tags, AsStore(observed), r) && Settles(r)
    ensures !OneValuePerKey(tags) ==> AfterRound(AsStore(observed), r) == AsStore(Generate(sorted))
  {
    var verdict := SomeResult(tags, observed);
    var w := AsStore(Generate(sorted));
    var add := Listing(Unmatched(w, observed, |observed|));
    var remove := Removals(observed, Dropped(w, observed, |observed|));
    var ops := ListOps(Script(AsStore(add), Keys(remove)));
    r := Round(observed, verdict, sorted, observed, add, remove, ops, |ops|);
    if !OneValuePerKey(tags) {
      TwoValuesNotDistinct(tags);
      CompareDecides(tags, observed, verdict);
      FinishedUpdate(tags, AsStore(observed), r);
      assert ops[..|ops|] == ops;
    }
  }

  /**
   The loop achieves what it is meant to, on all stores and all runs, if and only if no
   desired key carries two values.
   */
  lemma ReconcileLoopSafeIff(tags: seq<Tag>)
    ensures (forall s, rounds :: ValidRounds(tags, s, rounds) ==> Safe(tags, s, rounds)) <==> OneValuePerKey(tags)
  {
    if OneValuePerKey(tags) {
      forall s, rounds | ValidRounds(tags, s, rounds) ensures Safe(tags, s, rounds) {
        ReconcileLoop(tags, s, rounds);
      }
    } else {
      var sorted := SortCanChangeTheMap(tags);
      var observed := ListingOfLength(|tags|);
      var s := AsStore(observed);
      var r := FinishedRound(tags, sorted, observed);
      var rounds := [r];
      assert rounds[1..] == [];
      assert ValidRounds(tags, s, rounds) && Settles(rounds[0]);
      assert AfterRounds(tags, s, rounds) == AfterRounds(tags, AfterRound(s, r), []);
      assert !Safe(tags, s, rounds);
    }
  }

  /** The failure at one input: some finished round replaces the value that was right. */
  lemma SortUndoesATag(a: Str, b: Str, v1: Str, v2: Str) returns (r: Round)
    requires a != b && v1 != v2
    ensures AsStore(Generate([Tag(a, v1), Tag(a, v2)])) == map[a := v2]
    ensures ValidRound([Tag(a, v1), Tag(a, v2)], map[a := v2, b := v1], r)
    ensures AfterRound(map[a := v2, b := v1], r) == map[a := v1]
  {
    var tags, sorted, observed := [Tag(a, v1), Tag(a, v2)], [Tag(a, v2), Tag(a, v1)], [Tag(a, v2), Tag(b, v1)];
    TwoEntries(Tag(a, v1), Tag(a, v2));
    TwoEntries(Tag(a, v2), Tag(a, v1));
    TwoEntries(Tag(a, v2), Tag(b, v1));
    Trichotomy(a, a);
    assert tags[0] in tags && tags[1] in tags;
    r := FinishedRound(tags, sorted, Generate(observed));
    assert AsStore(Generate(observed)) == map[a := v2, b := v1];
  }
}
