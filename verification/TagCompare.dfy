/** `SortTags`, `CompareTags` and the conversions between the two tag types. */
module TagCompare {
  import opened GoValues
  import opened EditScripts
  import opened EC2TagDiff

  datatype Tag = Tag(key: Str, value: Str)

  /** What a call that dereferences pointers can do: return, or panic on a nil. */
  datatype Outcome = Panicked | Returned(value: bool)

  function ToEC2(t: Tag): EC2Tag {
    EC2Tag(Some(t.key), Some(t.value))
  }

  function FromEC2(t: EC2Tag): Tag {
    Tag(t.Key(), t.Value())
  }

  function Generate(tags: seq<Tag>): seq<EC2Tag> {
    Map(ToEC2, tags)
  }

  function Build(tags: seq<EC2Tag>): seq<Tag> {
    Map(FromEC2, tags)
  }

  // ----- Conversions

  method GenerateEC2Tags(tags: seq<Tag>) returns (res: array<EC2Tag>)
    ensures fresh(res) && res[..] == Generate(tags)
    ensures forall i :: 0 <= i < |tags| ==> res[i] == EC2Tag(Some(tags[i].key), Some(tags[i].value))
  {
    res := new EC2Tag[|tags|](_ => EC2Tag(None, None));
    for i := 0 to |tags|
      invariant forall j :: 0 <= j < i ==> res[j] == ToEC2(tags[j])
    {
      res[i] := EC2Tag(Some(tags[i].key), Some(tags[i].value));
    }
  }

  /** A nil result stands for Go's nil slice. */
  method BuildFromEC2Tags(tags: seq<EC2Tag>) returns (res: array?<Tag>)
    ensures res == null <==> tags == []
    ensures res != null ==> fresh(res) && res[..] == Build(tags)
    ensures forall i :: 0 <= i < |tags| ==> res[i].key == if tags[i].key.Some? then tags[i].key.value else []
    ensures forall i :: 0 <= i < |tags| ==> res[i].value == if tags[i].value.Some? then tags[i].value.value else []
  {
    if |tags| < 1 {
      return null;
    }
    var out := new Tag[|tags|](_ => Tag(EMPTY, EMPTY));
    for i := 0 to |tags|
      invariant forall j :: 0 <= j < i ==> out[j] == FromEC2(tags[j])
    {
      out[i] := Tag(StringValue(tags[i].key), StringValue(tags[i].value));
    }
    return out;
  }

  /** Building undoes generating; generating after building only turns nil pointers into empty strings. */
  lemma ConversionsUndoEachOther(tags: seq<Tag>, ec2: seq<EC2Tag>)
    ensures Build(Generate(tags)) == tags
    ensures Generate(Build(ec2)) == ec2 <==> AllSet(ec2)
    ensures Generate(Build(Generate(Build(ec2)))) == Generate(Build(ec2))
    ensures AsStore(Generate(Build(ec2))) == AsStore(ec2)
  {
    var g := Generate(Build(ec2));
    assert forall i :: 0 <= i < |ec2| ==> g[i].key.Some? && g[i].value.Some?;
    assert forall i :: 0 <= i < |ec2| && ec2[i].key.Some? && ec2[i].value.Some? ==> g[i] == ec2[i];
    if g == ec2 {
      assert AllSet(ec2);
    }
    assert Build(g) == Build(ec2);
    SameEntriesSameStore(g, ec2);
  }

  lemma {:induction false} SameEntriesSameStore(a: seq<EC2Tag>, b: seq<EC2Tag>)
    requires |a| == |b|
    requires forall i :: 0 <= i < |a| ==> a[i].Key() == b[i].Key() && a[i].Value() == b[i].Value()
    ensures AsStore(a) == AsStore(b)
    decreases |a|
  {
    if a != [] {
      SameEntriesSameStore(a[..|a| - 1], b[..|b| - 1]);
    }
  }

  // ----- Sorting by key

  predicate InOrder(a: Option<Str>, b: Option<Str>) {
    a.Some? && b.Some? && AtMost(a.value, b.value)
  }

  ghost predicate SortedBy<T>(s: seq<T>, key: T -> Option<Str>) {
    forall i, j :: 0 <= i < j < |s| ==> InOrder(key(s[i]), key(s[j]))
  }

  /** The entries up to `i` are in order but for the one at `j`, which is below everything after it. */
  ghost predicate Sinking<T>(s: seq<T>, i: nat, j: nat, key: T -> Option<Str>)
    requires j <= i < |s|
  {
    && (forall p, q :: 0 <= p < q <= i && p != j && q != j ==> InOrder(key(s[p]), key(s[q])))
    && (forall q :: j < q <= i ==> InOrder(key(s[j]), key(s[q])))
  }

  function Swap<T>(s: seq<T>, i: nat, j: nat): seq<T>
    requires i < |s| && j < |s|
  {
    s[i := s[j]][j := s[i]]
  }

  lemma SwapPermutes<T>(s: seq<T>, i: nat, j: nat)
    requires i < |s| && j < |s|
    ensures multiset(Swap(s, i, j)) == multiset(s)
  {
  }

  method Exchange<T>(a: array<T>, i: nat, j: nat)
    requires i < a.Length && j < a.Length
    modifies a
    ensures a[..] == Swap(old(a[..]), i, j)
    ensures multiset(a[..]) == multiset(old(a[..]))
  {
    SwapPermutes(a[..], i, j);
    a[i], a[j] := a[j], a[i];
  }

  lemma SinkStarts<T>(s: seq<T>, i: nat, key: T -> Option<Str>)
    requires i < |s| && SortedBy(s[..i], key)
    ensures Sinking(s, i, i, key)
  {
    forall p, q | 0 <= p < q < i ensures InOrder(key(s[p]), key(s[q])) {
      assert s[..i][p] == s[p] && s[..i][q] == s[q];
    }
  }

  lemma SinkStep<T>(s: seq<T>, i: nat, j: nat, key: T -> Option<Str>)
    requires 0 < j <= i < |s| && Sinking(s, i, j, key)
    requires key(s[j]).Some? && key(s[j - 1]).Some? && Less(key(s[j]).value, key(s[j - 1]).value)
    ensures Sinking(Swap(s, j, j - 1), i, j - 1, key)
  {
    Trichotomy(key(s[j]).value, key(s[j - 1]).value);
  }

  lemma SinkStops<T>(s: seq<T>, i: nat, j: nat, key: T -> Option<Str>)
    requires j <= i < |s| && Sinking(s, i, j, key)
    requires j > 0 ==> InOrder(key(s[j - 1]), key(s[j]))
    ensures SortedBy(s[..i + 1], key)
  {
    forall p | 0 <= p < j ensures InOrder(key(s[p]), key(s[j])) {
      if p < j - 1 {
        Transitive(key(s[p]).value, key(s[j - 1]).value, key(s[j]).value);
      }
    }
  }

  /**
   One step of the in-place sort: entry `i` sinks into the sorted part before it.
   Comparing a nil key panics (`ok` is false).
   */
  method Sink<T>(a: array<T>, i: nat, key: T -> Option<Str>) returns (ok: bool)
    requires 0 < i < a.Length && SortedBy(a[..][..i], key)
    modifies a
    ensures multiset(a[..]) == old(multiset(a[..]))
    ensures ok ==> SortedBy(a[..][..i + 1], key)
    ensures !ok ==> exists x :: 0 <= x < a.Length && key(a[x]).None?
  {
    var j := i;
    SinkStarts(a[..], i, key);
    while 0 < j
      invariant 0 <= j <= i
      invariant multiset(a[..]) == old(multiset(a[..]))
      invariant Sinking(a[..], i, j, key)
    {
      var x, y := key(a[j]), key(a[j - 1]);
      if x.None? || y.None? {
        return false;
      }
      if !Less(x.value, y.value) {
        break;
      }
      SinkStep(a[..], i, j, key);
      Exchange(a, j, j - 1);
      j := j - 1;
    }
    SinkStops(a[..], i, j, key);
    return true;
  }

  /** The promise of `sort.Slice` with a key comparison: a permutation in key order, ties in any order. */
  method SortByKey<T>(a: array<T>, key: T -> Option<Str>) returns (ok: bool)
    modifies a
    ensures multiset(a[..]) == old(multiset(a[..]))
    ensures ok ==> SortedBy(a[..], key)
    ensures !ok ==> a.Length >= 2 && exists x :: 0 <= x < a.Length && key(a[x]).None?
  {
    if a.Length == 0 {
      return true;
    }
    var i := 1;
    while i < a.Length
      invariant 1 <= i <= a.Length
      invariant multiset(a[..]) == old(multiset(a[..]))
      invariant SortedBy(a[..][..i], key)
    {
      ok := Sink(a, i, key);
      if !ok {
        return;
      }
      i := i + 1;
    }
    assert a[..][..i] == a[..];
    return true;
  }

  function TagKey(t: Tag): Option<Str> {
    Some(t.key)
  }

  function EC2Key(t: EC2Tag): Option<Str> {
    t.key
  }

  /** `s` is `xs` rearranged into key order. */
  ghost predicate SortOf<T>(s: seq<T>, xs: seq<T>, key: T -> Option<Str>) {
    multiset(s) == multiset(xs) && SortedBy(s, key)
  }

  ghost predicate NilKey(ec2: seq<EC2Tag>) {
    exists i :: 0 <= i < |ec2| && ec2[i].key.None?
  }

  /** Both slices end up in key order, unless a nil EC2 key is compared, which panics. */
  method SortTags(tags: array<Tag>, ec2Tags: array<EC2Tag>) returns (ok: bool)
    modifies tags, ec2Tags
    ensures SortOf(tags[..], old(tags[..]), TagKey)
    ensures multiset(ec2Tags[..]) == multiset(old(ec2Tags[..]))
    ensures ok ==> SortedBy(ec2Tags[..], EC2Key)
    ensures ok <==> ec2Tags.Length < 2 || !NilKey(old(ec2Tags[..]))
  {
    ok := SortByKey(tags, TagKey);
    ok := SortByKey(ec2Tags, EC2Key);
    NilKeyPermutes(ec2Tags[..], old(ec2Tags[..]));
    if ok && ec2Tags.Length >= 2 {
      SortedHasKeys(ec2Tags[..]);
    }
  }

  lemma SortedHasKeys(s: seq<EC2Tag>)
    requires SortedBy(s, EC2Key) && |s| >= 2
    ensures !NilKey(s)
  {
    assert InOrder(EC2Key(s[0]), EC2Key(s[1]));
    assert forall i :: 0 < i < |s| ==> InOrder(EC2Key(s[0]), EC2Key(s[i]));
  }

  lemma SameMembers<T>(xs: seq<T>, ys: seq<T>, x: T)
    requires multiset(xs) == multiset(ys)
    ensures x in xs <==> x in ys
  {
    assert x in xs <==> x in multiset(xs);
    assert x in ys <==> x in multiset(ys);
  }

  lemma SameLength<T>(xs: seq<T>, ys: seq<T>)
    requires multiset(xs) == multiset(ys)
    ensures |xs| == |ys|
  {
    assert |xs| == |multiset(xs)|;
    assert |ys| == |multiset(ys)|;
  }

  lemma NilKeyPermutes(xs: seq<EC2Tag>, ys: seq<EC2Tag>)
    requires multiset(xs) == multiset(ys)
    ensures NilKey(xs) <==> NilKey(ys)
  {
    if i :| 0 <= i < |xs| && xs[i].key.None? {
      SameMembers(xs, ys, xs[i]);
    }
    if i :| 0 <= i < |ys| && ys[i].key.None? {
      SameMembers(xs, ys, ys[i]);
    }
  }

  /** What key order means: keys ascend, equal keys side by side, and none is nil unless it is alone. */
  lemma SortedMeans(s: seq<Tag>, t: seq<EC2Tag>)
    ensures SortedBy(s, TagKey) <==>
            forall i, j :: 0 <= i < j < |s| ==> s[i].key == s[j].key || Less(s[i].key, s[j].key)
    ensures SortedBy(t, EC2Key) <==>
            && (|t| < 2 || forall i :: 0 <= i < |t| ==> t[i].key.Some?)
            && forall i, j :: 0 <= i < j < |t| && t[i].key.Some? && t[j].key.Some? ==>
                 t[i].key == t[j].key || Less(t[i].key.value, t[j].key.value)
  {
    forall i, j | 0 <= i < j < |s|
      ensures InOrder(TagKey(s[i]), TagKey(s[j])) <==> s[i].key == s[j].key || Less(s[i].key, s[j].key)
    {
      Trichotomy(s[i].key, s[j].key);
    }
    forall i, j | 0 <= i < j < |t| && t[i].key.Some? && t[j].key.Some?
      ensures InOrder(EC2Key(t[i]), EC2Key(t[j])) <==>
              t[i].key == t[j].key || Less(t[i].key.value, t[j].key.value)
    {
      Trichotomy(t[i].key.value, t[j].key.value);
    }
    if SortedBy(t, EC2Key) && |t| >= 2 {
      SortedHasKeys(t);
    }
  }

  // ----- Comparing

  /** The positional scan of two lists of equal length, from position `i`. */
  function Scan(s: seq<Tag>, t: seq<EC2Tag>, i: nat): Outcome
    requires i <= |s| == |t|
    decreases |s| - i
  {
    if i == |s| then Returned(true)
    else if t[i].key.None? then Panicked
    else if s[i].key != t[i].key.value then Returned(false)
    else if t[i].value.None? then Panicked
    else if s[i].value != t[i].value.value then Returned(false)
    else Scan(s, t, i + 1)
  }

  /**
   The results `CompareTags` may give when all that is known of the sort is that it
   permutes into key order.
   */
  ghost predicate CanReturn(tags: seq<Tag>, ec2: seq<EC2Tag>, r: Outcome) {
    if |tags| != |ec2| then r == Returned(false)
    else if NilKey(ec2) then r == Panicked
    else exists s, t :: SortOf(s, tags, TagKey) && SortOf(t, ec2, EC2Key) && |s| == |t| && r == Scan(s, t, 0)
  }

  method CompareTags(tags: array<Tag>, ec2Tags: array<EC2Tag>) returns (r: Outcome)
    modifies tags, ec2Tags
    ensures CanReturn(old(tags[..]), old(ec2Tags[..]), r)
    ensures multiset(tags[..]) == multiset(old(tags[..]))
    ensures multiset(ec2Tags[..]) == multiset(old(ec2Tags[..]))
    ensures tags.Length != ec2Tags.Length ==> tags[..] == old(tags[..]) && ec2Tags[..] == old(ec2Tags[..])
    ensures tags.Length == ec2Tags.Length ==> SortedBy(tags[..], TagKey)
    ensures r.Returned? && tags.Length == ec2Tags.Length ==> SortedBy(ec2Tags[..], EC2Key)
  {
    if tags.Length != ec2Tags.Length {
      return Returned(false);
    }
    var ok := SortTags(tags, ec2Tags);
    if !ok {
      return Panicked;
    }
    NilKeyPermutes(ec2Tags[..], old(ec2Tags[..]));
    ghost var s, t := tags[..], ec2Tags[..];
    assert SortOf(s, old(tags[..]), TagKey) && SortOf(t, old(ec2Tags[..]), EC2Key);
    for i := 0 to tags.Length
      invariant Scan(s, t, i) == Scan(s, t, 0)
      invariant forall j :: 0 <= j < i ==> ec2Tags[j].key.Some?
    {
      if ec2Tags[i].key.None? {
        assert t[i].key.None?;
        return Panicked;
      }
      if tags[i].key != ec2Tags[i].key.value {
        NoNilKeyYet(t, i + 1);
        return Returned(false);
      }
      if ec2Tags[i].value.None? {
        NoNilKeyYet(t, i + 1);
        return Panicked;
      }
      if tags[i].value != ec2Tags[i].value.value {
        NoNilKeyYet(t, i + 1);
        return Returned(false);
      }
    }
    return Returned(true);
  }

  /** The two lists agree before position `i`, with no nil pointer. */
  ghost predicate AgreeTo(s: seq<Tag>, t: seq<EC2Tag>, i: nat)
    requires i <= |s| == |t|
  {
    forall j :: 0 <= j < i ==> t[j] == EC2Tag(Some(s[j].key), Some(s[j].value))
  }

  /**
   The scan stops at the first position where the lists do not agree: it panics there
   on a nil key, or on a nil value of an equal key, and returns false otherwise.
   */
  lemma {:induction false} ScanMeans(s: seq<Tag>, t: seq<EC2Tag>, i: nat)
    requires i <= |s| == |t| && AgreeTo(s, t, i)
    ensures Scan(s, t, i) == Returned(true) <==> AgreeTo(s, t, |s|)
    ensures Scan(s, t, i) == Panicked <==>
            exists n :: && 0 <= n < |s| && AgreeTo(s, t, n)
                        && (t[n].key.None? || (t[n].key == Some(s[n].key) && t[n].value.None?))
    decreases |s| - i
  {
    if i < |s| {
      if t[i] == EC2Tag(Some(s[i].key), Some(s[i].value)) {
        ScanMeans(s, t, i + 1);
      } else {
        assert !AgreeTo(s, t, i + 1);
        forall n | i < n <= |s| ensures !AgreeTo(s, t, n) {
        }
      }
    }
  }

  /** What `CompareTags` may return on all inputs, nil pointers included. */
  lemma CompareMeans(tags: seq<Tag>, ec2: seq<EC2Tag>, r: Outcome)
    requires CanReturn(tags, ec2, r)
    ensures |tags| != |ec2| ==> r == Returned(false)
    ensures |tags| == |ec2| && (exists i :: 0 <= i < |ec2| && ec2[i].key.None?) ==> r == Panicked
    ensures |tags| == |ec2| && (forall i :: 0 <= i < |ec2| ==> ec2[i].key.Some?) ==>
              exists s: seq<Tag>, t: seq<EC2Tag> ::
                             && SortOf(s, tags, TagKey) && SortOf(t, ec2, EC2Key) && |s| == |t|
                             && (r == Returned(true) <==> AgreeTo(s, t, |s|))
                             && (r == Panicked <==>
                                 exists n :: && 0 <= n < |s| && AgreeTo(s, t, n)
                                             && t[n].key == Some(s[n].key) && t[n].value.None?)
  {
    if |tags| == |ec2| && !NilKey(ec2) {
      var s, t :| SortOf(s, tags, TagKey) && SortOf(t, ec2, EC2Key) && |s| == |t| && r == Scan(s, t, 0);
      ScanMeans(s, t, 0);
      NilKeyPermutes(t, ec2);
    }
  }

  /** In a sorted list, a nil key can only be the single entry. */
  lemma NoNilKeyYet(t: seq<EC2Tag>, n: nat)
    requires SortedBy(t, EC2Key) && 0 < n <= |t| && t[n - 1].key.Some?
    ensures !NilKey(t)
  {
    if |t| >= 2 {
      SortedHasKeys(t);
    }
  }

  /** Without nil pointers the scan decides equality of the two lists. */
  lemma {:induction false} ScanDecides(s: seq<Tag>, t: seq<EC2Tag>, i: nat)
    requires i <= |s| == |t| && AllSet(t)
    ensures Scan(s, t, i) == Returned(s[i..] == Build(t)[i..])
    decreases |s| - i
  {
    var b := Build(t);
    if i < |s| {
      ScanDecides(s, t, i + 1);
      assert s[i..] == [s[i]] + s[i + 1..] && b[i..] == [b[i]] + b[i + 1..];
      assert s[i..] == b[i..] <==> s[i] == b[i] && s[i + 1..] == b[i + 1..];
    }
  }

  function Without<T>(xs: seq<T>, i: nat): seq<T>
    requires i < |xs|
  {
    xs[..i] + xs[i + 1..]
  }

  lemma WithoutDropsOne<T>(xs: seq<T>, i: nat)
    requires i < |xs|
    ensures multiset(Without(xs, i)) == multiset(xs) - multiset{xs[i]}
  {
    assert xs == xs[..i] + [xs[i]] + xs[i + 1..];
  }

  lemma MapWithout<A, B>(f: A -> B, xs: seq<A>, i: nat)
    requires i < |xs|
    ensures multiset(Map(f, Without(xs, i))) == multiset(Map(f, xs)) - multiset{f(xs[i])}
    ensures f(xs[i]) in multiset(Map(f, xs))
  {
    assert Map(f, Without(xs, i)) == Without(Map(f, xs), i);
    WithoutDropsOne(Map(f, xs), i);
    assert Map(f, xs)[i] == f(xs[i]);
  }

  /** Mapping a function over a list respects rearrangement. */
  lemma {:induction false} MapPermutes<A, B>(f: A -> B, xs: seq<A>, ys: seq<A>)
    requires multiset(xs) == multiset(ys)
    ensures multiset(Map(f, xs)) == multiset(Map(f, ys))
    decreases |xs|
  {
    SameLength(xs, ys);
    if xs != [] {
      SameMembers(xs, ys, xs[0]);
      var j :| 0 <= j < |ys| && ys[j] == xs[0];
      WithoutDropsOne(xs, 0);
      WithoutDropsOne(ys, j);
      MapPermutes(f, Without(xs, 0), Without(ys, j));
      MapWithout(f, xs, 0);
      MapWithout(f, ys, j);
      SameButOne(multiset(Map(f, xs)), multiset(Map(f, ys)), f(xs[0]));
    }
  }

  lemma SameButOne<T>(a: multiset<T>, b: multiset<T>, x: T)
    requires x in a && x in b && a - multiset{x} == b - multiset{x}
    ensures a == b
  {
    assert a == (a - multiset{x}) + multiset{x};
    assert b == (b - multiset{x}) + multiset{x};
  }

  /** No key carries two values. */
  ghost predicate OneValuePerKey(tags: seq<Tag>) {
    forall x, y :: x in tags && y in tags && x.key == y.key ==> x == y
  }

  /** A list with one value per key has a single arrangement in key order. */
  lemma {:induction false} SortedArrangementIsUnique(s: seq<Tag>, t: seq<Tag>)
    requires multiset(s) == multiset(t) && SortedBy(s, TagKey) && SortedBy(t, TagKey)
    requires OneValuePerKey(s)
    ensures s == t
    decreases |s|
  {
    SameLength(s, t);
    if s != [] {
      SameMembers(s, t, s[0]);
      SameMembers(s, t, t[0]);
      FirstIsLeast(s, t[0]);
      FirstIsLeast(t, s[0]);
      Trichotomy(s[0].key, t[0].key);
      TailsPermute(s, t);
      assert forall x :: x in s[1..] ==> x in s;
      SortedArrangementIsUnique(s[1..], t[1..]);
      assert s == [s[0]] + s[1..] && t == [t[0]] + t[1..];
    }
  }

  lemma TailsPermute<T>(s: seq<T>, t: seq<T>)
    requires multiset(s) == multiset(t) && s != [] && t != [] && s[0] == t[0]
    ensures multiset(s[1..]) == multiset(t[1..])
  {
    WithoutDropsOne(s, 0);
    WithoutDropsOne(t, 0);
    assert Without(s, 0) == s[1..] && Without(t, 0) == t[1..];
  }

  lemma FirstIsLeast(s: seq<Tag>, x: Tag)
    requires SortedBy(s, TagKey) && x in s
    ensures AtMost(s[0].key, x.key)
  {
    var i :| 0 <= i < |s| && s[i] == x;
    if i == 0 {
      Trichotomy(x.key, x.key);
    } else {
      assert InOrder(TagKey(s[0]), TagKey(s[i]));
    }
  }

  /** `CompareTags` without nil pointers: it returns, and true only for lists with the same entries. */
  lemma CompareIsSound(tags: seq<Tag>, ec2: seq<EC2Tag>, r: Outcome)
    requires CanReturn(tags, ec2, r) && AllSet(ec2)
    ensures r.Returned?
    ensures r.value ==> multiset(tags) == multiset(Build(ec2))
  {
    if |tags| == |ec2| {
      var s, t :| SortOf(s, tags, TagKey) && SortOf(t, ec2, EC2Key) && |s| == |t| && r == Scan(s, t, 0);
      AllSetPermutes(t, ec2);
      ScanDecides(s, t, 0);
      MapPermutes(FromEC2, t, ec2);
      assert s[0..] == s && Build(t)[0..] == Build(t);
    }
  }

  lemma AllSetPermutes(t: seq<EC2Tag>, ec2: seq<EC2Tag>)
    requires multiset(t) == multiset(ec2) && AllSet(ec2)
    ensures AllSet(t)
  {
    forall i | 0 <= i < |t| ensures t[i].key.Some? && t[i].value.Some? {
      SameMembers(t, ec2, t[i]);
    }
  }

  /** Lists with the same entries and one value per key always compare equal, however ties are sorted. */
  lemma CompareIsComplete(tags: seq<Tag>, ec2: seq<EC2Tag>, r: Outcome)
    requires CanReturn(tags, ec2, r) && AllSet(ec2)
    requires multiset(tags) == multiset(Build(ec2)) && OneValuePerKey(tags)
    ensures r == Returned(true)
  {
    SameLength(tags, Build(ec2));
    var s, t :| SortOf(s, tags, TagKey) && SortOf(t, ec2, EC2Key) && |s| == |t| && r == Scan(s, t, 0);
    AllSetPermutes(t, ec2);
    MapPermutes(FromEC2, t, ec2);
    assert SortedBy(Build(t), TagKey) by {
      forall i, j | 0 <= i < j < |t| ensures InOrder(TagKey(Build(t)[i]), TagKey(Build(t)[j])) {
        assert InOrder(EC2Key(t[i]), EC2Key(t[j]));
      }
    }
    assert OneValuePerKey(s) by {
      forall x | x in s ensures x in tags {
        SameMembers(s, tags, x);
      }
    }
    SortedArrangementIsUnique(s, Build(t));
    ScanDecides(s, t, 0);
  }
}
