/** `SecurityGroup.ResolveReferences`: a nested loop over the group pairs of the ingress rules. */
module SecurityGroups {
  import opened GoValues
  import opened Resolution
  import TagCompare

  datatype IPRange = IPRange(cidrIP: Str, description: Option<Str>)

  datatype PrefixListID = PrefixListID(description: Option<Str>, prefixListID: Str)

  datatype UserIDGroupPair = UserIDGroupPair(
    description: Option<Str>,
    groupID: Option<Str>,
    groupName: Option<Str>,
    userID: Option<Str>,
    vpcID: Option<Str>,
    vpcIDRef: Option<Reference>,
    vpcIDSelector: Option<Selector>,
    vpcPeeringConnectionID: Option<Str>)

  datatype IPPermission = IPPermission(
    fromPort: Option<int>,
    ipProtocol: Str,
    ipRanges: seq<IPRange>,
    ipv6Ranges: seq<IPRange>,
    prefixListIDs: seq<PrefixListID>,
    toPort: Option<int>,
    userIDGroupPairs: seq<UserIDGroupPair>)

  datatype SecurityGroupParameters = SecurityGroupParameters(
    region: Option<Str>,
    description: Str,
    groupName: Str,
    ingress: seq<IPPermission>,
    egress: seq<IPPermission>,
    tags: seq<TagCompare.Tag>,
    vpcID: Option<Str>,
    vpcIDRef: Option<Reference>,
    vpcIDSelector: Option<Selector>)

  // ----- The slots, in the order they are resolved, and everything else

  function VPCSlot(p: SecurityGroupParameters): Slot {
    Slot(p.vpcID, p.vpcIDRef, p.vpcIDSelector, VPC, EmptyIsNil)
  }

  function PairSlot(g: UserIDGroupPair): Slot {
    Slot(g.vpcID, g.vpcIDRef, g.vpcIDSelector, VPC, EmptyIsNil)
  }

  /** The slots of all pairs, rule by rule. */
  function PairSlots(rules: seq<IPPermission>): seq<Slot> {
    if rules == [] then []
    else PairSlots(rules[..|rules| - 1]) + Map(PairSlot, rules[|rules| - 1].userIDGroupPairs)
  }

  function Slots(p: SecurityGroupParameters): seq<Slot> {
    [VPCSlot(p)] + PairSlots(p.ingress)
  }

  function UnresolvedPair(g: UserIDGroupPair): UserIDGroupPair {
    g.(vpcID := None, vpcIDRef := None)
  }

  function UnresolvedRule(t: IPPermission): IPPermission {
    t.(userIDGroupPairs := Map(UnresolvedPair, t.userIDGroupPairs))
  }

  /** The parameters with every resolved value and reference blanked: what a pass must not touch. */
  function Frame(p: SecurityGroupParameters): SecurityGroupParameters {
    p.(vpcID := None, vpcIDRef := None, ingress := Map(UnresolvedRule, p.ingress))
  }

  function ViewOf(p: SecurityGroupParameters): View<SecurityGroupParameters> {
    View(Slots(p), Frame(p))
  }

  // ----- Positions

  /** Where the pairs of rule `i` start in `PairSlots`. */
  function Offset(rules: seq<IPPermission>, i: nat): nat
    requires i <= |rules|
  {
    |PairSlots(rules[..i])|
  }

  lemma OffsetStep(rules: seq<IPPermission>, i: nat)
    requires i < |rules|
    ensures Offset(rules, i + 1) == Offset(rules, i) + |rules[i].userIDGroupPairs|
  {
    assert rules[..i + 1][..i] == rules[..i];
  }

  lemma {:induction false} OffsetGrows(rules: seq<IPPermission>, i: nat, i': nat)
    requires i <= i' <= |rules|
    ensures Offset(rules, i) <= Offset(rules, i')
    decreases i' - i
  {
    if i < i' {
      OffsetStep(rules, i);
      OffsetGrows(rules, i + 1, i');
    }
  }

  ghost predicate IsPair(rules: seq<IPPermission>, i: nat, j: nat) {
    i < |rules| && j < |rules[i].userIDGroupPairs|
  }

  /** Positions run through the pairs in lexicographic order. */
  lemma PositionsAreLexicographic(rules: seq<IPPermission>, i: nat, j: nat, i': nat, j': nat)
    requires IsPair(rules, i, j) && IsPair(rules, i', j')
    ensures Offset(rules, i) + j < Offset(rules, i') + j' <==> i < i' || (i == i' && j < j')
  {
    if i < i' {
      OffsetStep(rules, i);
      OffsetGrows(rules, i + 1, i');
    } else if i' < i {
      OffsetStep(rules, i');
      OffsetGrows(rules, i' + 1, i);
    }
  }

  /** Each pair sits at its position. */
  lemma {:induction false} PairAt(rules: seq<IPPermission>, i: nat, j: nat)
    requires IsPair(rules, i, j)
    ensures Offset(rules, i) + j < |PairSlots(rules)|
    ensures PairSlots(rules)[Offset(rules, i) + j] == PairSlot(rules[i].userIDGroupPairs[j])
    decreases |rules|
  {
    var n := |rules| - 1;
    if i < n {
      assert rules[..n][..i] == rules[..i];
      PairAt(rules[..n], i, j);
    }
  }

  function WithPair(rules: seq<IPPermission>, i: nat, j: nat, g: UserIDGroupPair): seq<IPPermission>
    requires i < |rules| && j < |rules[i].userIDGroupPairs|
  {
    rules[i := rules[i].(userIDGroupPairs := rules[i].userIDGroupPairs[j := g])]
  }

  lemma UpdateLeft(a: seq<Slot>, b: seq<Slot>, i: nat, x: Slot)
    requires i < |a|
    ensures (a + b)[i := x] == a[i := x] + b
  {
  }

  lemma UpdateRight(a: seq<Slot>, b: seq<Slot>, i: nat, x: Slot)
    requires i < |b|
    ensures (a + b)[|a| + i := x] == a + b[i := x]
  {
  }

  lemma PairReplacesInLast(rules: seq<IPPermission>, j: nat, g: UserIDGroupPair)
    requires rules != [] && IsPair(rules, |rules| - 1, j)
    ensures var n := |rules| - 1;
            && Offset(rules, n) + j < |PairSlots(rules)|
            && PairSlots(WithPair(rules, n, j, g)) == PairSlots(rules)[Offset(rules, n) + j := PairSlot(g)]
  {
    var n := |rules| - 1;
    var rules' := WithPair(rules, n, j, g);
    UpdateRight(PairSlots(rules[..n]), Map(PairSlot, rules[n].userIDGroupPairs), j, PairSlot(g));
    assert rules'[..n] == rules[..n];
    assert Map(PairSlot, rules'[n].userIDGroupPairs) == Map(PairSlot, rules[n].userIDGroupPairs)[j := PairSlot(g)];
  }

  lemma PairReplacesInInit(rules: seq<IPPermission>, i: nat, j: nat, g: UserIDGroupPair, at: nat)
    requires IsPair(rules, i, j) && i < |rules| - 1
    requires var init := rules[..|rules| - 1];
             && at < |PairSlots(init)|
             && PairSlots(WithPair(init, i, j, g)) == PairSlots(init)[at := PairSlot(g)]
    ensures at < |PairSlots(rules)| && PairSlots(WithPair(rules, i, j, g)) == PairSlots(rules)[at := PairSlot(g)]
  {
    var n := |rules| - 1;
    var rules', last := WithPair(rules, i, j, g), Map(PairSlot, rules[n].userIDGroupPairs);
    assert rules'[..n] == WithPair(rules[..n], i, j, g);
    UpdateLeft(PairSlots(rules[..n]), last, at, PairSlot(g));
  }

  /** Replacing one pair replaces one slot. */
  lemma {:induction false} PairReplaces(rules: seq<IPPermission>, i: nat, j: nat, g: UserIDGroupPair)
    requires IsPair(rules, i, j)
    ensures Offset(rules, i) + j < |PairSlots(rules)|
    ensures PairSlots(WithPair(rules, i, j, g)) == PairSlots(rules)[Offset(rules, i) + j := PairSlot(g)]
    decreases |rules|
  {
    var n := |rules| - 1;
    if i < n {
      assert rules[..n][..i] == rules[..i];
      PairReplaces(rules[..n], i, j, g);
      PairReplacesInInit(rules, i, j, g, Offset(rules, i) + j);
    } else {
      PairReplacesInLast(rules, j, g);
    }
  }

  /** Two rule lists of the same shape. */
  ghost predicate SameShape(rules: seq<IPPermission>, rules': seq<IPPermission>) {
    && |rules| == |rules'|
    && forall i :: 0 <= i < |rules| ==> |rules[i].userIDGroupPairs| == |rules'[i].userIDGroupPairs|
  }

  lemma {:induction false} SameShapeSameOffset(rules: seq<IPPermission>, rules': seq<IPPermission>, i: nat)
    requires SameShape(rules, rules') && i <= |rules|
    ensures Offset(rules, i) == Offset(rules', i)
    decreases i
  {
    if i > 0 {
      OffsetStep(rules, i - 1);
      OffsetStep(rules', i - 1);
      SameShapeSameOffset(rules, rules', i - 1);
    }
  }

  lemma SameFrameSameShape(p: SecurityGroupParameters, p': SecurityGroupParameters)
    requires Frame(p) == Frame(p')
    ensures SameShape(p.ingress, p'.ingress)
  {
    var f, f' := Frame(p).ingress, Frame(p').ingress;
    assert |p.ingress| == |f| && |p'.ingress| == |f'|;
    forall i | 0 <= i < |p.ingress|
      ensures |p.ingress[i].userIDGroupPairs| == |p'.ingress[i].userIDGroupPairs|
    {
      assert f[i] == UnresolvedRule(p.ingress[i]) && f'[i] == UnresolvedRule(p'.ingress[i]);
    }
  }

  lemma SamePairSlot(p: SecurityGroupParameters, p': SecurityGroupParameters, i: nat, j: nat)
    requires Slots(p) == Slots(p') && SameShape(p.ingress, p'.ingress) && IsPair(p.ingress, i, j)
    ensures PairSlot(p.ingress[i].userIDGroupPairs[j]) == PairSlot(p'.ingress[i].userIDGroupPairs[j])
  {
    PairAt(p.ingress, i, j);
    PairAt(p'.ingress, i, j);
    SameShapeSameOffset(p.ingress, p'.ingress, i);
    assert Slots(p)[1..] == PairSlots(p.ingress) && Slots(p')[1..] == PairSlots(p'.ingress);
  }

  lemma PairDetermined(p: SecurityGroupParameters, p': SecurityGroupParameters, i: nat, j: nat)
    requires Slots(p) == Slots(p') && Frame(p) == Frame(p') && SameShape(p.ingress, p'.ingress)
    requires IsPair(p.ingress, i, j)
    ensures p.ingress[i].userIDGroupPairs[j] == p'.ingress[i].userIDGroupPairs[j]
  {
    SamePairSlot(p, p', i, j);
    assert Frame(p).ingress[i] == Frame(p').ingress[i];
    assert Frame(p).ingress[i].userIDGroupPairs[j] == Frame(p').ingress[i].userIDGroupPairs[j];
  }

  lemma SameViewSameParameters(p: SecurityGroupParameters, p': SecurityGroupParameters)
    requires ViewOf(p) == ViewOf(p')
    ensures p == p'
  {
    SameFrameSameShape(p, p');
    assert Slots(p)[0] == Slots(p')[0];
    forall i | 0 <= i < |p.ingress| ensures p.ingress[i] == p'.ingress[i] {
      forall j | 0 <= j < |p.ingress[i].userIDGroupPairs|
        ensures p.ingress[i].userIDGroupPairs[j] == p'.ingress[i].userIDGroupPairs[j]
      {
        PairDetermined(p, p', i, j);
      }
      assert Frame(p).ingress[i] == Frame(p').ingress[i];
    }
    assert p.ingress == p'.ingress;
  }

  /** The slots and the frame together are the whole of the parameters. */
  lemma ViewDetermines()
    ensures Determines(ViewOf)
  {
    forall p, p' | ViewOf(p) == ViewOf(p') ensures p == p' {
      SameViewSameParameters(p, p');
    }
  }

  // ----- The pass

  datatype Path = VPCPath | PairPath(rule: nat, pair: nat)

  /** The path names slot `n`. */
  ghost predicate Names(p: SecurityGroupParameters, n: nat, path: Path) {
    match path
    case VPCPath => n == 0
    case PairPath(i, j) => IsPair(p.ingress, i, j) && n == 1 + Offset(p.ingress, i) + j
  }

  /** What a call on `p0` must leave behind, and the error it must return. */
  ghost predicate Leaves(r: Resolver, p0: SecurityGroupParameters, p: SecurityGroupParameters,
                         err: Option<PathError<Path>>)
  {
    LeftBy(ViewOf, Names, r, p0, p, err)
  }

  function WithVPC(p: SecurityGroupParameters, a: Answer): SecurityGroupParameters {
    p.(vpcID := ToPtr(EmptyIsNil, a.resolvedValue), vpcIDRef := a.resolvedReference)
  }

  function WithPairVPC(p: SecurityGroupParameters, i: nat, j: nat, a: Answer): SecurityGroupParameters
    requires i < |p.ingress| && j < |p.ingress[i].userIDGroupPairs|
  {
    var g := p.ingress[i].userIDGroupPairs[j];
    p.(ingress := WithPair(p.ingress, i, j,
                           g.(vpcID := ToPtr(EmptyIsNil, a.resolvedValue), vpcIDRef := a.resolvedReference)))
  }

  lemma PairKeepsFrame(p: SecurityGroupParameters, i: nat, j: nat, a: Answer)
    requires IsPair(p.ingress, i, j)
    ensures Frame(WithPairVPC(p, i, j, a)) == Frame(p)
  {
    var p' := WithPairVPC(p, i, j, a);
    assert UnresolvedRule(p'.ingress[i]) == UnresolvedRule(p.ingress[i]);
    assert Map(UnresolvedRule, p'.ingress) == Map(UnresolvedRule, p.ingress);
  }

  lemma PairSlotAt(p: SecurityGroupParameters, i: nat, j: nat, n: nat)
    requires IsPair(p.ingress, i, j) && n == 1 + Offset(p.ingress, i) + j
    ensures n < |Slots(p)| && Slots(p)[n] == PairSlot(p.ingress[i].userIDGroupPairs[j])
  {
    PairAt(p.ingress, i, j);
  }

  lemma PairWrites(p: SecurityGroupParameters, i: nat, j: nat, n: nat, a: Answer)
    requires IsPair(p.ingress, i, j) && n == 1 + Offset(p.ingress, i) + j
    ensures Writes(ViewOf(p), ViewOf(WithPairVPC(p, i, j, a)), n, a)
  {
    var g := p.ingress[i].userIDGroupPairs[j];
    PairSlotAt(p, i, j, n);
    PairKeepsFrame(p, i, j, a);
    PairReplaces(p.ingress, i, j, g.(vpcID := ToPtr(EmptyIsNil, a.resolvedValue), vpcIDRef := a.resolvedReference));
  }

  lemma HandleVPCReply(r: Resolver, p: SecurityGroupParameters, reply: Reply)
    requires reply == r(0, VPCSlot(p).Ask())
    ensures reply.Failed? ==> Leaves(r, p, p, Some(PathError(VPCPath, reply.error)))
    ensures reply.Resolved? ==> Progress(r, ViewOf(p), ViewOf(WithVPC(p, reply.answer)), 1)
  {
    Starts(r, ViewOf(p));
    var p' := if reply.Resolved? then WithVPC(p, reply.answer) else p;
    Step(r, ViewOf(p), ViewOf(p), ViewOf(p'), 0, reply);
  }

  /** One request of the loop: a failure ends the call, an answer advances the pass by one slot. */
  lemma HandlePairReply(r: Resolver, p0: SecurityGroupParameters, p: SecurityGroupParameters,
                        i: nat, j: nat, n: nat, reply: Reply)
    requires SameShape(p.ingress, p0.ingress) && IsPair(p.ingress, i, j)
    requires n == 1 + Offset(p0.ingress, i) + j && Progress(r, ViewOf(p0), ViewOf(p), n)
    requires reply == r(n, PairSlot(p.ingress[i].userIDGroupPairs[j]).Ask())
    ensures reply.Failed? ==> Leaves(r, p0, p, Some(PathError(PairPath(i, j), reply.error)))
    ensures reply.Resolved? ==> Progress(r, ViewOf(p0), ViewOf(WithPairVPC(p, i, j, reply.answer)), n + 1)
    ensures reply.Resolved? ==> SameShape(WithPairVPC(p, i, j, reply.answer).ingress, p0.ingress)
  {
    SameShapeSameOffset(p.ingress, p0.ingress, i);
    PairSlotAt(p, i, j, n);
    PairSlotAt(p0, i, j, n);
    if reply.Resolved? {
      PairWrites(p, i, j, n, reply.answer);
      Step(r, ViewOf(p0), ViewOf(p), ViewOf(WithPairVPC(p, i, j, reply.answer)), n, reply);
    } else {
      Step(r, ViewOf(p0), ViewOf(p), ViewOf(p), n, reply);
    }
  }

  class SecurityGroup {
    var forProvider: SecurityGroupParameters

    /** The inner loop, over the pairs of rule `i`, starting with request number `from`. */
    method ResolvePairs(r: Resolver, i: nat, from: nat, ghost p0: SecurityGroupParameters)
      returns (err: Option<PathError<Path>>, n: nat)
      requires i < |forProvider.ingress| && SameShape(forProvider.ingress, p0.ingress)
      requires from == 1 + Offset(p0.ingress, i) && Progress(r, ViewOf(p0), ViewOf(forProvider), from)
      modifies this
      ensures SameShape(forProvider.ingress, p0.ingress)
      ensures err.Some? ==> Leaves(r, p0, forProvider, err)
      ensures err.None? ==> n == 1 + Offset(p0.ingress, i + 1) && Progress(r, ViewOf(p0), ViewOf(forProvider), n)
    {
      OffsetStep(p0.ingress, i);
      n := from;
      for j := 0 to |forProvider.ingress[i].userIDGroupPairs|
        invariant SameShape(forProvider.ingress, p0.ingress)
        invariant n == from + j
        invariant Progress(r, ViewOf(p0), ViewOf(forProvider), n)
      {
        var g := forProvider.ingress[i].userIDGroupPairs[j];
        var reply := r(n, Request(StringValue(g.vpcID), g.vpcIDRef, g.vpcIDSelector, VPC));
        HandlePairReply(r, p0, forProvider, i, j, n, reply);
        if reply.Failed? {
          return Some(PathError(PairPath(i, j), reply.error)), n;
        }
        forProvider := WithPairVPC(forProvider, i, j, reply.answer);
        n := n + 1;
      }
      return None, n;
    }

    /**
     The nested loop writes exactly the pairs that come, in lexicographic order,
     before the first failure, each with the answer to its own original request;
     egress rules, the shape of the lists and all other fields are untouched.
     */
    method ResolveReferences(r: Resolver) returns (err: Option<PathError<Path>>)
      modifies this
      ensures Leaves(r, old(forProvider), forProvider, err)
    {
      ghost var p0 := forProvider;
      var reply := r(0, Request(StringValue(forProvider.vpcID), forProvider.vpcIDRef, forProvider.vpcIDSelector, VPC));
      HandleVPCReply(r, p0, reply);
      if reply.Failed? {
        return Some(PathError(VPCPath, reply.error));
      }
      forProvider := WithVPC(forProvider, reply.answer);
      var n := 1;
      SameFrameSameShape(forProvider, p0);
      for i := 0 to |forProvider.ingress|
        invariant SameShape(forProvider.ingress, p0.ingress)
        invariant n == 1 + Offset(p0.ingress, i)
        invariant Progress(r, ViewOf(p0), ViewOf(forProvider), n)
      {
        err, n := ResolvePairs(r, i, n, p0);
        if err.Some? {
          return;
        }
      }
      assert p0.ingress[..|p0.ingress|] == p0.ingress;
      Finishes(r, ViewOf(p0), ViewOf(forProvider));
      return None;
    }
  }

  // ----- What a call leaves, field by field

  /** The number of pairs in the rules before rule `i`. */
  function PairsBefore(rules: seq<IPPermission>, i: nat): nat
    requires i <= |rules|
  {
    if i == 0 then 0 else PairsBefore(rules, i - 1) + |rules[i - 1].userIDGroupPairs|
  }

  lemma {:induction false} OffsetCountsPairs(rules: seq<IPPermission>, i: nat)
    requires i <= |rules|
    ensures Offset(rules, i) == PairsBefore(rules, i)
    decreases i
  {
    if i > 0 {
      OffsetStep(rules, i - 1);
      OffsetCountsPairs(rules, i - 1);
    }
  }

  lemma SlotLeft(r: Resolver, p0: SecurityGroupParameters, p: SecurityGroupParameters, err: Option<PathError<Path>>,
                 n: nat)
    requires Leaves(r, p0, p, err) && n < |Slots(p0)|
    ensures |Slots(p)| == |Slots(p0)| && SameShape(p.ingress, p0.ingress)
    ensures var k, s, reply := FirstFailure(r, Slots(p0)), Slots(p0)[n], r(n, Slots(p0)[n].Ask());
            if n < k then reply.Resolved? && Slots(p)[n] == s.Fill(reply.answer)
            else Slots(p)[n] == s && (n == k ==> err.Some? && reply == Failed(err.value.cause))
  {
    SameFrameSameShape(p, p0);
  }

  /** Only values and references of ingress pairs change, and an error names a pair that exists. */
  lemma RestLeft(r: Resolver, p0: SecurityGroupParameters, p: SecurityGroupParameters, err: Option<PathError<Path>>)
    requires Leaves(r, p0, p, err)
    ensures p == p0.(vpcID := p.vpcID, vpcIDRef := p.vpcIDRef, ingress := p.ingress)
    ensures |p.ingress| == |p0.ingress|
    ensures forall i :: 0 <= i < |p.ingress| ==>
              && p.ingress[i] == p0.ingress[i].(userIDGroupPairs := p.ingress[i].userIDGroupPairs)
              && |p.ingress[i].userIDGroupPairs| == |p0.ingress[i].userIDGroupPairs|
    ensures forall i, j :: 0 <= i < |p.ingress| && 0 <= j < |p.ingress[i].userIDGroupPairs| ==>
              var g := p.ingress[i].userIDGroupPairs[j];
              g == p0.ingress[i].userIDGroupPairs[j].(vpcID := g.vpcID, vpcIDRef := g.vpcIDRef)
    ensures err.Some? && err.value.path.PairPath? ==>
              var PairPath(i, j) := err.value.path;
              i < |p0.ingress| && j < |p0.ingress[i].userIDGroupPairs|
  {
    SameFrameSameShape(p, p0);
    RestOfFrame(p, p0);
    forall i | 0 <= i < |p.ingress|
      ensures p.ingress[i] == p0.ingress[i].(userIDGroupPairs := p.ingress[i].userIDGroupPairs)
      ensures forall j :: 0 <= j < |p.ingress[i].userIDGroupPairs| ==>
                var g := p.ingress[i].userIDGroupPairs[j];
                g == p0.ingress[i].userIDGroupPairs[j].(vpcID := g.vpcID, vpcIDRef := g.vpcIDRef)
    {
      assert Frame(p).ingress[i] == Frame(p0).ingress[i];
      RestOfRule(p.ingress[i], p0.ingress[i]);
    }
  }

  lemma RestOfFrame(p: SecurityGroupParameters, p0: SecurityGroupParameters)
    requires Frame(p) == Frame(p0)
    ensures p == p0.(vpcID := p.vpcID, vpcIDRef := p.vpcIDRef, ingress := p.ingress)
  {
    var f, f0 := Frame(p), Frame(p0);
    assert f.region == f0.region && f.description == f0.description && f.groupName == f0.groupName;
    assert f.egress == f0.egress && f.tags == f0.tags && f.vpcIDSelector == f0.vpcIDSelector;
  }

  lemma RestOfRule(t: IPPermission, t0: IPPermission)
    requires UnresolvedRule(t) == UnresolvedRule(t0)
    ensures |t.userIDGroupPairs| == |t0.userIDGroupPairs|
    ensures t == t0.(userIDGroupPairs := t.userIDGroupPairs)
    ensures forall j :: 0 <= j < |t.userIDGroupPairs| ==>
              var g := t.userIDGroupPairs[j];
              g == t0.userIDGroupPairs[j].(vpcID := g.vpcID, vpcIDRef := g.vpcIDRef)
  {
    var u, u0 := UnresolvedRule(t), UnresolvedRule(t0);
    assert u.fromPort == u0.fromPort && u.ipProtocol == u0.ipProtocol && u.ipRanges == u0.ipRanges;
    assert u.ipv6Ranges == u0.ipv6Ranges && u.prefixListIDs == u0.prefixListIDs && u.toPort == u0.toPort;
    assert |u.userIDGroupPairs| == |t.userIDGroupPairs| && |u0.userIDGroupPairs| == |t0.userIDGroupPairs|;
    forall j | 0 <= j < |t.userIDGroupPairs|
      ensures UnresolvedPair(t.userIDGroupPairs[j]) == UnresolvedPair(t0.userIDGroupPairs[j])
    {
      assert u.userIDGroupPairs[j] == u0.userIDGroupPairs[j];
    }
  }

  /** The VPC is resolved unless its own request fails; an empty answer leaves nil. */
  lemma VPCLeft(r: Resolver, p0: SecurityGroupParameters, p: SecurityGroupParameters, err: Option<PathError<Path>>)
    requires Leaves(r, p0, p, err)
    ensures var current := if p0.vpcID.Some? then p0.vpcID.value else [];
            var reply := r(0, Request(current, p0.vpcIDRef, p0.vpcIDSelector, VPC));
            if err.None? || err.value.path != VPCPath then
              && reply.Resolved? && p.vpcIDRef == reply.answer.resolvedReference
              && p.vpcID == if |reply.answer.resolvedValue| == 0 then None else Some(reply.answer.resolvedValue)
            else
              reply == Failed(err.value.cause) && p.vpcID == p0.vpcID && p.vpcIDRef == p0.vpcIDRef
  {
    SlotLeft(r, p0, p, err, 0);
    FailsAtPath(r, p0, p, err);
  }

  /** An error names the first request that fails. */
  lemma FailsAtPath(r: Resolver, p0: SecurityGroupParameters, p: SecurityGroupParameters,
                    err: Option<PathError<Path>>)
    requires Leaves(r, p0, p, err)
    ensures var n := FirstFailure(r, Slots(p0));
            if err.None? then n == |Slots(p0)|
            else
              match err.value.path
              case VPCPath => n == 0
              case PairPath(i, j) => IsPair(p0.ingress, i, j) && n == 1 + Offset(p0.ingress, i) + j < |Slots(p0)|
  {
    if err.Some? && err.value.path.PairPath? {
      PairSlotAt(p0, err.value.path.rule, err.value.path.pair, FirstFailure(r, Slots(p0)));
    }
  }

  /** The call got past the request for pair `j` of rule `i`. */
  ghost predicate Past(err: Option<PathError<Path>>, i: nat, j: nat) {
    err.None? || (err.value.path.PairPath? &&
                  (i < err.value.path.rule || (i == err.value.path.rule && j < err.value.path.pair)))
  }

  lemma PairReached(r: Resolver, p0: SecurityGroupParameters, p: SecurityGroupParameters,
                    err: Option<PathError<Path>>, i: nat, j: nat)
    requires Leaves(r, p0, p, err) && IsPair(p0.ingress, i, j)
    ensures var n, k := 1 + Offset(p0.ingress, i) + j, FirstFailure(r, Slots(p0));
            && n < |Slots(p0)| && (n < k <==> Past(err, i, j))
            && (err.Some? && err.value.path == PairPath(i, j) ==> n == k)
  {
    PairSlotAt(p0, i, j, 1 + Offset(p0.ingress, i) + j);
    FailsAtPath(r, p0, p, err);
    if err.Some? && err.value.path.PairPath? {
      PositionsAreLexicographic(p0.ingress, i, j, err.value.path.rule, err.value.path.pair);
    }
  }

  lemma PairSlotLeft(r: Resolver, p0: SecurityGroupParameters, p: SecurityGroupParameters,
                     err: Option<PathError<Path>>, i: nat, j: nat) returns (reply: Reply)
    requires Leaves(r, p0, p, err) && IsPair(p0.ingress, i, j)
    ensures SameShape(p.ingress, p0.ingress)
    ensures var s0, s := PairSlot(p0.ingress[i].userIDGroupPairs[j]), PairSlot(p.ingress[i].userIDGroupPairs[j]);
            && reply == r(1 + PairsBefore(p0.ingress, i) + j, s0.Ask())
            && (Past(err, i, j) ==> reply.Resolved? && s == s0.Fill(reply.answer))
            && (!Past(err, i, j) ==> s == s0)
            && (err.Some? && err.value.path == PairPath(i, j) ==> reply == Failed(err.value.cause))
  {
    var n := 1 + Offset(p0.ingress, i) + j;
    PairReached(r, p0, p, err, i, j);
    PairSlotAt(p0, i, j, n);
    SlotLeft(r, p0, p, err, n);
    SameShapeSameOffset(p.ingress, p0.ingress, i);
    PairSlotAt(p, i, j, n);
    OffsetCountsPairs(p0.ingress, i);
    reply := r(n, Slots(p0)[n].Ask());
  }

  lemma PairFilled(g0: UserIDGroupPair, g: UserIDGroupPair, a: Answer)
    requires PairSlot(g) == PairSlot(g0).Fill(a)
    ensures g.vpcIDRef == a.resolvedReference
    ensures g.vpcID == if |a.resolvedValue| == 0 then None else Some(a.resolvedValue)
  {
  }

  /**
   Pair `j` of ingress rule `i` is resolved, by the request that counts the VPC and all
   pairs before it, unless the VPC, that pair or one lexicographically before it fails.
   */
  lemma PairLeft(r: Resolver, p0: SecurityGroupParameters, p: SecurityGroupParameters, err: Option<PathError<Path>>,
                 i: nat, j: nat)
    requires Leaves(r, p0, p, err) && i < |p0.ingress| && j < |p0.ingress[i].userIDGroupPairs|
    ensures |p.ingress| == |p0.ingress| && |p.ingress[i].userIDGroupPairs| == |p0.ingress[i].userIDGroupPairs|
    ensures var g0, g := p0.ingress[i].userIDGroupPairs[j], p.ingress[i].userIDGroupPairs[j];
            var current := if g0.vpcID.Some? then g0.vpcID.value else [];
            var reply := r(1 + PairsBefore(p0.ingress, i) + j,
                           Request(current, g0.vpcIDRef, g0.vpcIDSelector, VPC));
            if err.None? || (err.value.path.PairPath? &&
                             (i < err.value.path.rule || (i == err.value.path.rule && j < err.value.path.pair)))
            then
              && reply.Resolved? && g.vpcIDRef == reply.answer.resolvedReference
              && g.vpcID == if |reply.answer.resolvedValue| == 0 then None else Some(reply.answer.resolvedValue)
            else
              && g.vpcID == g0.vpcID && g.vpcIDRef == g0.vpcIDRef
              && (err.value.path == PairPath(i, j) ==> reply == Failed(err.value.cause))
  {
    var reply := PairSlotLeft(r, p0, p, err, i, j);
    var g0, g := p0.ingress[i].userIDGroupPairs[j], p.ingress[i].userIDGroupPairs[j];
    var current := if g0.vpcID.Some? then g0.vpcID.value else [];
    assert PairSlot(g0).Ask() == Request(current, g0.vpcIDRef, g0.vpcIDSelector, VPC);
    if Past(err, i, j) {
      PairFilled(g0, g, reply.answer);
    } else {
      assert g.vpcID == PairSlot(g).value && g0.vpcID == PairSlot(g0).value;
    }
  }
}
