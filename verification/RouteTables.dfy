/** `RouteTable.ResolveReferences`: three loops over the routes and associations of a table. */
module RouteTables {
  import opened GoValues
  import opened Resolution
  import TagCompare

  datatype Route = Route(
    destinationCIDRBlock: Option<Str>,
    destinationIPV6CIDRBlock: Option<Str>,
    egressOnlyInternetGatewayID: Option<Str>,
    gatewayID: Option<Str>,
    gatewayIDRef: Option<Reference>,
    gatewayIDSelector: Option<Selector>,
    instanceID: Option<Str>,
    localGatewayID: Option<Str>,
    natGatewayIDRef: Option<Reference>,
    natGatewayIDSelector: Option<Selector>,
    natGatewayID: Option<Str>,
    networkInterfaceID: Option<Str>,
    transitGatewayID: Option<Str>,
    vpcPeeringConnectionID: Option<Str>)

  datatype Association = Association(
    subnetID: Option<Str>,
    subnetIDRef: Option<Reference>,
    subnetIDSelector: Option<Selector>)

  datatype RouteTableParameters = RouteTableParameters(
    region: Str,
    associations: seq<Association>,
    routes: seq<Route>,
    tags: seq<TagCompare.Tag>,
    vpcID: Option<Str>,
    vpcIDRef: Option<Reference>,
    vpcIDSelector: Option<Selector>)

  // ----- The slots of a table, in the order they are resolved, and everything else

  function VPCSlot(p: RouteTableParameters): Slot {
    Slot(p.vpcID, p.vpcIDRef, p.vpcIDSelector, VPC, KeepEmpty)
  }

  function GatewaySlot(t: Route): Slot {
    Slot(t.gatewayID, t.gatewayIDRef, t.gatewayIDSelector, InternetGateway, KeepEmpty)
  }

  function NATGatewaySlot(t: Route): Slot {
    Slot(t.natGatewayID, t.natGatewayIDRef, t.natGatewayIDSelector, NATGateway, KeepEmpty)
  }

  function SubnetSlot(a: Association): Slot {
    Slot(a.subnetID, a.subnetIDRef, a.subnetIDSelector, Subnet, KeepEmpty)
  }

  function SlotCount(p: RouteTableParameters): nat {
    1 + 2 * |p.routes| + |p.associations|
  }

  /** The VPC first, then all gateways, all NAT gateways, all subnets. */
  function SlotAt(p: RouteTableParameters, n: nat): Slot
    requires n < SlotCount(p)
  {
    var k := |p.routes|;
    if n == 0 then VPCSlot(p)
    else if n <= k then GatewaySlot(p.routes[n - 1])
    else if n <= 2 * k then NATGatewaySlot(p.routes[n - 1 - k])
    else SubnetSlot(p.associations[n - 1 - 2 * k])
  }

  function Slots(p: RouteTableParameters): (s: seq<Slot>)
    ensures |s| == SlotCount(p)
    ensures forall n :: 0 <= n < SlotCount(p) ==> s[n] == SlotAt(p, n)
  {
    seq(SlotCount(p), n requires 0 <= n < SlotCount(p) => SlotAt(p, n))
  }

  function UnresolvedRoute(t: Route): Route {
    t.(gatewayID := None, gatewayIDRef := None, natGatewayID := None, natGatewayIDRef := None)
  }

  function UnresolvedAssociation(a: Association): Association {
    a.(subnetID := None, subnetIDRef := None)
  }

  /** The parameters with every resolved value and reference blanked: what a pass must not touch. */
  function Frame(p: RouteTableParameters): RouteTableParameters {
    p.(vpcID := None, vpcIDRef := None,
       routes := Map(UnresolvedRoute, p.routes), associations := Map(UnresolvedAssociation, p.associations))
  }

  function ViewOf(p: RouteTableParameters): View<RouteTableParameters> {
    View(Slots(p), Frame(p))
  }

  lemma SameShape(p: RouteTableParameters, p0: RouteTableParameters)
    requires Frame(p) == Frame(p0)
    ensures |p.routes| == |p0.routes| && |p.associations| == |p0.associations|
  {
    assert |p.routes| == |Frame(p).routes| && |p0.routes| == |Frame(p0).routes|;
    assert |p.associations| == |Frame(p).associations| && |p0.associations| == |Frame(p0).associations|;
  }

  lemma RoutesDetermined(p: RouteTableParameters, p': RouteTableParameters, i: nat)
    requires Slots(p) == Slots(p') && Frame(p) == Frame(p') && i < |p.routes| == |p'.routes|
    ensures p.routes[i] == p'.routes[i]
  {
    assert Frame(p).routes[i] == Frame(p').routes[i];
    assert Slots(p)[1 + i] == Slots(p')[1 + i];
    assert Slots(p)[1 + |p.routes| + i] == Slots(p')[1 + |p.routes| + i];
  }

  lemma AssociationsDetermined(p: RouteTableParameters, p': RouteTableParameters, i: nat)
    requires Slots(p) == Slots(p') && Frame(p) == Frame(p') && i < |p.associations| == |p'.associations|
    requires |p.routes| == |p'.routes|
    ensures p.associations[i] == p'.associations[i]
  {
    assert Frame(p).associations[i] == Frame(p').associations[i];
    assert Slots(p)[1 + 2 * |p.routes| + i] == Slots(p')[1 + 2 * |p.routes| + i];
  }

  lemma SameViewSameParameters(p: RouteTableParameters, p': RouteTableParameters)
    requires ViewOf(p) == ViewOf(p')
    ensures p == p'
  {
    SameShape(p, p');
    assert Slots(p)[0] == Slots(p')[0];
    forall i | 0 <= i < |p.routes| ensures p.routes[i] == p'.routes[i] {
      RoutesDetermined(p, p', i);
    }
    forall i | 0 <= i < |p.associations| ensures p.associations[i] == p'.associations[i] {
      AssociationsDetermined(p, p', i);
    }
  }

  /** The slots and the frame together are the whole of the parameters. */
  lemma ViewDetermines()
    ensures Determines(ViewOf)
  {
    forall p, p' | ViewOf(p) == ViewOf(p') ensures p == p' {
      SameViewSameParameters(p, p');
    }
  }

  // ----- The pass

  /** The parameters with answer `a` written to slot `n`. */
  function WithSlot(p: RouteTableParameters, n: nat, a: Answer): RouteTableParameters
    requires n < SlotCount(p)
  {
    var k, id, ref := |p.routes|, Some(a.resolvedValue), a.resolvedReference;
    if n == 0 then p.(vpcID := id, vpcIDRef := ref)
    else if n <= k then
      p.(routes := p.routes[n - 1 := p.routes[n - 1].(gatewayID := id, gatewayIDRef := ref)])
    else if n <= 2 * k then
      var i := n - 1 - k;
      p.(routes := p.routes[i := p.routes[i].(natGatewayID := id, natGatewayIDRef := ref)])
    else
      var i := n - 1 - 2 * k;
      p.(associations := p.associations[i := p.associations[i].(subnetID := id, subnetIDRef := ref)])
  }

  /** It changes that slot and nothing else. */
  lemma WithSlotWrites(p: RouteTableParameters, n: nat, a: Answer)
    requires n < SlotCount(p)
    ensures Writes(ViewOf(p), ViewOf(WithSlot(p, n, a)), n, a)
  {
    var p' := WithSlot(p, n, a);
    assert Map(UnresolvedRoute, p'.routes) == Map(UnresolvedRoute, p.routes);
    assert Map(UnresolvedAssociation, p'.associations) == Map(UnresolvedAssociation, p.associations);
    forall j | 0 <= j < SlotCount(p) && j != n ensures SlotAt(p', j) == SlotAt(p, j) {
    }
  }

  /** Where an error is reported. */
  datatype Path = VPCPath | GatewayPath(route: nat) | NATGatewayPath(route: nat) | SubnetPath(association: nat)

  function PathOf(p: RouteTableParameters, n: nat): Path {
    var k := |p.routes|;
    if n == 0 then VPCPath
    else if n <= k then GatewayPath(n - 1)
    else if n <= 2 * k then NATGatewayPath(n - 1 - k)
    else SubnetPath(n - 1 - 2 * k)
  }

  predicate Names(p: RouteTableParameters, n: nat, path: Path) {
    path == PathOf(p, n)
  }

  /** What a call on `p0` must leave behind, and the error it must return. */
  ghost predicate Leaves(r: Resolver, p0: RouteTableParameters, p: RouteTableParameters, err: Option<PathError<Path>>) {
    LeftBy(ViewOf, Names, r, p0, p, err)
  }

  /** One request of a loop: a failure ends the call, an answer advances the pass by one slot. */
  lemma HandleReply(r: Resolver, p0: RouteTableParameters, p: RouteTableParameters, n: nat, reply: Reply)
    requires Progress(r, ViewOf(p0), ViewOf(p), n) && n < SlotCount(p) && reply == r(n, SlotAt(p, n).Ask())
    ensures |p.routes| == |p0.routes| && |p.associations| == |p0.associations|
    ensures reply.Failed? ==> Leaves(r, p0, p, Some(PathError(PathOf(p0, n), reply.error)))
    ensures reply.Resolved? ==> Progress(r, ViewOf(p0), ViewOf(WithSlot(p, n, reply.answer)), n + 1)
  {
    SameShape(p, p0);
    if reply.Resolved? {
      WithSlotWrites(p, n, reply.answer);
      Step(r, ViewOf(p0), ViewOf(p), ViewOf(WithSlot(p, n, reply.answer)), n, reply);
    } else {
      Step(r, ViewOf(p0), ViewOf(p), ViewOf(p), n, reply);
    }
  }

  class RouteTable {
    var forProvider: RouteTableParameters

    // The three loops. Each resolves its slots in turn, or returns at the first error.

    method ResolveGateways(r: Resolver, ghost p0: RouteTableParameters) returns (err: Option<PathError<Path>>)
      requires Progress(r, ViewOf(p0), ViewOf(forProvider), 1)
      modifies this
      ensures err.None? ==> Progress(r, ViewOf(p0), ViewOf(forProvider), 1 + |forProvider.routes|)
      ensures err.Some? ==> Leaves(r, p0, forProvider, err)
    {
      var k := |forProvider.routes|;
      for i := 0 to k
        invariant k == |forProvider.routes|
        invariant Progress(r, ViewOf(p0), ViewOf(forProvider), 1 + i)
      {
        var t := forProvider.routes[i];
        var n := 1 + i;
        var reply := r(n, Request(StringValue(t.gatewayID), t.gatewayIDRef, t.gatewayIDSelector, InternetGateway));
        ghost var p := forProvider;
        HandleReply(r, p0, p, n, reply);
        if reply.Failed? {
          return Some(PathError(GatewayPath(i), reply.error));
        }
        var id, ref := Some(reply.answer.resolvedValue), reply.answer.resolvedReference;
        forProvider := forProvider.(routes := forProvider.routes[i := t.(gatewayID := id, gatewayIDRef := ref)]);
        assert forProvider == WithSlot(p, n, reply.answer);
      }
      return None;
    }

    method ResolveNATGateways(r: Resolver, ghost p0: RouteTableParameters) returns (err: Option<PathError<Path>>)
      requires Progress(r, ViewOf(p0), ViewOf(forProvider), 1 + |forProvider.routes|)
      modifies this
      ensures err.None? ==> Progress(r, ViewOf(p0), ViewOf(forProvider), 1 + 2 * |forProvider.routes|)
      ensures err.Some? ==> Leaves(r, p0, forProvider, err)
    {
      var k := |forProvider.routes|;
      for i := 0 to k
        invariant k == |forProvider.routes|
        invariant Progress(r, ViewOf(p0), ViewOf(forProvider), 1 + k + i)
      {
        var t := forProvider.routes[i];
        var n := 1 + k + i;
        var reply := r(n, Request(StringValue(t.natGatewayID), t.natGatewayIDRef, t.natGatewayIDSelector, NATGateway));
        ghost var p := forProvider;
        HandleReply(r, p0, p, n, reply);
        if reply.Failed? {
          return Some(PathError(NATGatewayPath(i), reply.error));
        }
        var id, ref := Some(reply.answer.resolvedValue), reply.answer.resolvedReference;
        forProvider := forProvider.(routes := forProvider.routes[i := t.(natGatewayID := id, natGatewayIDRef := ref)]);
        assert forProvider == WithSlot(p, n, reply.answer);
      }
      return None;
    }

    method ResolveSubnets(r: Resolver, ghost p0: RouteTableParameters) returns (err: Option<PathError<Path>>)
      requires Progress(r, ViewOf(p0), ViewOf(forProvider), 1 + 2 * |forProvider.routes|)
      modifies this
      ensures err.None? ==> Progress(r, ViewOf(p0), ViewOf(forProvider), SlotCount(forProvider))
      ensures err.Some? ==> Leaves(r, p0, forProvider, err)
    {
      var k, m := |forProvider.routes|, |forProvider.associations|;
      for i := 0 to m
        invariant k == |forProvider.routes| && m == |forProvider.associations|
        invariant Progress(r, ViewOf(p0), ViewOf(forProvider), 1 + 2 * k + i)
      {
        var t := forProvider.associations[i];
        var n := 1 + 2 * k + i;
        var reply := r(n, Request(StringValue(t.subnetID), t.subnetIDRef, t.subnetIDSelector, Subnet));
        ghost var p := forProvider;
        HandleReply(r, p0, p, n, reply);
        if reply.Failed? {
          return Some(PathError(SubnetPath(i), reply.error));
        }
        var id, ref := Some(reply.answer.resolvedValue), reply.answer.resolvedReference;
        forProvider := forProvider.(
          associations := forProvider.associations[i := t.(subnetID := id, subnetIDRef := ref)]);
        assert forProvider == WithSlot(p, n, reply.answer);
      }
      return None;
    }

    /**
     The three loops are one pass over the flattened slots. An error at slot `n`
     leaves exactly the slots before it holding the answers to their own original
     requests, and everything else, including the lengths of the lists, as it was.
     */
    method ResolveReferences(r: Resolver) returns (err: Option<PathError<Path>>)
      modifies this
      ensures Leaves(r, old(forProvider), forProvider, err)
    {
      ghost var p0 := forProvider;
      Starts(r, ViewOf(p0));
      var p := forProvider;
      var reply := r(0, Request(StringValue(p.vpcID), p.vpcIDRef, p.vpcIDSelector, VPC));
      HandleReply(r, p0, p, 0, reply);
      if reply.Failed? {
        return Some(PathError(VPCPath, reply.error));
      }
      forProvider := p.(vpcID := Some(reply.answer.resolvedValue), vpcIDRef := reply.answer.resolvedReference);
      err := ResolveGateways(r, p0);
      if err.Some? {
        return;
      }
      err := ResolveNATGateways(r, p0);
      if err.Some? {
        return;
      }
      err := ResolveSubnets(r, p0);
      if err.None? {
        SameShape(forProvider, p0);
        Finishes(r, ViewOf(p0), ViewOf(forProvider));
      }
    }
  }

  // ----- What a call leaves, field by field

  /** An error names the first request that fails. */
  lemma FailsAtPath(r: Resolver, p0: RouteTableParameters, p: RouteTableParameters, err: Option<PathError<Path>>)
    requires Leaves(r, p0, p, err)
    ensures var n, k := FirstFailure(r, Slots(p0)), |p0.routes|;
            if err.None? then n == SlotCount(p0)
            else
              match err.value.path
              case VPCPath => n == 0
              case GatewayPath(i) => i < k && n == 1 + i
              case NATGatewayPath(i) => i < k && n == 1 + k + i
              case SubnetPath(i) => i < |p0.associations| && n == 1 + 2 * k + i
  {
  }

  lemma SlotLeft(r: Resolver, p0: RouteTableParameters, p: RouteTableParameters, err: Option<PathError<Path>>, n: nat)
    returns (reply: Reply)
    requires Leaves(r, p0, p, err) && n < SlotCount(p0)
    ensures |p.routes| == |p0.routes| && |p.associations| == |p0.associations|
    ensures var k, s := FirstFailure(r, Slots(p0)), SlotAt(p0, n);
            && reply == r(n, s.Ask())
            && if n < k then reply.Resolved? && SlotAt(p, n) == s.Fill(reply.answer)
               else SlotAt(p, n) == s && (n == k ==> err.Some? && reply == Failed(err.value.cause))
  {
    SameShape(p, p0);
    assert Slots(p)[n] == SlotAt(p, n) && Slots(p0)[n] == SlotAt(p0, n);
    reply := r(n, SlotAt(p0, n).Ask());
  }

  /** Only values and references change, and an error names a field that exists. */
  lemma RestLeft(r: Resolver, p0: RouteTableParameters, p: RouteTableParameters, err: Option<PathError<Path>>)
    requires Leaves(r, p0, p, err)
    ensures |p.routes| == |p0.routes| && |p.associations| == |p0.associations|
    ensures p == p0.(vpcID := p.vpcID, vpcIDRef := p.vpcIDRef, routes := p.routes, associations := p.associations)
    ensures forall i :: 0 <= i < |p.routes| ==>
              var t := p.routes[i];
              t == p0.routes[i].(gatewayID := t.gatewayID, gatewayIDRef := t.gatewayIDRef,
                                 natGatewayID := t.natGatewayID, natGatewayIDRef := t.natGatewayIDRef)
    ensures forall i :: 0 <= i < |p.associations| ==>
              var t := p.associations[i];
              t == p0.associations[i].(subnetID := t.subnetID, subnetIDRef := t.subnetIDRef)
    ensures err.Some? ==>
              match err.value.path
              case VPCPath => true
              case GatewayPath(i) => i < |p0.routes|
              case NATGatewayPath(i) => i < |p0.routes|
              case SubnetPath(i) => i < |p0.associations|
  {
    SameShape(p, p0);
    FailsAtPath(r, p0, p, err);
    forall i | 0 <= i < |p.routes| ensures UnresolvedRoute(p.routes[i]) == UnresolvedRoute(p0.routes[i]) {
      assert Frame(p).routes[i] == Frame(p0).routes[i];
    }
    forall i | 0 <= i < |p.associations|
      ensures UnresolvedAssociation(p.associations[i]) == UnresolvedAssociation(p0.associations[i])
    {
      assert Frame(p).associations[i] == Frame(p0).associations[i];
    }
    RestOfFrame(p, p0);
  }

  lemma RestOfFrame(p: RouteTableParameters, p0: RouteTableParameters)
    requires Frame(p) == Frame(p0)
    ensures p == p0.(vpcID := p.vpcID, vpcIDRef := p.vpcIDRef, routes := p.routes, associations := p.associations)
  {
    var f, f0 := Frame(p), Frame(p0);
    assert f.region == f0.region && f.tags == f0.tags && f.vpcIDSelector == f0.vpcIDSelector;
  }

  /** The VPC is resolved unless its own request fails. */
  lemma VPCLeft(r: Resolver, p0: RouteTableParameters, p: RouteTableParameters, err: Option<PathError<Path>>)
    requires Leaves(r, p0, p, err)
    ensures var current := if p0.vpcID.Some? then p0.vpcID.value else [];
            var reply := r(0, Request(current, p0.vpcIDRef, p0.vpcIDSelector, VPC));
            if err.None? || err.value.path != VPCPath then
              && reply.Resolved? && p.vpcID == Some(reply.answer.resolvedValue)
              && p.vpcIDRef == reply.answer.resolvedReference
            else
              reply == Failed(err.value.cause) && p.vpcID == p0.vpcID && p.vpcIDRef == p0.vpcIDRef
  {
    FailsAtPath(r, p0, p, err);
    var reply := SlotLeft(r, p0, p, err, 0);
  }

  /** The gateway of route `i` is resolved, by request 1 + i, unless that or an earlier request fails. */
  lemma GatewayLeft(r: Resolver, p0: RouteTableParameters, p: RouteTableParameters, err: Option<PathError<Path>>,
                    i: nat)
    requires Leaves(r, p0, p, err) && i < |p0.routes|
    ensures |p.routes| == |p0.routes|
    ensures var t0, t := p0.routes[i], p.routes[i];
            var current := if t0.gatewayID.Some? then t0.gatewayID.value else [];
            var reply := r(1 + i, Request(current, t0.gatewayIDRef, t0.gatewayIDSelector, InternetGateway));
            if err.None? || err.value.path.NATGatewayPath? || err.value.path.SubnetPath? ||
               (err.value.path.GatewayPath? && i < err.value.path.route)
            then
              && reply.Resolved? && t.gatewayID == Some(reply.answer.resolvedValue)
              && t.gatewayIDRef == reply.answer.resolvedReference
            else
              && t.gatewayID == t0.gatewayID && t.gatewayIDRef == t0.gatewayIDRef
              && (err.value.path == GatewayPath(i) ==> reply == Failed(err.value.cause))
  {
    FailsAtPath(r, p0, p, err);
    var n := 1 + i;
    var reply := SlotLeft(r, p0, p, err, n);
    assert SlotAt(p0, n) == GatewaySlot(p0.routes[i]) && SlotAt(p, n) == GatewaySlot(p.routes[i]);
  }

  /** Likewise for its NAT gateway, after all gateways. */
  lemma NATGatewayLeft(r: Resolver, p0: RouteTableParameters, p: RouteTableParameters, err: Option<PathError<Path>>,
                       i: nat)
    requires Leaves(r, p0, p, err) && i < |p0.routes|
    ensures |p.routes| == |p0.routes|
    ensures var t0, t := p0.routes[i], p.routes[i];
            var current := if t0.natGatewayID.Some? then t0.natGatewayID.value else [];
            var reply := r(1 + |p0.routes| + i,
                           Request(current, t0.natGatewayIDRef, t0.natGatewayIDSelector, NATGateway));
            if err.None? || err.value.path.SubnetPath? ||
               (err.value.path.NATGatewayPath? && i < err.value.path.route)
            then
              && reply.Resolved? && t.natGatewayID == Some(reply.answer.resolvedValue)
              && t.natGatewayIDRef == reply.answer.resolvedReference
            else
              && t.natGatewayID == t0.natGatewayID && t.natGatewayIDRef == t0.natGatewayIDRef
              && (err.value.path == NATGatewayPath(i) ==> reply == Failed(err.value.cause))
  {
    FailsAtPath(r, p0, p, err);
    var n := 1 + |p0.routes| + i;
    var reply := SlotLeft(r, p0, p, err, n);
    assert SlotAt(p0, n) == NATGatewaySlot(p0.routes[i]) && SlotAt(p, n) == NATGatewaySlot(p.routes[i]);
  }

  /** And for the subnet of association `i`, last of all. */
  lemma SubnetLeft(r: Resolver, p0: RouteTableParameters, p: RouteTableParameters, err: Option<PathError<Path>>,
                   i: nat)
    requires Leaves(r, p0, p, err) && i < |p0.associations|
    ensures |p.associations| == |p0.associations|
    ensures var t0, t := p0.associations[i], p.associations[i];
            var current := if t0.subnetID.Some? then t0.subnetID.value else [];
            var reply := r(1 + 2 * |p0.routes| + i,
                           Request(current, t0.subnetIDRef, t0.subnetIDSelector, Subnet));
            if err.None? || (err.value.path.SubnetPath? && i < err.value.path.association) then
              && reply.Resolved? && t.subnetID == Some(reply.answer.resolvedValue)
              && t.subnetIDRef == reply.answer.resolvedReference
            else
              && t.subnetID == t0.subnetID && t.subnetIDRef == t0.subnetIDRef
              && (err.value.path == SubnetPath(i) ==> reply == Failed(err.value.cause))
  {
    FailsAtPath(r, p0, p, err);
    var n := 1 + 2 * |p0.routes| + i;
    var reply := SlotLeft(r, p0, p, err, n);
    assert SlotAt(p0, n) == SubnetSlot(p0.associations[i]) && SlotAt(p, n) == SubnetSlot(p.associations[i]);
  }
}
