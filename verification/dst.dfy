/** pkg/server/dst.go: where a packet read from the tunnel device goes.
    Destinations inside the tunnel subnet are looked up in the endpoint
    registry; others go to the client that announced a network containing
    them. Announced networks are keyed by pointer in Go; here a `NetKey`
    pairs the network with a `ref` number standing for that pointer, and
    endpoints are compared by their own `ref`. */
module Dst {
  import opened Common
  import opened Net
  import Registry

  /** One announced network, identified as the Go pointer identifies it. */
  datatype NetKey = NetKey(ref: nat, net: IPNet)

  datatype DstMgr = DstMgr(inNet: IPNet, exNetMap: map<NetKey, Registry.Endpoint>)

  /** The registry key of a tunnel address: `<dst>/<prefix of InNet>`. */
  function InNetKey(mgr: DstMgr, dst: u32): (k: Bytes)
    ensures |k| >= 9
  {
    AddrKey(IPNet(dst, mgr.inNet.prefix))
  }

  /** The answers GetDstEpByDstIP may give. Inside the tunnel subnet: the
      registry's endpoint for the address. Outside: the endpoint of some
      announced network containing `dst` (Go's map order is unspecified, so
      any such network), or none when no announced network contains it. */
  ghost predicate IsRoute(mgr: DstMgr, epMgr: Registry.EndpointMgr, dst: u32, r: Option<Registry.Endpoint>) {
    if Contains(mgr.inNet, dst) then r == Registry.GetEPByIP(epMgr, InNetKey(mgr, dst))
    else if r.Some? then exists k :: k in mgr.exNetMap && Contains(k.net, dst) && mgr.exNetMap[k] == r.value
    else forall k :: k in mgr.exNetMap ==> !Contains(k.net, dst)
  }

  /** GetDstEpByDstIP: the registry for the tunnel subnet, otherwise a scan
      of the announced networks in an arbitrary order. */
  method GetDstEpByDstIP(mgr: DstMgr, epMgr: Registry.EndpointMgr, dst: u32) returns (r: Option<Registry.Endpoint>)
    ensures IsRoute(mgr, epMgr, dst, r)
  {
    if Contains(mgr.inNet, dst) {
      return Registry.GetEPByIP(epMgr, InNetKey(mgr, dst));
    }
    var keys := mgr.exNetMap.Keys;
    while keys != {}
      invariant keys <= mgr.exNetMap.Keys
      invariant forall k :: k in mgr.exNetMap && k !in keys ==> !Contains(k.net, dst)
      decreases |keys|
    {
      var k :| k in keys;
      if Contains(k.net, dst) {
        return Some(mgr.exNetMap[k]);
      }
      keys := keys - {k};
    }
    return None;
  }

  /** AddEpExNet: route every given network to `ep`, later keys of the
      list overwriting earlier ones. */
  function AddEpExNet(mgr: DstMgr, ep: Registry.Endpoint, eNets: seq<NetKey>): (r: DstMgr)
    ensures r.inNet == mgr.inNet
    ensures r.exNetMap.Keys == mgr.exNetMap.Keys + set k | k in eNets
    ensures forall k :: k in eNets ==> r.exNetMap[k] == ep
    ensures forall k :: k in mgr.exNetMap && k !in eNets ==> r.exNetMap[k] == mgr.exNetMap[k]
    decreases |eNets|
  {
    if |eNets| == 0 then mgr
    else AddEpExNet(mgr.(exNetMap := mgr.exNetMap[eNets[0] := ep]), ep, eNets[1..])
  }

  /** DelExNetByEp: drop every network routed to `ep`; networks of other
      endpoints stay. */
  function DelExNetByEp(mgr: DstMgr, ep: Registry.Endpoint): (r: DstMgr)
    ensures r.inNet == mgr.inNet
    ensures forall k :: k in r.exNetMap <==> k in mgr.exNetMap && mgr.exNetMap[k].ref != ep.ref
    ensures forall k :: k in r.exNetMap ==> r.exNetMap[k] == mgr.exNetMap[k]
  {
    mgr.(exNetMap := map k | k in mgr.exNetMap && mgr.exNetMap[k].ref != ep.ref :: mgr.exNetMap[k])
  }

  /** No network stays routed to an endpoint after its deletion, and a
      second deletion changes nothing. */
  lemma DelExNetByEpClears(mgr: DstMgr, ep: Registry.Endpoint)
    ensures forall k :: k in DelExNetByEp(mgr, ep).exNetMap ==> DelExNetByEp(mgr, ep).exNetMap[k].ref != ep.ref
    ensures DelExNetByEp(DelExNetByEp(mgr, ep), ep) == DelExNetByEp(mgr, ep)
  {
  }

  /** Deleting an endpoint's routes undoes adding networks for it, as long
      as the added networks did not take over another endpoint's keys. */
  lemma DelAfterAdd(mgr: DstMgr, ep: Registry.Endpoint, eNets: seq<NetKey>)
    requires forall k :: k in eNets && k in mgr.exNetMap ==> mgr.exNetMap[k].ref == ep.ref
    ensures DelExNetByEp(AddEpExNet(mgr, ep, eNets), ep) == DelExNetByEp(mgr, ep)
  {
    var a := AddEpExNet(mgr, ep, eNets);
    assert DelExNetByEp(a, ep).exNetMap == DelExNetByEp(mgr, ep).exNetMap by {
      forall k | k in DelExNetByEp(mgr, ep).exNetMap
        ensures k in DelExNetByEp(a, ep).exNetMap
      {
        assert k !in eNets;
      }
    }
  }

  /** A destination outside the tunnel subnet that one of `ep`'s new
      networks contains is routed somewhere once the networks are added: to
      `ep`, or to the owner of an earlier network that also contains it
      (Go's map order decides). When every earlier network containing it
      is `ep`'s own, the answer is `ep`. */
  lemma RouteAfterAdd(mgr: DstMgr, epMgr: Registry.EndpointMgr, ep: Registry.Endpoint, eNets: seq<NetKey>, dst: u32, r: Option<Registry.Endpoint>)
    requires !Contains(mgr.inNet, dst)
    requires exists k :: k in eNets && Contains(k.net, dst)
    requires IsRoute(AddEpExNet(mgr, ep, eNets), epMgr, dst, r)
    ensures r.Some?
    ensures r == Some(ep) || exists k :: k in mgr.exNetMap && k !in eNets && Contains(k.net, dst) && mgr.exNetMap[k] == r.value
    ensures (forall k :: k in mgr.exNetMap && Contains(k.net, dst) ==> mgr.exNetMap[k] == ep) ==> r == Some(ep)
  {
    var a := AddEpExNet(mgr, ep, eNets);
    var k :| k in eNets && Contains(k.net, dst);
    assert k in a.exNetMap;
    var k0 :| k0 in a.exNetMap && Contains(k0.net, dst) && a.exNetMap[k0] == r.value;
    if k0 !in eNets {
      assert k0 in mgr.exNetMap && mgr.exNetMap[k0] == r.value;
    }
  }

  lemma Pow2Values()
    ensures Pow2(8) == 0x100 && Pow2(16) == 0x1_0000
  {
    assert Pow2(4) == 16;
    assert Pow2(8) == 0x100 by { assert Pow2(8) == Pow2(4) * Pow2(4) by { Pow2Add(4, 4); } }
    Pow2Add(8, 8);
  }

  lemma {:induction false} Pow2Add(a: nat, b: nat)
    ensures Pow2(a + b) == Pow2(a) * Pow2(b)
    decreases a
  {
    if a > 0 {
      Pow2Add(a - 1, b);
    }
  }

  /** The containments the route table scenario needs, by masked compare. */
  lemma ScenarioContainment()
    ensures !Contains(IPNet(IPv4(192, 168, 223, 254), 24), IPv4(10, 66, 0, 1))
    ensures !Contains(IPNet(IPv4(192, 168, 223, 254), 24), IPv4(192, 168, 224, 1))
    ensures !Contains(IPNet(IPv4(192, 168, 223, 254), 24), IPv4(192, 168, 225, 1))
    ensures Contains(IPNet(IPv4(10, 66, 0, 0), 16), IPv4(10, 66, 0, 1))
    ensures !Contains(IPNet(IPv4(10, 66, 0, 0), 16), IPv4(192, 168, 225, 1))
    ensures Contains(IPNet(IPv4(192, 168, 224, 0), 24), IPv4(192, 168, 224, 1))
    ensures !Contains(IPNet(IPv4(192, 168, 224, 0), 24), IPv4(192, 168, 225, 1))
  {
    Pow2Values();
  }

  /** Two networks announced by one endpoint on an empty table: a
      destination outside the tunnel subnet routes to that endpoint when
      either network contains it and nowhere otherwise; deleting the
      endpoint's routes empties the table. */
  lemma TwoNetworkTable(inNet: IPNet, epMgr: Registry.EndpointMgr, tEp: Registry.Endpoint, k1: NetKey, k2: NetKey, dst: u32, r: Option<Registry.Endpoint>)
    requires k1 != k2 && !Contains(inNet, dst)
    requires IsRoute(AddEpExNet(DstMgr(inNet, map[]), tEp, [k1, k2]), epMgr, dst, r)
    ensures r == (if Contains(k1.net, dst) || Contains(k2.net, dst) then Some(tEp) else None)
    ensures |AddEpExNet(DstMgr(inNet, map[]), tEp, [k1, k2]).exNetMap| == 2
    ensures DelExNetByEp(AddEpExNet(DstMgr(inNet, map[]), tEp, [k1, k2]), tEp).exNetMap == map[]
  {
    var table := map[k1 := tEp, k2 := tEp];
    AddTwo(inNet, tEp, k1, k2);
    assert table.Keys == {k1, k2};
    var c1, c2 := Contains(k1.net, dst), Contains(k2.net, dst);
    SingleOwnerRoute(DstMgr(inNet, table), epMgr, tEp, dst, r);
    DelSoleOwner(DstMgr(inNet, table), tEp);
    if c1 {
      assert k1 in table && Contains(k1.net, dst);
    } else if c2 {
      assert k2 in table && Contains(k2.net, dst);
    }
  }

  /** On a table whose every network belongs to `tEp`, a destination outside
      the tunnel subnet routes to `tEp` exactly when some network contains it. */
  lemma SingleOwnerRoute(mgr: DstMgr, epMgr: Registry.EndpointMgr, tEp: Registry.Endpoint, dst: u32, r: Option<Registry.Endpoint>)
    requires forall k :: k in mgr.exNetMap ==> mgr.exNetMap[k] == tEp
    requires !Contains(mgr.inNet, dst) && IsRoute(mgr, epMgr, dst, r)
    ensures r.Some? ==> r == Some(tEp) && exists k :: k in mgr.exNetMap && Contains(k.net, dst)
    ensures r.None? ==> forall k :: k in mgr.exNetMap ==> !Contains(k.net, dst)
  {
  }

  /** Deleting the routes of the endpoint that owns every route empties
      the table. */
  lemma DelSoleOwner(mgr: DstMgr, ep: Registry.Endpoint)
    requires forall k :: k in mgr.exNetMap ==> mgr.exNetMap[k] == ep
    ensures DelExNetByEp(mgr, ep).exNetMap == map[]
  {
    assert DelExNetByEp(mgr, ep).exNetMap.Keys == {};
  }

  /** Adding two networks to an empty table maps exactly those two. */
  lemma AddTwo(inNet: IPNet, tEp: Registry.Endpoint, k1: NetKey, k2: NetKey)
    ensures AddEpExNet(DstMgr(inNet, map[]), tEp, [k1, k2]) == DstMgr(inNet, map[k1 := tEp, k2 := tEp])
  {
    assert [k1, k2][1..] == [k2];
  }

  /** The route table scenario of the package's unit test: tunnel subnet
      192.168.223.254/24, and 10.66.0.0/16 and 192.168.224.0/24 announced
      by one endpoint; 10.66.0.1 and 192.168.224.1 route to it and
      192.168.225.1 routes nowhere. */
  lemma RouteScenario(epMgr: Registry.EndpointMgr, tEp: Registry.Endpoint, r1: Option<Registry.Endpoint>, r2: Option<Registry.Endpoint>, r3: Option<Registry.Endpoint>)
    requires
      var mgr := AddEpExNet(DstMgr(IPNet(IPv4(192, 168, 223, 254), 24), map[]), tEp,
        [NetKey(1, IPNet(IPv4(10, 66, 0, 0), 16)), NetKey(2, IPNet(IPv4(192, 168, 224, 0), 24))]);
      && IsRoute(mgr, epMgr, IPv4(10, 66, 0, 1), r1)
      && IsRoute(mgr, epMgr, IPv4(192, 168, 224, 1), r2)
      && IsRoute(mgr, epMgr, IPv4(192, 168, 225, 1), r3)
    ensures r1 == Some(tEp) && r2 == Some(tEp) && r3 == None
  {
    ScenarioContainment();
    var inNet := IPNet(IPv4(192, 168, 223, 254), 24);
    var k1, k2 := NetKey(1, IPNet(IPv4(10, 66, 0, 0), 16)), NetKey(2, IPNet(IPv4(192, 168, 224, 0), 24));
    TwoNetworkTable(inNet, epMgr, tEp, k1, k2, IPv4(10, 66, 0, 1), r1);
    TwoNetworkTable(inNet, epMgr, tEp, k1, k2, IPv4(192, 168, 224, 1), r2);
    TwoNetworkTable(inNet, epMgr, tEp, k1, k2, IPv4(192, 168, 225, 1), r3);
  }
}
