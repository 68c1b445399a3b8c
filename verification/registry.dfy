/** pkg/endpoint/endpoint.go: the registry of logged-in clients. Two maps
    are kept: the text of a tunnel address (`a.b.c.d/len`) to the client's
    remote UDP address text, and that remote address text to the endpoint.
    Go identifies endpoints by pointer; here each endpoint carries a `ref`
    number that plays the pointer's part. */
module Registry {
  import opened Common
  import opened Net

  /** An authenticated client: the UDP socket and transmit queue are left
      out, the login time too. */
  datatype Endpoint = Endpoint(ref: nat, raddr: Bytes, user: Bytes, ip: IPNet)

  datatype EndpointMgr = EndpointMgr(epIPMap: map<Bytes, Bytes>, epAddrMap: map<Bytes, Endpoint>)

  function NewEPMgr(): (r: EndpointMgr)
    ensures r.epIPMap == map[] && r.epAddrMap == map[]
  {
    EndpointMgr(map[], map[])
  }

  /** The registry invariant: the two maps describe the same endpoints in
      both directions, each endpoint is stored under its own remote address
      and tunnel address, and the empty text, which lookups use for "none",
      is never a remote address. */
  ghost predicate Inv(mgr: EndpointMgr) {
    && [] !in mgr.epAddrMap
    && (forall ip :: ip in mgr.epIPMap ==>
          mgr.epIPMap[ip] in mgr.epAddrMap && AddrKey(mgr.epAddrMap[mgr.epIPMap[ip]].ip) == ip)
    && (forall a :: a in mgr.epAddrMap ==>
          && mgr.epAddrMap[a].raddr == a
          && AddrKey(mgr.epAddrMap[a].ip) in mgr.epIPMap
          && mgr.epIPMap[AddrKey(mgr.epAddrMap[a].ip)] == a)
  }

  lemma NewEPMgrInv()
    ensures Inv(NewEPMgr())
  {
  }

  /** GetEPAddrByIP: the remote address registered for a tunnel address, or
      the empty text when there is none. */
  function GetEPAddrByIP(mgr: EndpointMgr, ip: Bytes): (r: Bytes)
    ensures ip in mgr.epIPMap ==> r == mgr.epIPMap[ip]
    ensures ip !in mgr.epIPMap ==> r == []
  {
    if ip in mgr.epIPMap then mgr.epIPMap[ip] else []
  }

  /** GetEPByAddr: the endpoint registered under a remote address, if any. */
  function GetEPByAddr(mgr: EndpointMgr, addr: Bytes): (r: Option<Endpoint>)
    ensures r.Some? <==> addr in mgr.epAddrMap
    ensures r.Some? ==> r.value == mgr.epAddrMap[addr]
  {
    if addr in mgr.epAddrMap then Some(mgr.epAddrMap[addr]) else None
  }

  /** GetEPByIP, which the server calls but the registry file does not
      define: the endpoint reached through both maps. */
  function GetEPByIP(mgr: EndpointMgr, ip: Bytes): (r: Option<Endpoint>)
    ensures r.Some? ==> GetEPAddrByIP(mgr, ip) in mgr.epAddrMap
  {
    GetEPByAddr(mgr, GetEPAddrByIP(mgr, ip))
  }

  /** Under the invariant the endpoint found for a tunnel address is the one
      holding that address, and every registered address finds one. */
  lemma GetEPByIPUnderInv(mgr: EndpointMgr, ip: Bytes)
    requires Inv(mgr)
    ensures GetEPByIP(mgr, ip).Some? <==> ip in mgr.epIPMap
    ensures GetEPByIP(mgr, ip).Some? ==>
      AddrKey(GetEPByIP(mgr, ip).value.ip) == ip
      && GetEPByIP(mgr, ip).value.raddr == mgr.epIPMap[ip]
  {
  }

  function IPUsedError(ipKey: Bytes, addr: Bytes): Bytes {
    Lit("IP address ") + ipKey + Lit(" used by Endpoint with remote address ") + addr
  }

  function AddrUsedError(addrKey: Bytes, ep: Endpoint): Bytes {
    Lit("Endpoint with remote address ") + addrKey + Lit(" exist, ip ") + AddrKey(ep.ip)
  }

  /** NewEP: refuse a tunnel address that already maps to a non-empty remote
      address, then refuse a remote address already registered; otherwise
      register the endpoint under both keys. */
  function NewEP(mgr: EndpointMgr, ref: nat, raddr: Bytes, user: Bytes, ip: IPNet): (r: Result<EndpointMgr>)
    ensures GetEPAddrByIP(mgr, AddrKey(ip)) != [] ==>
      r == Err(IPUsedError(AddrKey(ip), mgr.epIPMap[AddrKey(ip)]))
    ensures GetEPAddrByIP(mgr, AddrKey(ip)) == [] && raddr in mgr.epAddrMap ==>
      r == Err(AddrUsedError(raddr, mgr.epAddrMap[raddr]))
    ensures r.Ok? <==> GetEPAddrByIP(mgr, AddrKey(ip)) == [] && raddr !in mgr.epAddrMap
    ensures r.Ok? ==>
      && r.value.epIPMap.Keys == mgr.epIPMap.Keys + {AddrKey(ip)}
      && r.value.epAddrMap.Keys == mgr.epAddrMap.Keys + {raddr}
      && r.value.epIPMap[AddrKey(ip)] == raddr
      && r.value.epAddrMap[raddr] == Endpoint(ref, raddr, user, ip)
      && (forall k :: k in mgr.epIPMap && k != AddrKey(ip) ==> r.value.epIPMap[k] == mgr.epIPMap[k])
      && (forall k :: k in mgr.epAddrMap ==> r.value.epAddrMap[k] == mgr.epAddrMap[k])
  {
    var addrKey, ipKey := raddr, AddrKey(ip);
    var addr := GetEPAddrByIP(mgr, ipKey);
    if addr != [] then Err(IPUsedError(ipKey, addr))
    else match GetEPByAddr(mgr, addrKey)
      case Some(ep) => Err(AddrUsedError(addrKey, ep))
      case None =>
        var ep := Endpoint(ref, raddr, user, ip);
        Ok(EndpointMgr(mgr.epIPMap[ipKey := addrKey], mgr.epAddrMap[addrKey := ep]))
  }

  /** After a successful NewEP the new endpoint is found by its tunnel
      address and by its remote address. */
  lemma NewEPLookups(mgr: EndpointMgr, ref: nat, raddr: Bytes, user: Bytes, ip: IPNet)
    requires NewEP(mgr, ref, raddr, user, ip).Ok?
    ensures GetEPAddrByIP(NewEP(mgr, ref, raddr, user, ip).value, AddrKey(ip)) == raddr
    ensures GetEPByAddr(NewEP(mgr, ref, raddr, user, ip).value, raddr) == Some(Endpoint(ref, raddr, user, ip))
    ensures GetEPByIP(NewEP(mgr, ref, raddr, user, ip).value, AddrKey(ip)) == Some(Endpoint(ref, raddr, user, ip))
  {
  }

  /** NewEP keeps the registry invariant for a non-empty remote address. */
  lemma NewEPInv(mgr: EndpointMgr, ref: nat, raddr: Bytes, user: Bytes, ip: IPNet)
    requires Inv(mgr) && raddr != []
    requires NewEP(mgr, ref, raddr, user, ip).Ok?
    ensures Inv(NewEP(mgr, ref, raddr, user, ip).value)
  {
    var m := NewEP(mgr, ref, raddr, user, ip).value;
    var key := AddrKey(ip);
    assert key !in mgr.epIPMap;
    assert forall i :: i in m.epIPMap ==>
      m.epIPMap[i] in m.epAddrMap && AddrKey(m.epAddrMap[m.epIPMap[i]].ip) == i
    by {
      forall i | i in m.epIPMap
        ensures m.epIPMap[i] in m.epAddrMap && AddrKey(m.epAddrMap[m.epIPMap[i]].ip) == i
      {
        if i != key {
          var a := mgr.epIPMap[i];
          assert m.epIPMap[i] == a && a in mgr.epAddrMap && a != raddr;
          assert m.epAddrMap[a] == mgr.epAddrMap[a];
        }
      }
    }
    assert forall a :: a in m.epAddrMap ==>
      && m.epAddrMap[a].raddr == a
      && AddrKey(m.epAddrMap[a].ip) in m.epIPMap
      && m.epIPMap[AddrKey(m.epAddrMap[a].ip)] == a
    by {
      forall a | a in m.epAddrMap
        ensures m.epAddrMap[a].raddr == a
        ensures AddrKey(m.epAddrMap[a].ip) in m.epIPMap && m.epIPMap[AddrKey(m.epAddrMap[a].ip)] == a
      {
        if a != raddr {
          var k := AddrKey(mgr.epAddrMap[a].ip);
          assert m.epAddrMap[a] == mgr.epAddrMap[a];
          assert k in mgr.epIPMap && k != key;
          assert m.epIPMap[k] == mgr.epIPMap[k];
        }
      }
    }
  }

  /** CloseEPByIP: forget an unknown tunnel address silently; drop a
      dangling address entry alone; otherwise drop both entries. */
  function CloseEPByIP(mgr: EndpointMgr, ip: Bytes): (r: EndpointMgr)
    ensures ip !in mgr.epIPMap ==> r == mgr
    ensures ip in mgr.epIPMap && mgr.epIPMap[ip] !in mgr.epAddrMap ==>
      r == mgr.(epIPMap := mgr.epIPMap - {ip})
    ensures ip in mgr.epIPMap && mgr.epIPMap[ip] in mgr.epAddrMap ==>
      r == EndpointMgr(mgr.epIPMap - {ip}, mgr.epAddrMap - {mgr.epIPMap[ip]})
    ensures ip !in r.epIPMap
  {
    if ip !in mgr.epIPMap then mgr
    else
      var addrKey := mgr.epIPMap[ip];
      if addrKey !in mgr.epAddrMap then mgr.(epIPMap := mgr.epIPMap - {ip})
      else EndpointMgr(mgr.epIPMap - {ip}, mgr.epAddrMap - {addrKey})
  }

  /** A second close of the same address changes nothing. */
  lemma CloseEPByIPIdempotent(mgr: EndpointMgr, ip: Bytes)
    ensures CloseEPByIP(CloseEPByIP(mgr, ip), ip) == CloseEPByIP(mgr, ip)
  {
  }

  /** CloseEPByIP keeps the registry invariant, and afterwards no endpoint
      is found for the address. */
  lemma CloseEPByIPInv(mgr: EndpointMgr, ip: Bytes)
    requires Inv(mgr)
    ensures Inv(CloseEPByIP(mgr, ip))
    ensures GetEPByIP(CloseEPByIP(mgr, ip), ip) == None
  {
    var m := CloseEPByIP(mgr, ip);
    if ip in mgr.epIPMap {
      var a := mgr.epIPMap[ip];
      forall b | b in m.epAddrMap
        ensures AddrKey(m.epAddrMap[b].ip) in m.epIPMap && m.epIPMap[AddrKey(m.epAddrMap[b].ip)] == b
      {
        assert b != a;
      }
    }
  }

  /** Closing the address a successful NewEP registered restores the
      registry it started from. */
  lemma CloseUndoesNewEP(mgr: EndpointMgr, ref: nat, raddr: Bytes, user: Bytes, ip: IPNet)
    requires Inv(mgr)
    requires NewEP(mgr, ref, raddr, user, ip).Ok?
    ensures CloseEPByIP(NewEP(mgr, ref, raddr, user, ip).value, AddrKey(ip)) == mgr
  {
    var key := AddrKey(ip);
    assert key !in mgr.epIPMap;
    var n := NewEP(mgr, ref, raddr, user, ip).value;
    assert n == EndpointMgr(mgr.epIPMap[key := raddr], mgr.epAddrMap[raddr := Endpoint(ref, raddr, user, ip)]);
    UpdateRemove(mgr.epIPMap, key, raddr);
    UpdateRemove(mgr.epAddrMap, raddr, Endpoint(ref, raddr, user, ip));
  }

  /** Adding a fresh key and removing it again gives back the map. */
  lemma UpdateRemove<K, V>(m: map<K, V>, k: K, v: V)
    requires k !in m
    ensures m[k := v] - {k} == m
  {
  }

  /** The registration scenario of the package's own unit test: one endpoint
      registered in both maps, a second only by remote address; a fresh
      endpoint registers, then its tunnel address and an already-registered
      remote address are refused, in that order of checks. */
  lemma RegistrationScenario(ep1IP: IPNet, ep2IP: IPNet, weIP: IPNet, a1: Bytes, a2: Bytes, we: Bytes, blank: Bytes)
    requires AddrKey(ep1IP) != AddrKey(weIP) && AddrKey(ep2IP) != AddrKey(weIP) && AddrKey(ep1IP) != AddrKey(ep2IP)
    requires a1 != [] && a1 != a2 && a1 != we && a2 != we
    ensures
      var m := EndpointMgr(
        map[AddrKey(ep1IP) := a1],
        map[a1 := Endpoint(1, blank, Lit("ep1User"), ep1IP), a2 := Endpoint(2, blank, Lit("ep2User"), ep2IP)]);
      var r := NewEP(m, 3, we, Lit("weUser"), weIP);
      && r.Ok?
      && GetEPAddrByIP(r.value, AddrKey(weIP)) == we
      && GetEPByAddr(r.value, we).value.ip == weIP
      && NewEP(r.value, 4, blank, Lit("ep1User"), ep1IP) == Err(IPUsedError(AddrKey(ep1IP), a1))
      && NewEP(r.value, 5, a2, Lit("ep2User"), ep2IP) == Err(AddrUsedError(a2, Endpoint(2, blank, Lit("ep2User"), ep2IP)))
  {
  }
}
