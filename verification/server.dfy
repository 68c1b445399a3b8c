/** pkg/server/server.go, pkg/server/handle.go and pkg/server/pkt.go: the
    server's state and what one received datagram, one endpoint close, the
    teardown and one packet from the tunnel device do to it. Sends are not
    performed: each handler returns the messages it hands to
    SendAck/SendFin/SendDat as events (flag, cleartext payload, remote
    address). Remote UDP addresses are their `String()` text. */
module Server {
  import opened Common
  import opened Net
  import Strings
  import Utils
  import Cipher
  import Protocol
  import Auth
  import Pool
  import Registry
  import Dst
  import Client

  /** A message the server sends: its flag, its cleartext payload and the
      remote address it goes to. */
  datatype Event = Event(flag: u16, payload: Bytes, to: Bytes)

  /** The parts of Go's `Server` the handlers touch. `nextRef` stands for
      the allocator: every endpoint and every announced network gets a
      `ref` no earlier one has. `routes` are the parsed networks the
      device routes into the tunnel; no handler changes them. */
  datatype Server = Server(
    routes: seq<IPNet>,
    cipher: Cipher.Cipher,
    db: Result<seq<Auth.Record>>,
    auth: Auth.AuthMgr,
    ipMgr: Pool.IPMgr,
    epMgr: Registry.EndpointMgr,
    dstMgr: Dst.DstMgr,
    nextRef: nat)

  /** The server after a handler, and what the handler sent. */
  datatype Step = Step(server: Server, events: seq<Event>)

  /** The collaborators Go calls but this model does not contain: the
      `utils.IdxFromString` hash from pool size and user name to a start
      index, `net.ParseCIDR`, and `netlink.ParseAddr`. */
  datatype Env = Env(hash: (nat, Bytes) -> int, parseCIDR: Utils.CIDRParser, parseAddr: Bytes -> Option<IPNet>)

  const InvalidReqMsg := Lit("invalidate REQ msg")

  function Ack(msg: Bytes, to: Bytes): (e: Event)
    ensures e.flag == Protocol.HDR_FLG_ACK && e.payload == msg && e.to == to
  {
    Event(Protocol.HDR_FLG_ACK, msg, to)
  }

  /** `i` is the first route text the CIDR parser refuses. */
  ghost predicate FirstBadRoute(routes: seq<Bytes>, parseCIDR: Utils.CIDRParser, i: int) {
    && 0 <= i < |routes|
    && parseCIDR(routes[i]).None?
    && forall j :: 0 <= j < i ==> parseCIDR(routes[j]).Some?
  }

  /** A first bad route after a good one is the first bad route of the
      whole list, one place later. */
  lemma FirstBadShift(routes: seq<Bytes>, parseCIDR: Utils.CIDRParser, msg: Bytes)
    requires |routes| >= 1 && parseCIDR(routes[0]).Some?
    requires exists i :: FirstBadRoute(routes[1..], parseCIDR, i) && msg == InvalidCIDRError(routes[1..][i])
    ensures exists i :: FirstBadRoute(routes, parseCIDR, i) && msg == InvalidCIDRError(routes[i])
  {
    var i :| FirstBadRoute(routes[1..], parseCIDR, i) && msg == InvalidCIDRError(routes[1..][i]);
    assert FirstBadRoute(routes, parseCIDR, i + 1);
  }

  /** The route loop of NewServer: every text through `net.ParseCIDR` in
      order, stopping at the first failure with that text's error. */
  function ParseRoutes(routes: seq<Bytes>, parseCIDR: Utils.CIDRParser): (r: Result<seq<IPNet>>)
    ensures r.Ok? <==> Utils.ParseEach(routes, parseCIDR).Some?
    ensures r.Ok? ==> Utils.ParseEach(routes, parseCIDR) == Some(r.value)
    ensures r.Err? ==> exists i :: FirstBadRoute(routes, parseCIDR, i) && r.msg == InvalidCIDRError(routes[i])
    decreases |routes|
  {
    if |routes| == 0 then Ok([])
    else
      match parseCIDR(routes[0])
      case None =>
        assert FirstBadRoute(routes, parseCIDR, 0);
        Err(InvalidCIDRError(routes[0]))
      case Some(n) =>
        match ParseRoutes(routes[1..], parseCIDR)
        case Err(e) =>
          FirstBadShift(routes, parseCIDR, e);
          Err(e)
        case Ok(rest) => Ok([n] + rest)
  }

  /** NewServer followed by the cipher step of Launch: the routes are
      parsed first, then the address pool is built over `ipRange` with the
      prefix length of the server's own address, and last the AES cipher is
      made from the key. The server starts with an empty registry, nobody
      logged in and no announced networks. */
  function NewServer(ipRange: Bytes, db: Result<seq<Auth.Record>>, key: Bytes, ipAddr: IPNet,
                     routes: seq<Bytes>, parseCIDR: Utils.CIDRParser, parseIP: Utils.IPParser): (r: Result<Server>)
    ensures r.Ok? <==>
      && Utils.ParseEach(routes, parseCIDR).Some?
      && Pool.NewIPMgr(ipRange, ipAddr.prefix, parseIP).Ok?
      && Cipher.NewAESCipher(key).Ok?
    // a bad route is reported before the range is looked at
    ensures Utils.ParseEach(routes, parseCIDR).None? ==>
      exists i :: FirstBadRoute(routes, parseCIDR, i) && r == Err(InvalidCIDRError(routes[i]))
    ensures Utils.ParseEach(routes, parseCIDR).Some? && Pool.NewIPMgr(ipRange, ipAddr.prefix, parseIP).Err? ==>
      r == Err(Pool.NewIPMgr(ipRange, ipAddr.prefix, parseIP).msg)
    ensures r.Ok? ==>
      && Inv(r.value)
      && Utils.ParseEach(routes, parseCIDR) == Some(r.value.routes)
      && r.value.auth.authedUser == {} && r.value.db == db
      && r.value.epMgr.epIPMap == map[] && r.value.dstMgr == Dst.DstMgr(ipAddr, map[])
      && r.value.ipMgr.usedIP == []
    // the server encrypts with `key`, leases from `ipRange`, and has issued no ref
    ensures r.Ok? ==>
      && r.value.cipher == Cipher.AES(key)
      && r.value.ipMgr == Pool.NewIPMgr(ipRange, ipAddr.prefix, parseIP).value
      && r.value.nextRef == 0
    // a bad key is reported last
    ensures Utils.ParseEach(routes, parseCIDR).Some? && Pool.NewIPMgr(ipRange, ipAddr.prefix, parseIP).Ok? ==>
      Cipher.NewAESCipher(key).Err? ==> r == Err(Cipher.InvalidKeyMsg)
  {
    match ParseRoutes(routes, parseCIDR)
    case Err(e) => Err(e)
    case Ok(nets) =>
      match Pool.NewIPMgr(ipRange, ipAddr.prefix, parseIP)
      case Err(e) => Err(e)
      case Ok(ipMgr) =>
        match Cipher.NewAESCipher(key)
        case Err(e) => Err(e)
        case Ok(c) =>
          Registry.NewEPMgrInv();
          Ok(Server(nets, c, db, Auth.AuthMgr({}), ipMgr, Registry.NewEPMgr(), Dst.DstMgr(ipAddr, map[]), 0))
  }

  // ---------------------------------------------------------------------
  // The server invariant

  /** Every registered endpoint's user is logged in. */
  ghost predicate UsersAuthed(s: Server) {
    forall a :: a in s.epMgr.epAddrMap ==> s.epMgr.epAddrMap[a].user in s.auth.authedUser
  }

  /** No user and no ref is registered twice. */
  ghost predicate EndpointsDistinct(s: Server) {
    forall a, b :: a in s.epMgr.epAddrMap && b in s.epMgr.epAddrMap && a != b ==>
      s.epMgr.epAddrMap[a].user != s.epMgr.epAddrMap[b].user
      && s.epMgr.epAddrMap[a].ref != s.epMgr.epAddrMap[b].ref
  }

  /** Every ref in use came from the allocator. */
  ghost predicate RefsIssued(s: Server) {
    && (forall a :: a in s.epMgr.epAddrMap ==> s.epMgr.epAddrMap[a].ref < s.nextRef)
    && (forall k :: k in s.dstMgr.exNetMap ==> k.ref < s.nextRef)
  }

  /** Every announced network belongs to a registered endpoint. */
  ghost predicate OwnersRegistered(s: Server) {
    forall k :: k in s.dstMgr.exNetMap ==>
      s.dstMgr.exNetMap[k].raddr in s.epMgr.epAddrMap
      && s.epMgr.epAddrMap[s.dstMgr.exNetMap[k].raddr] == s.dstMgr.exNetMap[k]
  }

  ghost predicate Inv(s: Server) {
    && Registry.Inv(s.epMgr)
    && Pool.Valid(s.ipMgr)
    && UsersAuthed(s)
    && EndpointsDistinct(s)
    && RefsIssued(s)
    && OwnersRegistered(s)
  }

  // ---------------------------------------------------------------------
  // REQ: the login handshake

  /** HandleReq after the split: log in, lease an address, register the
      endpoint, and ACK the address; the first failure is ACKed with its
      error text and keeps whatever the earlier steps did. */
  function Login(s: Server, user: Bytes, passwd: Bytes, raddr: Bytes, hash: (nat, Bytes) -> int): (r: Step)
    ensures |r.events| == 1 && r.events[0].flag == Protocol.HDR_FLG_ACK && r.events[0].to == raddr
    ensures r.server.cipher == s.cipher && r.server.db == s.db && r.server.dstMgr == s.dstMgr
    ensures r.server.routes == s.routes
    // a refused login leaves everything as it was
    ensures Auth.ValidateUser(s.auth, s.db, user, passwd).Err? ==>
      r == Step(s, [Ack(Auth.ValidateUser(s.auth, s.db, user, passwd).msg, raddr)])
    // an accepted login stays logged in and keeps the lease, whatever happens next
    ensures Auth.ValidateUser(s.auth, s.db, user, passwd).Ok? ==>
      && r.server.auth == Auth.ValidateUser(s.auth, s.db, user, passwd).value
      && r.server.ipMgr == Pool.IPForUser(s.ipMgr, hash(s.ipMgr.ipCount, user)).mgr
    // no address: the pool's error is ACKed and nobody is registered
    ensures Auth.ValidateUser(s.auth, s.db, user, passwd).Ok? ==>
      var lease := Pool.IPForUser(s.ipMgr, hash(s.ipMgr.ipCount, user));
      lease.addr.Err? ==>
        && r.server.epMgr == s.epMgr && r.server.nextRef == s.nextRef
        && r.events[0].payload == lease.addr.msg
    // an address: NewEP decides, and its error or the address is ACKed
    ensures Auth.ValidateUser(s.auth, s.db, user, passwd).Ok? ==>
      var lease := Pool.IPForUser(s.ipMgr, hash(s.ipMgr.ipCount, user));
      lease.addr.Ok? ==>
        var reg := Registry.NewEP(s.epMgr, s.nextRef, raddr, user, lease.addr.value);
        && (reg.Ok? ==>
              && r.server.epMgr == reg.value && r.server.nextRef == s.nextRef + 1
              && r.events[0].payload == AddrKey(lease.addr.value))
        && (reg.Err? ==>
              && r.server.epMgr == s.epMgr && r.server.nextRef == s.nextRef
              && r.events[0].payload == reg.msg)
  {
    match Auth.ValidateUser(s.auth, s.db, user, passwd)
    case Err(msg) => Step(s, [Ack(msg, raddr)])
    case Ok(auth) =>
      var lease := Pool.IPForUser(s.ipMgr, hash(s.ipMgr.ipCount, user));
      var s1 := s.(auth := auth, ipMgr := lease.mgr);
      match lease.addr
      case Err(msg) => Step(s1, [Ack(msg, raddr)])
      case Ok(ip) =>
        match Registry.NewEP(s.epMgr, s.nextRef, raddr, user, ip)
        case Err(msg) => Step(s1, [Ack(msg, raddr)])
        case Ok(epMgr) => Step(s1.(epMgr := epMgr, nextRef := s.nextRef + 1), [Ack(AddrKey(ip), raddr)])
  }

  /** HandleReq: a payload that is not exactly `<user>/<passwd>` is refused
      with "invalidate REQ msg" and changes nothing. */
  function HandleReq(s: Server, payload: Bytes, raddr: Bytes, hash: (nat, Bytes) -> int): (r: Step)
    ensures |Strings.Split(payload, Client.Slash)| != 2 ==> r == Step(s, [Ack(InvalidReqMsg, raddr)])
    ensures |Strings.Split(payload, Client.Slash)| == 2 ==>
      r == Login(s, Strings.Split(payload, Client.Slash)[0], Strings.Split(payload, Client.Slash)[1], raddr, hash)
  {
    var parts := Strings.Split(payload, Client.Slash);
    if |parts| != 2 then Step(s, [Ack(InvalidReqMsg, raddr)])
    else Login(s, parts[0], parts[1], raddr, hash)
  }

  /** The outcomes of a login, case by case: an address the pool cannot
      give is refused with the pool's error and leaves the registry alone; a
      registration NewEP refuses keeps the lease (one more index in use) and
      ACKs NewEP's error; one NewEP accepts registers the endpoint under its
      remote address and its tunnel address, leases exactly that address's
      index, and ACKs the address. */
  lemma LoginOutcomes(s: Server, user: Bytes, passwd: Bytes, raddr: Bytes, hash: (nat, Bytes) -> int)
    requires Pool.Valid(s.ipMgr)
    requires Auth.ValidateUser(s.auth, s.db, user, passwd).Ok?
    requires 0 <= hash(s.ipMgr.ipCount, user) < s.ipMgr.ipCount
    ensures
      var lease := Pool.IPForUser(s.ipMgr, hash(s.ipMgr.ipCount, user));
      var r := Login(s, user, passwd, raddr, hash);
      && user in r.server.auth.authedUser
      && (lease.addr.Err? ==> r.server.epMgr == s.epMgr && r.events[0].payload == lease.addr.msg)
      && (lease.addr.Ok? ==>
            var reg := Registry.NewEP(s.epMgr, s.nextRef, raddr, user, lease.addr.value);
            && |r.server.ipMgr.usedIP| == |s.ipMgr.usedIP| + 1
            && Pool.IdxFromIP(s.ipMgr, lease.addr.value.ip) == r.server.ipMgr.usedIP[|s.ipMgr.usedIP|]
            && (reg.Err? ==> r.server.epMgr == s.epMgr && r.events[0].payload == reg.msg)
            && (reg.Ok? ==>
                  && Registry.GetEPByAddr(r.server.epMgr, raddr) == Some(Registry.Endpoint(s.nextRef, raddr, user, lease.addr.value))
                  && Registry.GetEPAddrByIP(r.server.epMgr, AddrKey(lease.addr.value)) == raddr
                  && r.events[0].payload == AddrKey(lease.addr.value)))
  {
    var lease := Pool.IPForUser(s.ipMgr, hash(s.ipMgr.ipCount, user));
    if lease.addr.Ok? {
      var idx := lease.mgr.usedIP[|s.ipMgr.usedIP|];
      assert 0 <= idx < s.ipMgr.ipCount;
      Pool.IdxFromIPFromIdx(s.ipMgr, idx);
      if Registry.NewEP(s.epMgr, s.nextRef, raddr, user, lease.addr.value).Ok? {
        Registry.NewEPLookups(s.epMgr, s.nextRef, raddr, user, lease.addr.value);
      }
    }
  }

  /** Login keeps the server invariant, for a start index inside the pool
      and a non-empty remote address (a UDP address's text never is empty). */
  lemma LoginInv(s: Server, user: Bytes, passwd: Bytes, raddr: Bytes, hash: (nat, Bytes) -> int)
    requires Inv(s) && raddr != []
    requires 0 <= hash(s.ipMgr.ipCount, user) < s.ipMgr.ipCount
    ensures Inv(Login(s, user, passwd, raddr, hash).server)
  {
    var r := Login(s, user, passwd, raddr, hash).server;
    var v := Auth.ValidateUser(s.auth, s.db, user, passwd);
    if v.Ok? {
      var lease := Pool.IPForUser(s.ipMgr, hash(s.ipMgr.ipCount, user));
      Pool.IPForUserValid(s.ipMgr, hash(s.ipMgr.ipCount, user));
      if r.epMgr != s.epMgr {
        RegisterInv(s, user, raddr, lease.addr.value, lease.mgr);
        assert r == Register(s, user, raddr, lease.addr.value, lease.mgr);
      }
    }
  }

  /** The server after a login that leased from pool `m` and registered. */
  ghost function Register(s: Server, user: Bytes, raddr: Bytes, ip: IPNet, m: Pool.IPMgr): Server
    requires Registry.NewEP(s.epMgr, s.nextRef, raddr, user, ip).Ok?
  {
    s.(auth := Auth.AuthMgr(s.auth.authedUser + {user}), ipMgr := m,
       epMgr := Registry.NewEP(s.epMgr, s.nextRef, raddr, user, ip).value, nextRef := s.nextRef + 1)
  }

  /** Registering a user who was not logged in, under a fresh ref, keeps
      the invariant. */
  lemma RegisterInv(s: Server, user: Bytes, raddr: Bytes, ip: IPNet, m: Pool.IPMgr)
    requires Inv(s) && raddr != [] && Pool.Valid(m) && user !in s.auth.authedUser
    requires Registry.NewEP(s.epMgr, s.nextRef, raddr, user, ip).Ok?
    ensures Inv(Register(s, user, raddr, ip, m))
  {
    var r := Register(s, user, raddr, ip, m);
    Registry.NewEPInv(s.epMgr, s.nextRef, raddr, user, ip);
    var ep := Registry.Endpoint(s.nextRef, raddr, user, ip);
    assert raddr !in s.epMgr.epAddrMap;
    assert r.epMgr.epAddrMap == s.epMgr.epAddrMap[raddr := ep];
    AddKeepsLogins(s, r, ep);
    AddKeepsDistinct(s, r, ep);
    AddKeepsRefs(s, r, ep);
    AddKeepsRoutes(s, r, ep);
  }

  lemma AddKeepsLogins(s: Server, r: Server, ep: Registry.Endpoint)
    requires UsersAuthed(s)
    requires r.epMgr.epAddrMap == s.epMgr.epAddrMap[ep.raddr := ep]
    requires r.auth.authedUser == s.auth.authedUser + {ep.user}
    ensures UsersAuthed(r)
  {
  }

  lemma AddKeepsDistinct(s: Server, r: Server, ep: Registry.Endpoint)
    requires UsersAuthed(s) && EndpointsDistinct(s) && RefsIssued(s)
    requires ep.raddr !in s.epMgr.epAddrMap && ep.user !in s.auth.authedUser && ep.ref == s.nextRef
    requires r.epMgr.epAddrMap == s.epMgr.epAddrMap[ep.raddr := ep]
    ensures EndpointsDistinct(r)
  {
    var eps, eps' := s.epMgr.epAddrMap, r.epMgr.epAddrMap;
    forall a, b | a in eps' && b in eps' && a != b
      ensures eps'[a].user != eps'[b].user && eps'[a].ref != eps'[b].ref
    {
      if a == ep.raddr {
        assert eps'[b] == eps[b];
      } else if b == ep.raddr {
        assert eps'[a] == eps[a];
      } else {
        assert eps'[a] == eps[a] && eps'[b] == eps[b];
      }
    }
  }

  lemma AddKeepsRefs(s: Server, r: Server, ep: Registry.Endpoint)
    requires RefsIssued(s) && ep.ref == s.nextRef
    requires r.epMgr.epAddrMap == s.epMgr.epAddrMap[ep.raddr := ep]
    requires r.dstMgr == s.dstMgr && r.nextRef == s.nextRef + 1
    ensures RefsIssued(r)
  {
  }

  lemma AddKeepsRoutes(s: Server, r: Server, ep: Registry.Endpoint)
    requires OwnersRegistered(s) && ep.raddr !in s.epMgr.epAddrMap
    requires r.epMgr.epAddrMap == s.epMgr.epAddrMap[ep.raddr := ep]
    requires r.dstMgr == s.dstMgr
    ensures OwnersRegistered(r)
  {
    forall k | k in r.dstMgr.exNetMap
      ensures r.dstMgr.exNetMap[k].raddr in r.epMgr.epAddrMap
      ensures r.epMgr.epAddrMap[r.dstMgr.exNetMap[k].raddr] == r.dstMgr.exNetMap[k]
    {
      assert s.dstMgr.exNetMap[k].raddr in s.epMgr.epAddrMap;
    }
  }

  // ---------------------------------------------------------------------
  // IPS: route announcements

  /** The announced networks as fresh route keys, numbered from `base`. */
  function FreshKeys(base: nat, nets: seq<IPNet>): (keys: seq<Dst.NetKey>)
    ensures |keys| == |nets|
    ensures forall i :: 0 <= i < |keys| ==> keys[i].net == nets[i]
    ensures forall k :: k in keys ==> base <= k.ref < base + |nets|
  {
    seq(|nets|, i requires 0 <= i < |nets| => Dst.NetKey(base + i, nets[i]))
  }

  /** HandleIps, the IPS case of the receive loop (`svc.HandleIps(raddr.String(),
      payload)`). The Go body of `HandleIps` is not part of this model; its
      behaviour here is assumed, composed from the operations it has to
      use: the endpoint is looked up by the sender's remote address
      (`GetEPByAddr`), the payload is split on commas and parsed all or
      nothing (`utils.ParseAllowedIPs`), and every network is announced for
      that endpoint under a fresh ref (`AddEpExNet`). An unregistered
      sender or an entry that does not parse changes nothing. */
  function HandleIps(s: Server, raddr: Bytes, payload: Bytes, parseCIDR: Utils.CIDRParser): (r: Server)
    ensures r.cipher == s.cipher && r.db == s.db && r.auth == s.auth && r.routes == s.routes
    ensures r.dstMgr.inNet == s.dstMgr.inNet
    ensures r.ipMgr == s.ipMgr && r.epMgr == s.epMgr
    ensures raddr !in s.epMgr.epAddrMap || Utils.ParseAllowedIPs(payload, parseCIDR).None? ==> r == s
    ensures raddr in s.epMgr.epAddrMap && Utils.ParseAllowedIPs(payload, parseCIDR).Some? ==>
      var nets := Utils.ParseAllowedIPs(payload, parseCIDR).value;
      && r.nextRef == s.nextRef + |nets|
      && r.dstMgr.exNetMap.Keys == s.dstMgr.exNetMap.Keys + (set k | k in FreshKeys(s.nextRef, nets))
      && (forall k :: k in s.dstMgr.exNetMap && k.ref < s.nextRef ==> r.dstMgr.exNetMap[k] == s.dstMgr.exNetMap[k])
      && (forall i :: 0 <= i < |nets| ==>
            Dst.NetKey(s.nextRef + i, nets[i]) in r.dstMgr.exNetMap
            && r.dstMgr.exNetMap[Dst.NetKey(s.nextRef + i, nets[i])] == s.epMgr.epAddrMap[raddr])
  {
    match Registry.GetEPByAddr(s.epMgr, raddr)
    case None => s
    case Some(ep) =>
      match Utils.ParseAllowedIPs(payload, parseCIDR)
      case None => s
      case Some(nets) =>
        var keys := FreshKeys(s.nextRef, nets);
        assert forall i :: 0 <= i < |nets| ==> keys[i] == Dst.NetKey(s.nextRef + i, nets[i]);
        s.(dstMgr := Dst.AddEpExNet(s.dstMgr, ep, keys), nextRef := s.nextRef + |nets|)
  }

  /** The parts of the invariant that do not mention routes or refs carry
      over to a state with the same logins, pool and registry. */
  lemma SameEndpointsInv(s: Server, r: Server)
    requires Inv(s) && r.epMgr == s.epMgr && r.auth == s.auth && r.ipMgr == s.ipMgr
    ensures Registry.Inv(r.epMgr) && Pool.Valid(r.ipMgr) && UsersAuthed(r) && EndpointsDistinct(r)
  {
  }

  /** HandleIps keeps the server invariant. */
  lemma HandleIpsInv(s: Server, raddr: Bytes, payload: Bytes, parseCIDR: Utils.CIDRParser)
    requires Inv(s)
    ensures Inv(HandleIps(s, raddr, payload, parseCIDR))
  {
    var r := HandleIps(s, raddr, payload, parseCIDR);
    if raddr in s.epMgr.epAddrMap && Utils.ParseAllowedIPs(payload, parseCIDR).Some? {
      var ep := s.epMgr.epAddrMap[raddr];
      var nets := Utils.ParseAllowedIPs(payload, parseCIDR).value;
      var keys := FreshKeys(s.nextRef, nets);
      assert r.dstMgr == Dst.AddEpExNet(s.dstMgr, ep, keys) && r.nextRef == s.nextRef + |nets|;
      SameEndpointsInv(s, r);
      assert RefsIssued(r) by {
        forall k | k in r.dstMgr.exNetMap
          ensures k.ref < r.nextRef
        {
          if k !in s.dstMgr.exNetMap {
            assert k in keys;
          }
        }
      }
      assert OwnersRegistered(r) by {
        forall k | k in r.dstMgr.exNetMap
          ensures r.dstMgr.exNetMap[k].raddr in r.epMgr.epAddrMap
          ensures r.epMgr.epAddrMap[r.dstMgr.exNetMap[k].raddr] == r.dstMgr.exNetMap[k]
        {
          if k in keys {
            assert r.dstMgr.exNetMap[k] == ep;
          } else {
            assert r.dstMgr.exNetMap[k] == s.dstMgr.exNetMap[k];
          }
        }
      }
    }
  }

  // ---------------------------------------------------------------------
  // Closing endpoints

  /** CloseEPByIP: with no endpoint for the tunnel address, only release
      the address (when it parses); otherwise drop the endpoint's routes,
      send it a FIN, release its address, log its user out and drop it from
      the registry. */
  function CloseEPByIP(s: Server, ip: Bytes, parseAddr: Bytes -> Option<IPNet>): (r: Step)
    ensures r.server.cipher == s.cipher && r.server.db == s.db && r.server.nextRef == s.nextRef
    ensures r.server.routes == s.routes
    ensures Registry.GetEPByIP(s.epMgr, ip).None? ==>
      && r.events == []
      && r.server.auth == s.auth && r.server.epMgr == s.epMgr && r.server.dstMgr == s.dstMgr
      && r.server.ipMgr == (if parseAddr(ip).Some? then Pool.ReleaseIP(s.ipMgr, parseAddr(ip).value.ip) else s.ipMgr)
    ensures Registry.GetEPByIP(s.epMgr, ip).Some? ==>
      var ep := Registry.GetEPByIP(s.epMgr, ip).value;
      && r.events == [Event(Protocol.HDR_FLG_FIN, [], ep.raddr)]
      && r.server.ipMgr == Pool.ReleaseIP(s.ipMgr, ep.ip.ip)
      && ep.user !in r.server.auth.authedUser
      && (forall k :: k in r.server.dstMgr.exNetMap ==> r.server.dstMgr.exNetMap[k].ref != ep.ref)
      && ip !in r.server.epMgr.epIPMap
    // and nothing else: each part changes only as its own close operation says
    ensures Registry.GetEPByIP(s.epMgr, ip).Some? ==>
      var ep := Registry.GetEPByIP(s.epMgr, ip).value;
      && r.server.epMgr == Registry.CloseEPByIP(s.epMgr, ip)
      && r.server.auth == Auth.LogoutUser(s.auth, ep.user)
      && r.server.dstMgr == Dst.DelExNetByEp(s.dstMgr, ep)
  {
    match Registry.GetEPByIP(s.epMgr, ip)
    case None =>
      (match parseAddr(ip)
       case None => Step(s, [])
       case Some(a) => Step(s.(ipMgr := Pool.ReleaseIP(s.ipMgr, a.ip)), []))
    case Some(ep) =>
      var s1 := s.(
        dstMgr := Dst.DelExNetByEp(s.dstMgr, ep),
        ipMgr := Pool.ReleaseIP(s.ipMgr, ep.ip.ip),
        auth := Auth.LogoutUser(s.auth, ep.user),
        epMgr := Registry.CloseEPByIP(s.epMgr, ip));
      Step(s1, [Event(Protocol.HDR_FLG_FIN, [], ep.raddr)])
  }

  /** CloseEPByIP keeps the server invariant. For a registered endpoint it
      also frees the endpoint's address index, and every other endpoint
      keeps its routes and its login. */
  lemma CloseEPByIPInv(s: Server, ip: Bytes, parseAddr: Bytes -> Option<IPNet>)
    requires Inv(s)
    ensures Inv(CloseEPByIP(s, ip, parseAddr).server)
    ensures Registry.GetEPByIP(s.epMgr, ip).Some? ==>
      var ep := Registry.GetEPByIP(s.epMgr, ip).value;
      var r := CloseEPByIP(s, ip, parseAddr).server;
      && Pool.IdxFromIP(s.ipMgr, ep.ip.ip) !in r.ipMgr.usedIP
      && ep.raddr !in r.epMgr.epAddrMap
      && Registry.GetEPByIP(r.epMgr, ip) == None
      && (forall a :: a in r.epMgr.epAddrMap ==> r.epMgr.epAddrMap[a].user in r.auth.authedUser)
      && (forall k :: k in s.dstMgr.exNetMap && s.dstMgr.exNetMap[k].raddr != ep.raddr ==>
            k in r.dstMgr.exNetMap)
  {
    var r := CloseEPByIP(s, ip, parseAddr).server;
    match Registry.GetEPByIP(s.epMgr, ip)
    case None =>
      if parseAddr(ip).Some? {
        Pool.ReleaseIPValid(s.ipMgr, parseAddr(ip).value.ip);
      }
    case Some(ep) =>
      Registry.CloseEPByIPInv(s.epMgr, ip);
      Pool.ReleaseIPValid(s.ipMgr, ep.ip.ip);
      Pool.ReleaseIPRemoves(s.ipMgr, ep.ip.ip);
      assert ep.raddr == s.epMgr.epIPMap[ip] && s.epMgr.epAddrMap[ep.raddr] == ep;
      DropEndpointInv(s, r, ep);
  }

  /** Dropping one registered endpoint, with its login and its routes,
      keeps the parts of the invariant about users, refs and owners, and
      keeps every route of the other endpoints. */
  lemma DropEndpointInv(s: Server, r: Server, ep: Registry.Endpoint)
    requires UsersAuthed(s) && EndpointsDistinct(s) && RefsIssued(s) && OwnersRegistered(s)
    requires ep.raddr in s.epMgr.epAddrMap && s.epMgr.epAddrMap[ep.raddr] == ep
    requires r.epMgr.epAddrMap == s.epMgr.epAddrMap - {ep.raddr}
    requires r.auth == Auth.LogoutUser(s.auth, ep.user) && r.nextRef == s.nextRef
    requires r.dstMgr == Dst.DelExNetByEp(s.dstMgr, ep)
    ensures UsersAuthed(r) && EndpointsDistinct(r) && RefsIssued(r) && OwnersRegistered(r)
    ensures forall k :: k in s.dstMgr.exNetMap && s.dstMgr.exNetMap[k].raddr != ep.raddr ==>
      k in r.dstMgr.exNetMap
  {
    DropKeepsLogins(s, r, ep);
    DropKeepsDistinct(s, r, ep);
    DropKeepsRefs(s, r, ep);
    DropKeepsRoutes(s, r, ep);
  }

  lemma DropKeepsLogins(s: Server, r: Server, ep: Registry.Endpoint)
    requires UsersAuthed(s) && EndpointsDistinct(s)
    requires ep.raddr in s.epMgr.epAddrMap && s.epMgr.epAddrMap[ep.raddr] == ep
    requires r.epMgr.epAddrMap == s.epMgr.epAddrMap - {ep.raddr}
    requires r.auth == Auth.LogoutUser(s.auth, ep.user)
    ensures UsersAuthed(r)
  {
    var eps, eps' := s.epMgr.epAddrMap, r.epMgr.epAddrMap;
    forall a | a in eps'
      ensures eps'[a].user in r.auth.authedUser
    {
      assert eps'[a] == eps[a] && eps[a].user != eps[ep.raddr].user;
    }
  }

  lemma DropKeepsDistinct(s: Server, r: Server, ep: Registry.Endpoint)
    requires EndpointsDistinct(s)
    requires ep.raddr in s.epMgr.epAddrMap && s.epMgr.epAddrMap[ep.raddr] == ep
    requires r.epMgr.epAddrMap == s.epMgr.epAddrMap - {ep.raddr}
    ensures EndpointsDistinct(r)
  {
    var eps, eps' := s.epMgr.epAddrMap, r.epMgr.epAddrMap;
    forall a, b | a in eps' && b in eps' && a != b
      ensures eps'[a].user != eps'[b].user && eps'[a].ref != eps'[b].ref
    {
      assert eps'[a] == eps[a] && eps'[b] == eps[b];
    }
  }

  lemma DropKeepsRefs(s: Server, r: Server, ep: Registry.Endpoint)
    requires RefsIssued(s)
    requires ep.raddr in s.epMgr.epAddrMap && s.epMgr.epAddrMap[ep.raddr] == ep
    requires r.epMgr.epAddrMap == s.epMgr.epAddrMap - {ep.raddr}
    requires r.nextRef == s.nextRef && r.dstMgr == Dst.DelExNetByEp(s.dstMgr, ep)
    ensures RefsIssued(r)
  {
    var eps, eps' := s.epMgr.epAddrMap, r.epMgr.epAddrMap;
    forall a | a in eps'
      ensures eps'[a].ref < r.nextRef
    {
      assert eps'[a] == eps[a];
    }
  }

  lemma DropKeepsRoutes(s: Server, r: Server, ep: Registry.Endpoint)
    requires EndpointsDistinct(s) && OwnersRegistered(s)
    requires ep.raddr in s.epMgr.epAddrMap && s.epMgr.epAddrMap[ep.raddr] == ep
    requires r.epMgr.epAddrMap == s.epMgr.epAddrMap - {ep.raddr}
    requires r.dstMgr == Dst.DelExNetByEp(s.dstMgr, ep)
    ensures OwnersRegistered(r)
    ensures forall k :: k in s.dstMgr.exNetMap && s.dstMgr.exNetMap[k].raddr != ep.raddr ==>
      k in r.dstMgr.exNetMap
  {
    var eps, eps' := s.epMgr.epAddrMap, r.epMgr.epAddrMap;
    forall k | k in s.dstMgr.exNetMap && s.dstMgr.exNetMap[k].raddr != ep.raddr
      ensures k in r.dstMgr.exNetMap
    {
      var o := s.dstMgr.exNetMap[k];
      assert eps[o.raddr].ref != eps[ep.raddr].ref;
    }
    forall k | k in r.dstMgr.exNetMap
      ensures r.dstMgr.exNetMap[k].raddr in eps'
      ensures eps'[r.dstMgr.exNetMap[k].raddr] == r.dstMgr.exNetMap[k]
    {
      var o := s.dstMgr.exNetMap[k];
      assert r.dstMgr.exNetMap[k] == o && o.ref != ep.ref;
      assert o.raddr != ep.raddr;
    }
  }

  /** Closing the same tunnel address twice: the second close changes no
      state and sends nothing, when the address parser reads back the
      registry's address texts. */
  lemma CloseTwice(s: Server, ip: Bytes, parseAddr: Bytes -> Option<IPNet>)
    requires Inv(s)
    requires forall n :: parseAddr(AddrKey(n)) == Some(n)
    ensures
      var r1 := CloseEPByIP(s, ip, parseAddr);
      CloseEPByIP(r1.server, ip, parseAddr) == Step(r1.server, [])
  {
    var r1 := CloseEPByIP(s, ip, parseAddr);
    CloseEPByIPInv(s, ip, parseAddr);
    match Registry.GetEPByIP(s.epMgr, ip)
    case None =>
      if parseAddr(ip).Some? {
        Pool.ReleaseIPRemoves(s.ipMgr, parseAddr(ip).value.ip);
      }
    case Some(ep) =>
      Registry.CloseEPByIPInv(s.epMgr, ip);
      Registry.GetEPByIPUnderInv(s.epMgr, ip);
      assert parseAddr(ip) == Some(ep.ip);
      Pool.ReleaseIPRemoves(s.ipMgr, ep.ip.ip);
  }

  /** Teardown: close every tunnel address the registry holds, in Go's
      map order (any order). The registry ends empty, and under its
      invariant every registered endpoint gets exactly one FIN. */
  method Teardown(s: Server, parseAddr: Bytes -> Option<IPNet>) returns (r: Step)
    ensures forall e :: e in r.events ==> e.flag == Protocol.HDR_FLG_FIN
    ensures Registry.Inv(s.epMgr) ==> TornDown(s, r)
  {
    var cur := s;
    var events: seq<Event> := [];
    var keys := s.epMgr.epIPMap.Keys;
    while keys != {}
      invariant keys <= s.epMgr.epIPMap.Keys
      invariant forall e :: e in events ==> e.flag == Protocol.HDR_FLG_FIN
      invariant Registry.Inv(s.epMgr) ==> TeardownInv(s, cur, events, keys)
      decreases |keys|
    {
      var ip :| ip in keys;
      var step := CloseEPByIP(cur, ip, parseAddr);
      RemoveOne(keys, ip);
      FinsOnly(events, step.events);
      LoopStep(s, cur, events, keys, ip, parseAddr);
      cur, events, keys := step.server, events + step.events, keys - {ip};
    }
    TeardownDone(s, cur, events);
    return Step(cur, events);
  }

  /** Appending FINs to FINs gives FINs. */
  lemma FinsOnly(events: seq<Event>, more: seq<Event>)
    requires forall e :: e in events ==> e.flag == Protocol.HDR_FLG_FIN
    requires more == [] || (|more| == 1 && more[0].flag == Protocol.HDR_FLG_FIN)
    ensures forall e :: e in events + more ==> e.flag == Protocol.HDR_FLG_FIN
  {
  }

  /** The remote addresses the events went to. */
  ghost function SentTo(events: seq<Event>): (r: set<Bytes>)
    ensures forall i :: 0 <= i < |events| ==> events[i].to in r
  {
    set i | 0 <= i < |events| :: events[i].to
  }

  /** The loop invariant of Teardown under the registry invariant: the
      addresses left are exactly the registry's, one FIN went out per
      address closed, each to an address registered at the start, and the
      remote addresses still registered are exactly those no FIN went to,
      and no two FINs went to the same one. */
  ghost predicate TeardownInv(s: Server, cur: Server, events: seq<Event>, keys: set<Bytes>) {
    && Registry.Inv(cur.epMgr) && cur.epMgr.epIPMap.Keys == keys
    && |events| + |keys| == |s.epMgr.epIPMap.Keys|
    && (forall e :: e in events ==> e.to in s.epMgr.epAddrMap)
    && cur.epMgr.epAddrMap.Keys == s.epMgr.epAddrMap.Keys - SentTo(events)
    && |SentTo(events)| == |events|
  }

  /** Appending one event adds its address to those sent to. */
  lemma SentToAppend(events: seq<Event>, e: Event)
    ensures SentTo(events + [e]) == SentTo(events) + {e.to}
  {
    var es := events + [e];
    forall a | a in SentTo(es)
      ensures a in SentTo(events) + {e.to}
    {
      var i :| 0 <= i < |es| && es[i].to == a;
      if i < |events| {
        assert es[i] == events[i];
      }
    }
    forall a | a in SentTo(events)
      ensures a in SentTo(es)
    {
      var i :| 0 <= i < |events| && events[i].to == a;
      assert es[i] == events[i];
    }
    assert es[|events|] == e;
  }

  /** What a teardown of `s` leaves: an empty registry, one FIN per
      tunnel address, each to a remote address registered in `s`, every
      such address getting one, and no address getting two. */
  ghost predicate TornDown(s: Server, r: Step) {
    && r.server.epMgr.epIPMap == map[]
    && r.server.epMgr.epAddrMap == map[]
    && |r.events| == |s.epMgr.epIPMap|
    && (forall e :: e in r.events ==> e.to in s.epMgr.epAddrMap)
    && (forall a :: a in s.epMgr.epAddrMap ==> exists i :: 0 <= i < |r.events| && r.events[i].to == a)
    && (forall i, j :: 0 <= i < j < |r.events| ==> r.events[i].to != r.events[j].to)
  }

  /** When the loop ends the registry is empty, one FIN went out per
      tunnel address, and every remote address registered at the start got
      exactly one. */
  lemma TeardownDone(s: Server, cur: Server, events: seq<Event>)
    requires Registry.Inv(s.epMgr) ==> TeardownInv(s, cur, events, {})
    ensures Registry.Inv(s.epMgr) ==> TornDown(s, Step(cur, events))
  {
    if !Registry.Inv(s.epMgr) {
      return;
    }
    EmptyRegistry(cur.epMgr);
    CardDistinct(events);
    forall a | a in s.epMgr.epAddrMap
      ensures exists i :: 0 <= i < |events| && events[i].to == a
    {
      assert a !in cur.epMgr.epAddrMap.Keys;
      assert a in SentTo(events);
    }
  }

  /** One iteration of the Teardown loop keeps its invariant, when the
      registry starts out consistent. */
  lemma LoopStep(s: Server, cur: Server, events: seq<Event>, keys: set<Bytes>, ip: Bytes, parseAddr: Bytes -> Option<IPNet>)
    requires Registry.Inv(s.epMgr) ==> TeardownInv(s, cur, events, keys)
    requires ip in keys && |keys - {ip}| == |keys| - 1
    ensures
      var step := CloseEPByIP(cur, ip, parseAddr);
      Registry.Inv(s.epMgr) ==> TeardownInv(s, step.server, events + step.events, keys - {ip})
  {
    if Registry.Inv(s.epMgr) {
      TeardownStep(s, cur, events, keys, ip, parseAddr);
    }
  }

  /** One iteration of the Teardown loop keeps its invariant. */
  lemma TeardownStep(s: Server, cur: Server, events: seq<Event>, keys: set<Bytes>, ip: Bytes, parseAddr: Bytes -> Option<IPNet>)
    requires TeardownInv(s, cur, events, keys) && ip in keys && |keys - {ip}| == |keys| - 1
    ensures
      var step := CloseEPByIP(cur, ip, parseAddr);
      TeardownInv(s, step.server, events + step.events, keys - {ip})
  {
    var step := CloseEPByIP(cur, ip, parseAddr);
    CloseRegistered(cur, ip, parseAddr);
    var e := step.events[0];
    assert step.events == [e];
    StepRegistered(events, e, s.epMgr.epAddrMap.Keys);
    SentToAppend(events, e);
    StepLeft(cur.epMgr.epAddrMap.Keys, step.server.epMgr.epAddrMap.Keys, s.epMgr.epAddrMap.Keys, SentTo(events), e.to);
  }

  /** A FIN to a registered address keeps every FIN going to one. */
  lemma StepRegistered(events: seq<Event>, e: Event, registered: set<Bytes>)
    requires forall x :: x in events ==> x.to in registered
    requires e.to in registered
    ensures forall x :: x in events + [e] ==> x.to in registered
  {
  }

  /** Closing the address `t`, still registered, moves it from the
      registered addresses to those sent to. */
  lemma StepLeft(left: set<Bytes>, left': set<Bytes>, start: set<Bytes>, sent: set<Bytes>, t: Bytes)
    requires left == start - sent && left' == left - {t} && t in start
    ensures left' == start - (sent + {t})
  {
  }

  /** The events go to at most as many addresses as there are events. */
  lemma {:induction false} SentToBound(events: seq<Event>)
    ensures |SentTo(events)| <= |events|
  {
    if |events| > 0 {
      var p := events[..|events| - 1];
      assert events == p + [events[|events| - 1]];
      SentToAppend(p, events[|events| - 1]);
      SentToBound(p);
    }
  }

  /** Events that go to as many addresses as there are events go to
      pairwise distinct addresses. */
  lemma {:induction false} CardDistinct(events: seq<Event>)
    requires |SentTo(events)| == |events|
    ensures forall i, j :: 0 <= i < j < |events| ==> events[i].to != events[j].to
  {
    if |events| > 0 {
      var n := |events| - 1;
      var p := events[..n];
      assert events == p + [events[n]];
      SentToAppend(p, events[n]);
      SentToBound(p);
      assert events[n].to !in SentTo(p) && |SentTo(p)| == n;
      CardDistinct(p);
      forall i, j | 0 <= i < j < |events|
        ensures events[i].to != events[j].to
      {
        assert events[i] == p[i];
        if j < n {
          assert events[j] == p[j];
        }
      }
    }
  }

  /** Removing a member shrinks a finite set by one. */
  lemma RemoveOne<T>(s: set<T>, x: T)
    requires x in s
    ensures |s - {x}| == |s| - 1
  {
  }

  /** Under the registry invariant, no tunnel address means no endpoint. */
  lemma EmptyRegistry(m: Registry.EndpointMgr)
    requires Registry.Inv(m) && m.epIPMap.Keys == {}
    ensures m.epIPMap == map[] && m.epAddrMap == map[]
  {
  }

  /** One close in the teardown loop, under the registry invariant: the
      address leaves the registry, no remote address is added, and one FIN
      goes to a registered remote address. */
  lemma CloseRegistered(s: Server, ip: Bytes, parseAddr: Bytes -> Option<IPNet>)
    requires Registry.Inv(s.epMgr) && ip in s.epMgr.epIPMap
    ensures
      var r := CloseEPByIP(s, ip, parseAddr);
      && Registry.Inv(r.server.epMgr)
      && r.server.epMgr.epIPMap.Keys == s.epMgr.epIPMap.Keys - {ip}
      && |r.events| == 1 && r.events[0].to in s.epMgr.epAddrMap
      && r.server.epMgr.epAddrMap.Keys == s.epMgr.epAddrMap.Keys - {r.events[0].to}
  {
    Registry.CloseEPByIPInv(s.epMgr, ip);
    Registry.GetEPByIPUnderInv(s.epMgr, ip);
  }

  // ---------------------------------------------------------------------
  // The receive loop and the device loop

  /** What the receive loop does with one datagram: the read keeps at most
      `MAX_FRG_SIZE` bytes; a frame that does not decode is dropped; REQ
      and IPS are handled; PSH, DAT and FIN reach empty handlers, and other
      flags are ignored. */
  function Dispatch(s: Server, datagram: Bytes, raddr: Bytes, m: Cipher.CBC, env: Env): (r: Step)
    requires Cipher.Valid(m)
    ensures
      var frame := if |datagram| > Protocol.MAX_FRG_SIZE then datagram[..Protocol.MAX_FRG_SIZE] else datagram;
      var d := Protocol.Decode(frame, s.cipher, m);
      && (d.Err? ==> r == Step(s, []))
      && (d.Ok? && d.value.flag != Protocol.HDR_FLG_REQ && d.value.flag != Protocol.HDR_FLG_IPS ==> r == Step(s, []))
      && (d.Ok? && d.value.flag == Protocol.HDR_FLG_REQ ==> r == HandleReq(s, d.value.payload, raddr, env.hash))
      && (d.Ok? && d.value.flag == Protocol.HDR_FLG_IPS ==>
            r == Step(HandleIps(s, raddr, d.value.payload, env.parseCIDR), []))
  {
    var frame := if |datagram| > Protocol.MAX_FRG_SIZE then datagram[..Protocol.MAX_FRG_SIZE] else datagram;
    match Protocol.Decode(frame, s.cipher, m)
    case Err(_) => Step(s, [])
    case Ok(f) =>
      if f.flag == Protocol.HDR_FLG_REQ then HandleReq(s, f.payload, raddr, env.hash)
      else if f.flag == Protocol.HDR_FLG_IPS then Step(HandleIps(s, raddr, f.payload, env.parseCIDR), [])
      else Step(s, [])
  }

  /** Every datagram keeps the server invariant, for a hash into the pool. */
  lemma DispatchInv(s: Server, datagram: Bytes, raddr: Bytes, m: Cipher.CBC, env: Env)
    requires Cipher.Valid(m) && Inv(s) && raddr != []
    requires forall u :: 0 <= env.hash(s.ipMgr.ipCount, u) < s.ipMgr.ipCount
    ensures Inv(Dispatch(s, datagram, raddr, m, env).server)
  {
    var frame := if |datagram| > Protocol.MAX_FRG_SIZE then datagram[..Protocol.MAX_FRG_SIZE] else datagram;
    match Protocol.Decode(frame, s.cipher, m)
    case Err(_) =>
    case Ok(f) =>
      if f.flag == Protocol.HDR_FLG_REQ {
        var parts := Strings.Split(f.payload, Client.Slash);
        if |parts| == 2 {
          LoginInv(s, parts[0], parts[1], raddr, env.hash);
        }
      } else if f.flag == Protocol.HDR_FLG_IPS {
        HandleIpsInv(s, raddr, f.payload, env.parseCIDR);
      }
  }

  /** A client's own FIN does not close its endpoint: the handler is empty,
      so only a heartbeat timeout or the teardown ends a session. */
  lemma ClientFinIgnored(s: Server, c: Client.Client, raddr: Bytes, m: Cipher.CBC, iv: Bytes, env: Env)
    requires Cipher.Valid(m) && |iv| == Cipher.BlockSize
    ensures Client.Datagram(Client.SendFin(c), s.cipher, m, iv).Ok?
    ensures Dispatch(s, Client.Datagram(Client.SendFin(c), s.cipher, m, iv).value, raddr, m, env) == Step(s, [])
  {
    Client.ControlFrames(c, s.cipher, m, iv);
  }

  /** End to end: the REQ datagram a client sends with the server's cipher
      reaches Login with the client's own user and password, when neither
      holds a `/` and the datagram fits the receive buffer. */
  lemma ClientReqLogsIn(s: Server, c: Client.Client, raddr: Bytes, m: Cipher.CBC, iv: Bytes, env: Env)
    requires Cipher.Valid(m) && |iv| == Cipher.BlockSize
    requires Client.Slash !in c.user && Client.Slash !in c.passwd
    requires Client.Datagram(Client.SendReq(c), s.cipher, m, iv).Ok?
    requires |Client.Datagram(Client.SendReq(c), s.cipher, m, iv).value| <= Protocol.MAX_FRG_SIZE
    ensures Dispatch(s, Client.Datagram(Client.SendReq(c), s.cipher, m, iv).value, raddr, m, env)
      == Login(s, c.user, c.passwd, raddr, env.hash)
  {
    Client.ReqSplitsBack(c);
  }

  /** IfaceToNet for one packet read from the tunnel device, whose IPv4
      destination is `dst`: a DAT carrying the packet to the endpoint the
      route table gives, or nothing when it gives none. */
  method IfaceToNet(s: Server, packet: Bytes, dst: u32) returns (route: Option<Registry.Endpoint>, events: seq<Event>)
    ensures Dst.IsRoute(s.dstMgr, s.epMgr, dst, route)
    ensures route.None? ==> events == []
    ensures route.Some? ==> events == [Event(Protocol.HDR_FLG_DAT, packet, route.value.raddr)]
  {
    route := Dst.GetDstEpByDstIP(s.dstMgr, s.epMgr, dst);
    events := if route.Some? then [Event(Protocol.HDR_FLG_DAT, packet, route.value.raddr)] else [];
  }

  /** Under the invariant a packet is forwarded only to a registered
      endpoint: one in the tunnel subnet to the holder of that address,
      any other to the owner of an announced network containing it. */
  lemma ForwardedToRegistered(s: Server, dst: u32, route: Option<Registry.Endpoint>)
    requires Inv(s)
    requires Dst.IsRoute(s.dstMgr, s.epMgr, dst, route)
    requires route.Some?
    ensures route.value.raddr in s.epMgr.epAddrMap && s.epMgr.epAddrMap[route.value.raddr] == route.value
    ensures Contains(s.dstMgr.inNet, dst) ==> AddrKey(route.value.ip) == Dst.InNetKey(s.dstMgr, dst)
  {
    if Contains(s.dstMgr.inNet, dst) {
      Registry.GetEPByIPUnderInv(s.epMgr, Dst.InNetKey(s.dstMgr, dst));
    }
  }
}
