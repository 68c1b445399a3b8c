/** pkg/endpoint/ipmgr.go: the tunnel address pool. The pool is the range
    `[IPStart, IPStart + IPCount)`, addressed by index; `UsedIP` lists the
    leased indices in lease order. A login probes forward, with wrap-around,
    from an index derived from the user name (the `utils.IdxFromString`
    hash, which is not part of this model and enters as a number). */
module Pool {
  import opened Common
  import opened Net
  import Strings
  import Utils

  const U32Mod: int := 0x1_0000_0000

  const RunOutMsg := Lit("run out of ip")

  datatype IPMgr = IPMgr(ipRange: Bytes, maskLen: int, ipStart: u32, ipCount: nat, usedIP: seq<int>)

  predicate NoDup(s: seq<int>) {
    forall i, j :: 0 <= i < j < |s| ==> s[i] != s[j]
  }

  /** The pool invariant: no index leased twice, every leased index inside
      the pool, and the pool no larger than the address space. */
  predicate Valid(mgr: IPMgr) {
    && NoDup(mgr.usedIP)
    && (forall i :: 0 <= i < |mgr.usedIP| ==> 0 <= mgr.usedIP[i] < mgr.ipCount)
    && mgr.ipCount <= U32Mod
  }

  /** The error text for a range that holds no address. */
  function RangeError(ipRange: Bytes): Bytes {
    Lit("invalidate dhcp range ") + ipRange + Lit(", <ip start>-<ip end>")
  }

  /** NewIPMgr with ParseIPRange: a range that yields no address (malformed,
      reversed, or start equal to end) is an error; otherwise an empty pool. */
  function NewIPMgr(ipRange: Bytes, maskLen: int, parseIP: Utils.IPParser): (r: Result<IPMgr>)
    ensures r.Err? <==> Utils.ValidateDHCPRange(ipRange, parseIP).1 == 0
    ensures r.Err? ==> r.msg == RangeError(ipRange)
    ensures r.Ok? ==>
      && Valid(r.value)
      && r.value.usedIP == []
      && r.value.ipCount > 0
      && Some(r.value.ipStart) == Utils.ValidateDHCPRange(ipRange, parseIP).0
      && r.value.ipStart + r.value.ipCount < U32Mod
      && r.value.maskLen == maskLen && r.value.ipRange == ipRange
  {
    var (start, count) := Utils.ValidateDHCPRange(ipRange, parseIP);
    if count == 0 then Err(RangeError(ipRange))
    else Ok(IPMgr(ipRange, maskLen, start.value, count, []))
  }

  /** A range `s-e` written with dash-free texts is accepted exactly when
      `s < e`, and then covers `e - s` addresses from `s`. */
  lemma NewIPMgrOfTexts(st: Bytes, et: Bytes, maskLen: int, parseIP: Utils.IPParser, s: u32, e: u32)
    requires Utils.Dash !in st && Utils.Dash !in et
    requires parseIP(st) == Some(s) && parseIP(et) == Some(e)
    ensures NewIPMgr(st + [Utils.Dash] + et, maskLen, parseIP).Ok? <==> s < e
    ensures s < e ==> NewIPMgr(st + [Utils.Dash] + et, maskLen, parseIP).value.ipStart == s
    ensures s < e ==> NewIPMgr(st + [Utils.Dash] + et, maskLen, parseIP).value.ipCount == e - s
  {
    Strings.SplitPair(st, et, Utils.Dash);
  }

  /** IPIdxInPool: whether index `idx` is leased, by a scan of `UsedIP`. */
  method IPIdxInPool(mgr: IPMgr, idx: int) returns (found: bool)
    ensures found <==> idx in mgr.usedIP
  {
    var i := 0;
    while i < |mgr.usedIP|
      invariant 0 <= i <= |mgr.usedIP|
      invariant idx !in mgr.usedIP[..i]
    {
      if mgr.usedIP[i] == idx {
        return true;
      }
      i := i + 1;
    }
    assert mgr.usedIP[..i] == mgr.usedIP;
    return false;
  }

  /** IPFromIdx: the address `IPStart + uint32(idx)`, wrapping modulo 2^32. */
  function IPFromIdx(mgr: IPMgr, idx: int): (ip: u32)
    ensures 0 <= idx && mgr.ipStart + idx < U32Mod ==> ip == mgr.ipStart + idx
    ensures IdxFromIP(mgr, ip) == idx % U32Mod
  {
    (mgr.ipStart + idx) % U32Mod
  }

  /** IdxFromIP: `int(ip - IPStart)` with the subtraction in uint32, so an
      address below the start maps to a large index rather than a negative one. */
  function IdxFromIP(mgr: IPMgr, ip: u32): (idx: int)
    ensures 0 <= idx < U32Mod
    ensures ip >= mgr.ipStart ==> idx == ip - mgr.ipStart
  {
    (ip - mgr.ipStart) % U32Mod
  }

  /** Index to address and back is the identity on every index a uint32
      can hold. */
  lemma IdxFromIPFromIdx(mgr: IPMgr, idx: int)
    requires 0 <= idx < U32Mod
    ensures IdxFromIP(mgr, IPFromIdx(mgr, idx)) == idx
  {
  }

  /** Address to index and back is the identity on every address. */
  lemma IPFromIdxFromIP(mgr: IPMgr, ip: u32)
    ensures IPFromIdx(mgr, IdxFromIP(mgr, ip)) == ip
  {
  }

  /** IPInPool: whether the address's index is leased. */
  predicate IPInPool(mgr: IPMgr, ip: u32) {
    IdxFromIP(mgr, ip) in mgr.usedIP
  }

  /** A leased index's address is reported as in the pool. */
  lemma LeasedIPInPool(mgr: IPMgr, idx: int)
    requires idx in mgr.usedIP && 0 <= idx < U32Mod
    ensures IPInPool(mgr, IPFromIdx(mgr, idx))
  {
    IdxFromIPFromIdx(mgr, idx);
  }

  /** IPToIPAddr: `netlink.ParseAddr("<ip>/<MaskLen>")`, which rejects a
      prefix length outside 0..32. */
  function IPToIPAddr(mgr: IPMgr, ip: u32): (r: Result<IPNet>)
    ensures r.Ok? <==> 0 <= mgr.maskLen <= 32
    ensures r.Ok? ==> r.value.ip == ip && r.value.prefix == mgr.maskLen
  {
    if 0 <= mgr.maskLen <= 32 then Ok(IPNet(ip, mgr.maskLen))
    else
      var len := if mgr.maskLen < 0 then [45] + Decimal(-mgr.maskLen) else Decimal(mgr.maskLen);
      Err(InvalidCIDRError(DottedQuad(ip) + [47] + len))
  }

  /** How the probe loop of IPForUser ends: it leases an index, it leaves
      the loop with nothing leased, or it is still looping when `fuel`
      iterations are spent. */
  datatype Probe = Found(idx: int) | Exhausted | Cycles

  /** The probe loop of ipmgr.go:94-124 from index `idx`, with the loop's
      stop index `idxEnd`, for at most `fuel` iterations. */
  function Scan(used: seq<int>, count: int, idx: int, idxEnd: int, fuel: nat): (r: Probe)
    ensures r.Found? ==> r.idx !in used && r.idx < count
    ensures r.Found? && idx >= 0 ==> r.idx >= 0
    decreases fuel
  {
    if fuel == 0 then Cycles
    else if count <= idx then Exhausted
    else if idx == idxEnd then (if idx in used then Exhausted else Found(idx))
    else if idx in used then
      Scan(used, count, if idx + 1 == count then 0 else idx + 1, idxEnd, fuel - 1)
    else Found(idx)
  }

  /** The `k`-th index of the cyclic probe order that starts at `s`. */
  function ProbeAt(count: nat, s: int, k: nat): (r: int)
    requires 0 <= s < count && k < count
    ensures 0 <= r < count
  {
    if s + k < count then s + k else s + k - count
  }

  /** Reference definition: the first offset `j >= k` in the probe order from
      `s` whose index is not leased. */
  function FirstFreeOffset(used: seq<int>, count: nat, s: int, k: nat): (r: Option<nat>)
    requires 0 <= s < count && k <= count
    ensures r.Some? ==> k <= r.value < count && ProbeAt(count, s, r.value) !in used
    ensures r.Some? ==> forall j :: k <= j < r.value ==> ProbeAt(count, s, j) in used
    ensures r.None? ==> forall j :: k <= j < count ==> ProbeAt(count, s, j) in used
    decreases count - k
  {
    if k == count then None
    else if ProbeAt(count, s, k) !in used then Some(k)
    else FirstFreeOffset(used, count, s, k + 1)
  }

  /** The stop index of the corrected loop: the cyclic predecessor of the
      start, so a start at index 0 stops at `IPCount - 1`. */
  function StopIndex(count: nat, s: int): (e: int)
    ensures 0 <= s < count ==> e == ProbeAt(count, s, count - 1)
  {
    if s == 0 then count - 1 else s - 1
  }

  /** The stop index as written: `idx - 1`, which is -1 for a start at 0. */
  function StopIndexAsWritten(s: int): int {
    s - 1
  }

  /** The probe budget: enough iterations for every in-range start. */
  function Budget(count: nat): nat {
    count + 1
  }

  /** What IPForUser leaves behind: the updated pool and the lease. */
  datatype Lease = Lease(mgr: IPMgr, addr: Result<IPNet>)

  /** IPForUser with the corrected stop index: lease the first free index in
      probe order from `s`, appending it to `UsedIP`. The index is appended
      before the address is formatted, so a prefix length netlink rejects
      still consumes the index. */
  function IPForUser(mgr: IPMgr, s: int): (r: Lease)
    ensures r.mgr.ipRange == mgr.ipRange && r.mgr.maskLen == mgr.maskLen
    ensures r.mgr.ipStart == mgr.ipStart && r.mgr.ipCount == mgr.ipCount
    ensures r.mgr.usedIP == mgr.usedIP || (
      && |r.mgr.usedIP| == |mgr.usedIP| + 1
      && r.mgr.usedIP[..|mgr.usedIP|] == mgr.usedIP
      && r.mgr.usedIP[|mgr.usedIP|] !in mgr.usedIP
      && r.mgr.usedIP[|mgr.usedIP|] < mgr.ipCount
      && (s >= 0 ==> r.mgr.usedIP[|mgr.usedIP|] >= 0))
    ensures r.mgr.usedIP == mgr.usedIP ==> r.addr == Err(RunOutMsg)
    ensures r.addr.Ok? ==>
      && r.mgr.usedIP != mgr.usedIP
      && r.addr.value.ip == IPFromIdx(mgr, r.mgr.usedIP[|mgr.usedIP|])
      && r.addr.value.prefix == mgr.maskLen
    ensures r.mgr.usedIP != mgr.usedIP ==>
      r.addr == IPToIPAddr(mgr, IPFromIdx(mgr, r.mgr.usedIP[|mgr.usedIP|]))
    ensures 0 <= mgr.maskLen <= 32 ==> (r.addr.Ok? <==> r.mgr.usedIP != mgr.usedIP)
  {
    match Scan(mgr.usedIP, mgr.ipCount, s, StopIndex(mgr.ipCount, s), Budget(mgr.ipCount))
    case Found(idx) =>
      var m := mgr.(usedIP := mgr.usedIP + [idx]);
      Lease(m, IPToIPAddr(mgr, IPFromIdx(mgr, idx)))
    case _ => Lease(mgr, Err(RunOutMsg))
  }

  /** IPForUser exactly as written: the stop index is `s - 1`, and the loop
      may never end. */
  datatype Outcome = Leased(lease: Lease) | NeverReturns

  function IPForUserAsWritten(mgr: IPMgr, s: int, fuel: nat): Outcome {
    match Scan(mgr.usedIP, mgr.ipCount, s, StopIndexAsWritten(s), fuel)
    case Found(idx) =>
      Leased(Lease(mgr.(usedIP := mgr.usedIP + [idx]), IPToIPAddr(mgr, IPFromIdx(mgr, idx))))
    case Exhausted => Leased(Lease(mgr, Err(RunOutMsg)))
    case Cycles => NeverReturns
  }

  /** The probe loop from offset `k` (corrected stop index) finds the first
      free offset, within `count - k` iterations. */
  lemma {:induction false} ScanFindsFirstFree(used: seq<int>, count: nat, s: int, k: nat, fuel: nat)
    requires 0 <= s < count && k < count && fuel >= count - k
    ensures Scan(used, count, ProbeAt(count, s, k), StopIndex(count, s), fuel) ==
      match FirstFreeOffset(used, count, s, k)
      case Some(j) => Found(ProbeAt(count, s, j))
      case None => Exhausted
    decreases count - k
  {
    var idx := ProbeAt(count, s, k);
    if idx != StopIndex(count, s) && idx in used {
      assert k + 1 < count;
      assert (if idx + 1 == count then 0 else idx + 1) == ProbeAt(count, s, k + 1);
      ScanFindsFirstFree(used, count, s, k + 1, fuel - 1);
    }
  }

  /** For a start inside the pool, the lease is the first free index in
      probe order from the start, and the pool runs out exactly when every
      index is leased. */
  lemma IPForUserIsFirstFree(mgr: IPMgr, s: int)
    requires 0 <= s < mgr.ipCount
    ensures FirstFreeOffset(mgr.usedIP, mgr.ipCount, s, 0).None? ==>
      IPForUser(mgr, s) == Lease(mgr, Err(RunOutMsg))
    ensures FirstFreeOffset(mgr.usedIP, mgr.ipCount, s, 0).Some? ==>
      IPForUser(mgr, s).mgr.usedIP ==
        mgr.usedIP + [ProbeAt(mgr.ipCount, s, FirstFreeOffset(mgr.usedIP, mgr.ipCount, s, 0).value)]
  {
    ScanFindsFirstFree(mgr.usedIP, mgr.ipCount, s, 0, Budget(mgr.ipCount));
  }

  /** The pool runs out only when every index is leased. */
  lemma RunOutMeansFull(mgr: IPMgr, s: int)
    requires 0 <= s < mgr.ipCount
    requires IPForUser(mgr, s).mgr.usedIP == mgr.usedIP
    ensures forall i :: 0 <= i < mgr.ipCount ==> i in mgr.usedIP
  {
    IPForUserIsFirstFree(mgr, s);
    forall i | 0 <= i < mgr.ipCount
      ensures i in mgr.usedIP
    {
      var k := if i >= s then i - s else i + mgr.ipCount - s;
      assert ProbeAt(mgr.ipCount, s, k) == i;
    }
  }

  /** A start outside the pool: at or beyond `IPCount` nothing is leased; a
      negative start is leased as is, outside the pool. */
  lemma OutOfRangeStart(mgr: IPMgr, s: int)
    requires Valid(mgr)
    ensures s >= mgr.ipCount ==> IPForUser(mgr, s) == Lease(mgr, Err(RunOutMsg))
    ensures s < 0 ==> IPForUser(mgr, s).mgr.usedIP == mgr.usedIP + [s]
  {
  }

  /** IPForUser keeps the pool invariant for starts inside the pool. */
  lemma IPForUserValid(mgr: IPMgr, s: int)
    requires Valid(mgr) && 0 <= s < mgr.ipCount
    ensures Valid(IPForUser(mgr, s).mgr)
  {
    var r := IPForUser(mgr, s);
    if r.mgr.usedIP != mgr.usedIP {
      var u := r.mgr.usedIP;
      assert u == mgr.usedIP + [u[|mgr.usedIP|]];
    }
  }

  /** With the stop index as written, the loop still agrees with the
      corrected one, except for a start at 0 on a full pool. */
  lemma {:induction false} ScanFromZeroAsWritten(used: seq<int>, count: nat, k: nat, fuel: nat)
    requires k < count && fuel >= count - k
    requires FirstFreeOffset(used, count, 0, k).Some?
    ensures Scan(used, count, k, -1, fuel) == Found(FirstFreeOffset(used, count, 0, k).value)
    decreases count - k
  {
    if k in used {
      assert ProbeAt(count, 0, k) == k;
      ScanFromZeroAsWritten(used, count, k + 1, fuel - 1);
    }
  }

  /** On a full pool a probe from index 0 with stop index -1 never leaves
      the loop, however many iterations it is given. */
  lemma {:induction false} ScanFromZeroCycles(used: seq<int>, count: nat, k: nat, fuel: nat)
    requires k < count
    requires forall i :: 0 <= i < count ==> i in used
    ensures Scan(used, count, k, -1, fuel) == Cycles
    decreases fuel
  {
    if fuel > 0 {
      ScanFromZeroCycles(used, count, if k + 1 == count then 0 else k + 1, fuel - 1);
    }
  }

  /** The as-written IPForUser never returns when the hashed start is 0 and
      every index is leased: a second login on a one-address pool whose
      hash is 0 hangs the server. */
  lemma AsWrittenHangs(mgr: IPMgr, fuel: nat)
    requires mgr.ipCount > 0
    requires forall i :: 0 <= i < mgr.ipCount ==> i in mgr.usedIP
    ensures IPForUserAsWritten(mgr, 0, fuel) == NeverReturns
  {
    ScanFromZeroCycles(mgr.usedIP, mgr.ipCount, 0, fuel);
  }

  /** Everywhere else inside the pool the as-written IPForUser returns, with
      the same result as the corrected one. */
  lemma AsWrittenAgrees(mgr: IPMgr, s: int)
    requires 0 <= s < mgr.ipCount
    requires s != 0 || exists i :: 0 <= i < mgr.ipCount && i !in mgr.usedIP
    ensures IPForUserAsWritten(mgr, s, Budget(mgr.ipCount)) == Leased(IPForUser(mgr, s))
  {
    var count, used := mgr.ipCount, mgr.usedIP;
    if s == 0 {
      var i :| 0 <= i < count && i !in used;
      assert ProbeAt(count, 0, i) == i;
      var j := FirstFreeOffset(used, count, 0, 0).value;
      assert ProbeAt(count, 0, 0) == 0 && ProbeAt(count, 0, j) == j;
      ScanFindsFirstFree(used, count, 0, 0, Budget(count));
      ScanFromZeroAsWritten(used, count, 0, Budget(count));
      assert Scan(used, count, 0, -1, Budget(count)) == Scan(used, count, 0, StopIndex(count, 0), Budget(count));
    } else {
      assert StopIndexAsWritten(s) == StopIndex(count, s);
      assert ProbeAt(count, s, 0) == s;
      ScanFindsFirstFree(used, count, s, 0, Budget(count));
    }
  }

  /** ReleaseIP: remove the first occurrence of the address's index from
      `UsedIP`; an address whose index is not leased changes nothing. */
  function ReleaseIP(mgr: IPMgr, ip: u32): (r: IPMgr)
    ensures r.ipRange == mgr.ipRange && r.maskLen == mgr.maskLen
    ensures r.ipStart == mgr.ipStart && r.ipCount == mgr.ipCount
    ensures !IPInPool(mgr, ip) ==> r == mgr
    ensures IPInPool(mgr, ip) ==>
      var i := Strings.FirstIndex(mgr.usedIP, IdxFromIP(mgr, ip));
      r.usedIP == mgr.usedIP[..i] + mgr.usedIP[i + 1..]
  {
    var idx := IdxFromIP(mgr, ip);
    var i := Strings.FirstIndex(mgr.usedIP, idx);
    if i == |mgr.usedIP| then mgr
    else mgr.(usedIP := mgr.usedIP[..i] + mgr.usedIP[i + 1..])
  }

  /** Releasing leaves every other index leased and, with no duplicates,
      the released one free; so a second release changes nothing. */
  lemma ReleaseIPRemoves(mgr: IPMgr, ip: u32)
    requires NoDup(mgr.usedIP)
    ensures IdxFromIP(mgr, ip) !in ReleaseIP(mgr, ip).usedIP
    ensures forall x :: x in mgr.usedIP && x != IdxFromIP(mgr, ip) ==> x in ReleaseIP(mgr, ip).usedIP
    ensures forall x :: x in ReleaseIP(mgr, ip).usedIP ==> x in mgr.usedIP
    ensures ReleaseIP(ReleaseIP(mgr, ip), ip) == ReleaseIP(mgr, ip)
  {
    var u, idx := mgr.usedIP, IdxFromIP(mgr, ip);
    var i := Strings.FirstIndex(u, idx);
    if i < |u| {
      RemoveAtMembers(u, i);
    }
  }

  /** Removing position `i` from a duplicate-free list removes exactly the
      value held there. */
  lemma RemoveAtMembers(u: seq<int>, i: nat)
    requires i < |u| && NoDup(u)
    ensures forall x :: x in u[..i] + u[i + 1..] <==> x in u && x != u[i]
  {
    var v := u[..i] + u[i + 1..];
    assert forall j :: 0 <= j < |v| ==> v[j] == (if j < i then u[j] else u[j + 1]);
    forall x
      ensures x in v <==> x in u && x != u[i]
    {
      if x in v {
        var j :| 0 <= j < |v| && v[j] == x;
        if j < i { assert u[j] == x; } else { assert u[j + 1] == x; }
      }
      if x in u && x != u[i] {
        var j :| 0 <= j < |u| && u[j] == x;
        if j < i { assert v[j] == x; } else { assert v[j - 1] == x; }
      }
    }
  }

  /** ReleaseIP keeps the pool invariant. */
  lemma ReleaseIPValid(mgr: IPMgr, ip: u32)
    requires Valid(mgr)
    ensures Valid(ReleaseIP(mgr, ip))
  {
    var u := mgr.usedIP;
    var i := Strings.FirstIndex(u, IdxFromIP(mgr, ip));
    if i < |u| {
      RemoveAtValid(u, i, mgr.ipCount, u[..i] + u[i + 1..]);
    }
  }

  /** Removing one element of a duplicate-free list of pool indices leaves
      a duplicate-free list of pool indices. */
  lemma RemoveAtValid(u: seq<int>, i: nat, count: nat, v: seq<int>)
    requires NoDup(u) && i < |u| && v == u[..i] + u[i + 1..]
    requires forall j :: 0 <= j < |u| ==> 0 <= u[j] < count
    ensures NoDup(v)
    ensures forall j :: 0 <= j < |v| ==> 0 <= v[j] < count
  {
    assert forall j :: 0 <= j < |v| ==> v[j] == (if j < i then u[j] else u[j + 1]);
  }

  /** Releasing the address a login just leased gives the pool back
      exactly as it was. */
  lemma ReleaseAfterLease(mgr: IPMgr, s: int)
    requires Valid(mgr) && 0 <= s < mgr.ipCount
    requires IPForUser(mgr, s).addr.Ok?
    ensures ReleaseIP(IPForUser(mgr, s).mgr, IPForUser(mgr, s).addr.value.ip) == mgr
  {
    var r := IPForUser(mgr, s);
    var idx := r.mgr.usedIP[|mgr.usedIP|];
    assert r.mgr.usedIP == mgr.usedIP + [idx];
    IdxFromIPFromIdx(r.mgr, idx);
    assert Strings.FirstIndex(r.mgr.usedIP, idx) == |mgr.usedIP|;
  }

  /** Three logins whose name hashes to index 1 on a three-address pool
      from 192.168.123.100 get .101, .102 and .100; the fourth runs out. */
  lemma ThreeLeasesThenRunOut()
    ensures
      var m0 := IPMgr([], 24, IPv4(192, 168, 123, 100), 3, []);
      var r1 := IPForUser(m0, 1);
      var r2 := IPForUser(r1.mgr, 1);
      var r3 := IPForUser(r2.mgr, 1);
      var r4 := IPForUser(r3.mgr, 1);
      && r1.addr == Ok(IPNet(IPv4(192, 168, 123, 101), 24))
      && r2.addr == Ok(IPNet(IPv4(192, 168, 123, 102), 24))
      && r3.addr == Ok(IPNet(IPv4(192, 168, 123, 100), 24))
      && r4.addr == Err(RunOutMsg)
  {
    var m0 := IPMgr([], 24, IPv4(192, 168, 123, 100), 3, []);
    assert IPv4(192, 168, 123, 100) + 1 == IPv4(192, 168, 123, 101);
    assert IPv4(192, 168, 123, 100) + 2 == IPv4(192, 168, 123, 102);
    assert FirstFreeOffset([], 3, 1, 0) == Some(0);
    LeaseStep(m0, [], 1, 0);
    assert FirstFreeOffset([1], 3, 1, 0) == Some(1);
    LeaseStep(m0, [1], 2, 1);
    assert FirstFreeOffset([1, 2], 3, 1, 0) == Some(2);
    LeaseStep(m0, [1, 2], 0, 2);
    FullPoolRunsOut(m0.(usedIP := [1, 2, 0]));
  }

  /** One lease of the scenario above: on the three-address pool with
      `used` leased, a probe from index 1 takes index `idx`. */
  lemma LeaseStep(m0: IPMgr, used: seq<int>, idx: int, k: nat)
    requires m0 == IPMgr([], 24, IPv4(192, 168, 123, 100), 3, [])
    requires k < 3 && 0 <= idx < 3
    requires FirstFreeOffset(used, 3, 1, 0) == Some(k) && ProbeAt(3, 1, k) == idx
    ensures IPForUser(m0.(usedIP := used), 1) ==
      Lease(m0.(usedIP := used + [idx]), Ok(IPNet(IPv4(192, 168, 123, 100) + idx, 24)))
  {
    IPForUserIsFirstFree(m0.(usedIP := used), 1);
  }

  /** The fourth login of the scenario: every index is leased. */
  lemma FullPoolRunsOut(m: IPMgr)
    requires m.ipCount == 3 && m.usedIP == [1, 2, 0]
    ensures IPForUser(m, 1).addr == Err(RunOutMsg)
  {
    assert FirstFreeOffset([1, 2, 0], 3, 1, 0) == None;
    IPForUserIsFirstFree(m, 1);
  }

  /** On the range 192.168.123.100-200 with indices 0 and 1 leased,
      releasing .100 twice, then .105, leaves one lease; releasing .101
      leaves none. */
  lemma ReleaseSequence()
    ensures
      var m := IPMgr([], 24, IPv4(192, 168, 123, 100), 100, [0, 1]);
      var m1 := ReleaseIP(m, IPv4(192, 168, 123, 100));
      var m2 := ReleaseIP(m1, IPv4(192, 168, 123, 100));
      var m3 := ReleaseIP(m2, IPv4(192, 168, 123, 105));
      var m4 := ReleaseIP(m3, IPv4(192, 168, 123, 101));
      |m1.usedIP| == 1 && |m2.usedIP| == 1 && |m3.usedIP| == 1 && |m4.usedIP| == 0
  {
    var m := IPMgr([], 24, IPv4(192, 168, 123, 100), 100, [0, 1]);
    assert IdxFromIP(m, IPv4(192, 168, 123, 100)) == 0;
    assert IdxFromIP(m, IPv4(192, 168, 123, 105)) == 5;
    assert IdxFromIP(m, IPv4(192, 168, 123, 101)) == 1;
    assert Strings.FirstIndex([0, 1], 0) == 0;
    assert Strings.FirstIndex([1], 0) == 1;
    assert Strings.FirstIndex([1], 5) == 1;
    assert Strings.FirstIndex([1], 1) == 0;
  }
}
