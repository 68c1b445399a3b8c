/** pkg/utils: key-length validation, the DHCP range parser behind the address
    pool, and the allowed-IPs list parser behind route announcements. Go's
    address parsers (`net.ParseIP`, `net.ParseCIDR`) are not part of this
    model: callers pass them in as partial functions. */
module Utils {
  import opened Common
  import opened Strings
  import opened Net

  /** `net.ParseIP(s).To4()`: the IPv4 address the text denotes, if any. */
  type IPParser = Bytes -> Option<u32>

  /** `net.ParseCIDR(s)`: the network (host bits cleared) the text denotes, if any. */
  type CIDRParser = Bytes -> Option<IPNet>

  const Dash: byte := 45
  const Comma: byte := 44

  /** AES accepts 128-, 192- and 256-bit keys only. */
  predicate ValidateKey(key: Bytes) {
    |key| == 16 || |key| == 24 || |key| == 32
  }

  /** `<start>-<end>`: the start address and the number of addresses from the
      start up to, but not including, the end. Every malformed range, and a
      range whose end lies before its start, gives `(None, 0)`. */
  function ValidateDHCPRange(ipRange: Bytes, parseIP: IPParser): (r: (Option<u32>, nat))
    ensures r.1 > 0 ==> r.0.Some?
    ensures r.0.Some? <==>
      var parts := Split(ipRange, Dash);
      |parts| == 2 && parseIP(parts[0]).Some? && parseIP(parts[1]).Some?
      && parseIP(parts[0]).value <= parseIP(parts[1]).value
    ensures r.0.Some? ==>
      var parts := Split(ipRange, Dash);
      r.0.value == parseIP(parts[0]).value
      && r.0.value + r.1 == parseIP(parts[1]).value
    ensures r.0.None? ==> r.1 == 0
  {
    var parts := Split(ipRange, Dash);
    if |parts| != 2 then (None, 0)
    else
      var start, end := parseIP(parts[0]), parseIP(parts[1]);
      if start.None? || end.None? then (None, 0)
      else if end.value < start.value then (None, 0)
      else (start, end.value - start.value)
  }

  /** A range written as `<start text>-<end text>` with dash-free texts that
      parse to `s <= e` yields start `s` and `e - s` addresses. */
  lemma DHCPRangeOfTexts(st: Bytes, et: Bytes, parseIP: IPParser, s: u32, e: u32)
    requires Dash !in st && Dash !in et
    requires parseIP(st) == Some(s) && parseIP(et) == Some(e)
    requires s <= e
    ensures ValidateDHCPRange(st + [Dash] + et, parseIP) == (Some(s), e - s)
  {
    SplitPair(st, et, Dash);
  }

  /** The networks of `parts`, in order, or `None` as soon as one fails to parse. */
  function ParseEach(parts: seq<Bytes>, parseCIDR: CIDRParser): (r: Option<seq<IPNet>>)
    ensures r.Some? <==> forall i :: 0 <= i < |parts| ==> parseCIDR(parts[i]).Some?
    ensures r.Some? ==>
      && |r.value| == |parts|
      && (forall i :: 0 <= i < |parts| ==> parseCIDR(parts[i]) == Some(r.value[i]))
  {
    if |parts| == 0 then Some([])
    else
      match parseCIDR(parts[0])
      case None => None
      case Some(n) =>
        match ParseEach(parts[1..], parseCIDR)
        case None => None
        case Some(rest) => Some([n] + rest)
  }

  /** The comma-separated CIDR list of an IPS message: each piece goes to the
      CIDR parser verbatim; one failure fails the whole list. */
  function ParseAllowedIPs(ctx: Bytes, parseCIDR: CIDRParser): (r: Option<seq<IPNet>>)
    ensures r.None? ==> exists i :: 0 <= i < |Split(ctx, Comma)| && parseCIDR(Split(ctx, Comma)[i]).None?
    ensures r.Some? ==>
      && |r.value| == |Split(ctx, Comma)|
      && (forall i :: 0 <= i < |r.value| ==> parseCIDR(Split(ctx, Comma)[i]) == Some(r.value[i]))
  {
    ParseEach(Split(ctx, Comma), parseCIDR)
  }

  /** Pieces that each parse give exactly their networks, in order. */
  lemma ParseEachOf(parts: seq<Bytes>, nets: seq<IPNet>, parseCIDR: CIDRParser)
    requires |nets| == |parts|
    requires forall i :: 0 <= i < |parts| ==> parseCIDR(parts[i]) == Some(nets[i])
    ensures ParseEach(parts, parseCIDR) == Some(nets)
  {
    var r := ParseEach(parts, parseCIDR);
    assert forall i :: 0 <= i < |parts| ==> parseCIDR(parts[i]).Some?;
    assert forall i :: 0 <= i < |parts| ==> r.value[i] == nets[i] by {
      forall i | 0 <= i < |parts|
        ensures r.value[i] == nets[i]
      {
        assert parseCIDR(parts[i]) == Some(r.value[i]);
      }
    }
    assert r.value == nets;
  }

  /** A list joined with commas parses back to one network per entry, in
      order, when no entry contains a comma. */
  lemma ParseJoinedAllowedIPs(entries: seq<Bytes>, nets: seq<IPNet>, parseCIDR: CIDRParser)
    requires |entries| >= 1 && |nets| == |entries|
    requires forall i :: 0 <= i < |entries| ==> Comma !in entries[i]
    requires forall i :: 0 <= i < |entries| ==> parseCIDR(entries[i]) == Some(nets[i])
    ensures ParseAllowedIPs(Join(entries, Comma), parseCIDR) == Some(nets)
  {
    SplitJoin(entries, Comma);
    ParseEachOf(entries, nets, parseCIDR);
  }
}
