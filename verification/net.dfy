/** IPv4 addresses and networks as the Go `net` and `netlink` packages hold
    them, reduced to what the core uses: the 32-bit address, the prefix
    length, the containment test and the canonical text form. */
module Net {
  import opened Common

  type Prefix = x: nat | x <= 32

  /** An IPv4 address with a prefix length: Go's `net.IPNet`, and also
      `netlink.Addr`, which wraps one. For an interface address `ip` keeps the
      host bits; for a network parsed from CIDR text they are zero. */
  datatype IPNet = IPNet(ip: u32, prefix: Prefix)

  /** The number of addresses a prefix of this length covers. */
  function BlockSize(p: Prefix): (r: nat)
    ensures r >= 1
  {
    Pow2(32 - p)
  }

  /** The address with every bit outside the prefix cleared (`ip & mask`). */
  function Masked(x: u32, p: Prefix): (r: int)
    ensures 0 <= r <= x && x - r < BlockSize(p)
  {
    var b := BlockSize(p);
    ModBounds(x, b);
    x - x % b
  }

  lemma ModBounds(x: nat, b: nat)
    requires b >= 1
    ensures 0 <= x % b < b && x % b <= x
  {
    if x < b {
      assert x % b == x;
    } else {
      assert x % b < b <= x;
    }
  }

  /** `IPNet.Contains`: `dst` and the network agree on the first `prefix`
      bits, the masked comparison of section 3.1 of RFC 4632. */
  predicate Contains(n: IPNet, dst: u32) {
    Masked(dst, n.prefix) == Masked(n.ip, n.prefix)
  }

  /** Decimal fields with one separator after each field but the last:
      `fields[0] seps[0] fields[1] ... fields[n-1]`. */
  function Render(fields: seq<nat>, seps: Bytes): (r: Bytes)
    requires |fields| >= 1 && |seps| == |fields| - 1
    ensures |r| >= 2 * |fields| - 1
    decreases |fields|
  {
    if |fields| == 1 then Decimal(fields[0])
    else Decimal(fields[0]) + [seps[0]] + Render(fields[1..], seps[1..])
  }

  /** The four octets of an address, most significant first. */
  function Octets(x: u32): (r: seq<nat>)
    ensures |r| == 4
  {
    [x / 0x100_0000, x / 0x1_0000 % 0x100, x / 0x100 % 0x100, x % 0x100]
  }

  /** Dotted-quad text of a 32-bit address (`net.IP.String` for IPv4). */
  function DottedQuad(x: u32): (r: Bytes)
    ensures |r| >= 7
  {
    Render(Octets(x), [46, 46, 46])
  }

  /** `ip.String()` of a `netlink.Addr` without label: `a.b.c.d/len`. The
      endpoint registry keys endpoints by this text, and the server sends it
      in the ACK of a successful login. */
  function AddrKey(a: IPNet): (r: Bytes)
    ensures |r| >= 9
  {
    Render(Octets(a.ip) + [a.prefix], [46, 46, 46, 47])
  }

  /** The error `net.ParseCIDR` and `netlink.ParseAddr` give for a text that
      is not `<address>/<length>`. */
  function InvalidCIDRError(text: Bytes): (r: Bytes)
    ensures |r| >= |text| && r[..|r| - |text|] == Lit("invalid CIDR address: ") && r[|r| - |text|..] == text
  {
    Lit("invalid CIDR address: ") + text
  }

  /** Address literal `a.b.c.d` as a number. */
  function IPv4(a: byte, b: byte, c: byte, d: byte): (r: u32)
    ensures r / 0x100_0000 == a && r % 0x100 == d
  {
    a * 0x100_0000 + b * 0x1_0000 + c * 0x100 + d
  }
}
