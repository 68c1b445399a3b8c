/** Basic value types shared by every part of the model: bytes, fixed-width
    unsigned integers, optional values and results carrying a Go error text. */
module Common {

  /** A Go `byte`. */
  type byte = x: int | 0 <= x < 0x100

  /** A Go `uint16`. */
  type u16 = x: int | 0 <= x < 0x1_0000

  /** A Go `uint32`, also the numeric form of an IPv4 address. */
  type u32 = x: int | 0 <= x < 0x1_0000_0000

  /** Go strings and byte slices are both byte sequences. */
  type Bytes = seq<byte>

  datatype Option<+T> = None | Some(value: T)

  /** A Go `(value, error)` pair: on failure only the error's text matters. */
  datatype Result<+T> = Ok(value: T) | Err(msg: Bytes)

  /** The bytes of an ASCII string literal, as Go stores it. */
  function Lit(s: string): (r: Bytes)
    ensures |r| == |s|
    ensures forall i :: 0 <= i < |s| && s[i] as int < 0x100 ==> r[i] == s[i] as int
  {
    seq(|s|, i requires 0 <= i < |s| => (s[i] as int) % 0x100)
  }

  /** The value of two bytes read big-endian (encoding/binary.BigEndian.Uint16). */
  function Uint16BE(hi: byte, lo: byte): (r: u16)
  {
    hi * 0x100 + lo
  }

  /** The two bytes can be read back from the value. */
  lemma Uint16BEBytes(hi: byte, lo: byte)
    ensures Uint16BE(hi, lo) / 0x100 == hi && Uint16BE(hi, lo) % 0x100 == lo
  {
  }

  /** The two bytes of a `uint16` written big-endian (binary.Write with BigEndian). */
  function PutUint16BE(x: u16): (r: Bytes)
    ensures |r| == 2
    ensures Uint16BE(r[0], r[1]) == x
  {
    [x / 0x100, x % 0x100]
  }

  function Pow2(n: nat): (r: nat)
    ensures r >= 1
  {
    if n == 0 then 1 else 2 * Pow2(n - 1)
  }

  /** The decimal digits of `n` without leading zeros, as `%d` prints it. */
  function Decimal(n: nat): (r: Bytes)
    ensures |r| >= 1
    ensures forall i :: 0 <= i < |r| ==> 48 <= r[i] <= 57
    decreases n
  {
    if n < 10 then [48 + n] else Decimal(n / 10) + [48 + n % 10]
  }
}
