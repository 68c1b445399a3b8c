/** Base64 with the standard alphabet and `=` padding (section 4 of RFC 4648),
    as Go's `base64.StdEncoding.EncodeToString` produces it. The user database
    stores passwords in this form. */
module Base64 {
  import opened Common

  /** The padding character `=`. */
  const PadChar: byte := 61

  /** The character that stands for a 6-bit value: A-Z, a-z, 0-9, `+`, `/`. */
  function CharOf(v: int): (c: byte)
    requires 0 <= v < 64
    ensures IsAlphabet(c) && c != PadChar
  {
    if v < 26 then 65 + v
    else if v < 52 then 97 + (v - 26)
    else if v < 62 then 48 + (v - 52)
    else if v == 62 then 43
    else 47
  }

  predicate IsAlphabet(c: byte) {
    (65 <= c <= 90) || (97 <= c <= 122) || (48 <= c <= 57) || c == 43 || c == 47
  }

  /** The 6-bit value of an alphabet character; the inverse of `CharOf`. */
  function ValueOf(c: byte): (v: int)
    requires IsAlphabet(c)
    ensures 0 <= v < 64 && CharOf(v) == c
  {
    if 65 <= c <= 90 then c - 65
    else if 97 <= c <= 122 then c - 97 + 26
    else if 48 <= c <= 57 then c - 48 + 52
    else if c == 43 then 62
    else 63
  }

  lemma ValueOfCharOf(v: int)
    requires 0 <= v < 64
    ensures ValueOf(CharOf(v)) == v
  {
  }

  /** The four characters of one full three-byte group. */
  function Quad(a: byte, b: byte, c: byte): (r: Bytes)
    ensures |r| == 4
  {
    [CharOf(a / 4), CharOf((a % 4) * 16 + b / 16), CharOf((b % 16) * 4 + c / 64), CharOf(c % 64)]
  }

  /** A final group of one byte: two characters and two `=`. */
  function Single(a: byte): (r: Bytes)
    ensures |r| == 4
  {
    [CharOf(a / 4), CharOf((a % 4) * 16), PadChar, PadChar]
  }

  /** A final group of two bytes: three characters and one `=`. */
  function Pair(a: byte, b: byte): (r: Bytes)
    ensures |r| == 4
  {
    [CharOf(a / 4), CharOf((a % 4) * 16 + b / 16), CharOf((b % 16) * 4), PadChar]
  }

  /** EncodeToString: every three input bytes become four characters; a final
      group of one or two bytes is completed with `=`. */
  function Encode(x: Bytes): (r: Bytes)
    ensures |r| % 4 == 0 && (|x| > 0 <==> |r| > 0)
    decreases |x|
  {
    if |x| == 0 then []
    else if |x| == 1 then Single(x[0])
    else if |x| == 2 then Pair(x[0], x[1])
    else Quad(x[0], x[1], x[2]) + Encode(x[3..])
  }

  /** Decoding of the standard encoding, the inverse of `Encode`; `None` for
      text that is not a well-formed encoding. */
  function Decode(s: Bytes): (r: Option<Bytes>)
    decreases |s|
  {
    if |s| == 0 then Some([])
    else if |s| < 4 || !IsAlphabet(s[0]) || !IsAlphabet(s[1]) then None
    else
      var v0, v1 := ValueOf(s[0]), ValueOf(s[1]);
      var b0 := v0 * 4 + v1 / 16;
      if |s| == 4 && s[2] == PadChar && s[3] == PadChar then Some([b0])
      else if !IsAlphabet(s[2]) then None
      else
        var v2 := ValueOf(s[2]);
        var b1 := (v1 % 16) * 16 + v2 / 4;
        if |s| == 4 && s[3] == PadChar then Some([b0, b1])
        else if !IsAlphabet(s[3]) then None
        else
          var b2 := (v2 % 4) * 64 + ValueOf(s[3]);
          match Decode(s[4..])
          case None => None
          case Some(rest) => Some([b0, b1, b2] + rest)
  }

  /** The bit arithmetic of one group: the 6-bit values of `Quad(a, b, c)`
      reassemble into `a`, `b` and `c`. */
  lemma GroupArith(a: byte, b: byte, c: byte)
    ensures (a / 4) * 4 + ((a % 4) * 16 + b / 16) / 16 == a
    ensures (((a % 4) * 16 + b / 16) % 16) * 16 + ((b % 16) * 4 + c / 64) / 4 == b
    ensures (((b % 16) * 4 + c / 64) % 4) * 64 + c % 64 == c
  {
  }

  lemma DecodeOne(a: byte)
    ensures Decode(Encode([a])) == Some([a])
  {
    var v0, v1 := a / 4, (a % 4) * 16;
    var s := [CharOf(v0), CharOf(v1), PadChar, PadChar];
    assert Encode([a]) == Single(a) == s;
    ValueOfCharOf(v0);
    ValueOfCharOf(v1);
    assert v0 * 4 + v1 / 16 == a by { GroupArith(a, 0, 0); }
    assert Decode(s) == Some([a]);
  }

  lemma DecodeTwo(a: byte, b: byte)
    ensures Decode(Encode([a, b])) == Some([a, b])
  {
    var v0, v1, v2 := a / 4, (a % 4) * 16 + b / 16, (b % 16) * 4;
    var s := [CharOf(v0), CharOf(v1), CharOf(v2), PadChar];
    assert Encode([a, b]) == Pair(a, b) == s;
    ValueOfCharOf(v0);
    ValueOfCharOf(v1);
    ValueOfCharOf(v2);
    assert v0 * 4 + v1 / 16 == a && (v1 % 16) * 16 + v2 / 4 == b by { GroupArith(a, b, 0); }
    assert Decode(s) == Some([a, b]);
  }

  lemma DecodeQuad(a: byte, b: byte, c: byte, rest: Bytes, r: Bytes)
    requires Decode(rest) == Some(r)
    ensures Decode(Quad(a, b, c) + rest) == Some([a, b, c] + r)
  {
    var v0, v1, v2, v3 := a / 4, (a % 4) * 16 + b / 16, (b % 16) * 4 + c / 64, c % 64;
    var s := [CharOf(v0), CharOf(v1), CharOf(v2), CharOf(v3)] + rest;
    assert Quad(a, b, c) + rest == s;
    ValueOfCharOf(v0);
    ValueOfCharOf(v1);
    ValueOfCharOf(v2);
    ValueOfCharOf(v3);
    assert v0 * 4 + v1 / 16 == a && (v1 % 16) * 16 + v2 / 4 == b && (v2 % 4) * 64 + v3 == c by {
      GroupArith(a, b, c);
    }
    assert s[4..] == rest;
  }

  /** One full group in front of an encoding that decodes. */
  lemma DecodeEncodeStep(a: byte, b: byte, c: byte, t: Bytes)
    requires Decode(Encode(t)) == Some(t)
    ensures Decode(Encode([a, b, c] + t)) == Some([a, b, c] + t)
  {
    EncodeStep(a, b, c, t);
    DecodeQuad(a, b, c, Encode(t), t);
  }

  lemma EncodeStep(a: byte, b: byte, c: byte, t: Bytes)
    ensures Encode([a, b, c] + t) == Quad(a, b, c) + Encode(t)
  {
    assert ([a, b, c] + t)[3..] == t;
  }

  /** The same step, for the group at position `i` of a longer string. */
  lemma EncodeAt(x: Bytes, i: nat)
    requires i + 3 <= |x|
    ensures Encode(x[i..]) == Quad(x[i], x[i + 1], x[i + 2]) + Encode(x[i + 3..])
  {
    assert x[i..][3..] == x[i + 3..];
  }

  /** The ways a byte string splits into its first group and the rest. */
  lemma Groups(x: Bytes)
    ensures |x| == 1 ==> x == [x[0]]
    ensures |x| == 2 ==> x == [x[0], x[1]]
    ensures |x| > 2 ==> x == [x[0], x[1], x[2]] + x[3..]
  {
  }

  /** Decoding undoes encoding. */
  lemma {:induction false} DecodeEncode(x: Bytes)
    ensures Decode(Encode(x)) == Some(x)
    decreases |x|
  {
    Groups(x);
    if |x| == 1 {
      DecodeOne(x[0]);
    } else if |x| == 2 {
      DecodeTwo(x[0], x[1]);
    } else if |x| > 2 {
      DecodeEncode(x[3..]);
      DecodeEncodeStep(x[0], x[1], x[2], x[3..]);
    }
  }

  /** Different byte strings have different encodings. */
  lemma EncodeInjective(x: Bytes, y: Bytes)
    requires Encode(x) == Encode(y)
    ensures x == y
  {
    DecodeEncode(x);
    DecodeEncode(y);
  }
}
