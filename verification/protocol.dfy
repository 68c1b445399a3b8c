/** pkg/protocol: the VT frame. A frame is a six-byte big-endian header
    (flag, payload length PLen, noise length NLen) followed by the encrypted
    payload and then NLen zero bytes that pad short messages up to
    `MIN_PLEN` bytes of body. */
module Protocol {
  import opened Common
  import Cipher

  const HDR_FLG_UNKNOW: u16 := 0x1b00
  const HDR_FLG_REQ: u16 := 0x1b01
  const HDR_FLG_ACK: u16 := 0x1b02
  const HDR_FLG_PSH: u16 := 0x1b04
  const HDR_FLG_DAT: u16 := 0x1b08
  const HDR_FLG_FIN: u16 := 0x1b10
  const HDR_FLG_IPS: u16 := 0x1b20
  const HDR_FLG_ROU: u16 := 0x1b40

  /** The largest datagram the receive loops read. */
  const MAX_FRG_SIZE: nat := 4096
  const HDR_LEN: nat := 6
  /** The smallest body (payload plus noise) a frame carries. */
  const MIN_PLEN: nat := 12

  const FragmentMsg := Lit("invalidate data fragment")

  /** The seven message flags of the protocol: `0x1b00` with one bit set. */
  predicate IsMessageFlag(f: u16) {
    f in {HDR_FLG_REQ, HDR_FLG_ACK, HDR_FLG_PSH, HDR_FLG_DAT, HDR_FLG_FIN, HDR_FLG_IPS, HDR_FLG_ROU}
  }

  /** Every message flag is the marker `0x1b` in the high byte and exactly one
      of bits 0..6 in the low byte. */
  lemma MessageFlagShape(f: u16)
    ensures IsMessageFlag(f) <==>
      f / 0x100 == 0x1b && exists k :: 0 <= k < 7 && f % 0x100 == Pow2(k)
  {
    assert Pow2(0) == 1 && Pow2(1) == 2 && Pow2(2) == 4 && Pow2(3) == 8;
    assert Pow2(4) == 16 && Pow2(5) == 32 && Pow2(6) == 64;
    if IsMessageFlag(f) {
      var k := if f == HDR_FLG_REQ then 0 else if f == HDR_FLG_ACK then 1
        else if f == HDR_FLG_PSH then 2 else if f == HDR_FLG_DAT then 3
        else if f == HDR_FLG_FIN then 4 else if f == HDR_FLG_IPS then 5 else 6;
      assert f % 0x100 == Pow2(k);
    }
  }

  /** A frame before encoding. */
  datatype VTPacket = VTPacket(flag: u16, pLen: u16, nLen: u16, payload: Bytes, noise: Bytes)

  /** The noise a cleartext of `n` bytes needs to reach `MIN_PLEN`. */
  function NoiseLen(n: nat): (r: nat)
    ensures r <= MIN_PLEN
    ensures n < MIN_PLEN ==> n + r == MIN_PLEN
    ensures n >= MIN_PLEN ==> r == 0
  {
    if n < MIN_PLEN then MIN_PLEN - n else 0
  }

  /** NewVTPkt: a non-empty payload is encrypted (an empty one is sent as
      is); PLen is the encrypted length truncated to 16 bits; noise is
      computed from the CLEARTEXT length and consists of zero bytes. `iv`
      is the random IV an AES cipher would draw. */
  function NewVTPkt(flag: u16, payload: Bytes, c: Cipher.Cipher, m: Cipher.CBC, iv: Bytes): (r: Result<VTPacket>)
    requires Cipher.Valid(m) && |iv| == Cipher.BlockSize
    ensures |payload| == 0 ==> r.Ok? && r.value.payload == []
    ensures r.Err? <==> |payload| > 0 && Cipher.Encrypt(c, m, iv, payload).Err?
    ensures r.Ok? ==>
      && r.value.flag == flag
      && r.value.pLen == |r.value.payload| % 0x1_0000
      && r.value.nLen == |r.value.noise| == NoiseLen(|payload|)
      && (forall i :: 0 <= i < |r.value.noise| ==> r.value.noise[i] == 0)
      && (|payload| > 0 ==> r.value.payload == Cipher.Encrypt(c, m, iv, payload).value)
  {
    var e := if |payload| == 0 then Ok(payload) else Cipher.Encrypt(c, m, iv, payload);
    match e
    case Err(msg) => Err(msg)
    case Ok(ePayload) =>
      var n := NoiseLen(|payload|);
      Ok(VTPacket(flag, |ePayload| % 0x1_0000, n, ePayload, seq(n, _ => 0)))
  }

  /** Encode: the three header fields big-endian, then payload, then noise. */
  function Encode(pkt: VTPacket): (r: Bytes)
    ensures |r| == HDR_LEN + |pkt.payload| + |pkt.noise|
    ensures Uint16BE(r[0], r[1]) == pkt.flag
    ensures Uint16BE(r[2], r[3]) == pkt.pLen
    ensures Uint16BE(r[4], r[5]) == pkt.nLen
    ensures r[HDR_LEN..HDR_LEN + |pkt.payload|] == pkt.payload
    ensures r[HDR_LEN + |pkt.payload|..] == pkt.noise
  {
    var r := PutUint16BE(pkt.flag) + PutUint16BE(pkt.pLen) + PutUint16BE(pkt.nLen) + pkt.payload + pkt.noise;
    assert r[HDR_LEN..HDR_LEN + |pkt.payload|] == pkt.payload;
    r
  }

  /** A decoded frame: its flag and its decrypted payload. */
  datatype Frame = Frame(flag: u16, payload: Bytes)

  /** Decode with the corrected cipher: a stream shorter than a header and
      `MIN_PLEN`, or whose length is not exactly header plus PLen plus NLen,
      is rejected; PLen 0 means no payload; otherwise the payload must
      decrypt. An error stands for Go's `(HDR_FLG_UNKNOW, [], err)`. */
  function Decode(stream: Bytes, c: Cipher.Cipher, m: Cipher.CBC): (r: Result<Frame>)
    requires Cipher.Valid(m)
    ensures |stream| < HDR_LEN + MIN_PLEN ==> r == Err(FragmentMsg)
    ensures r.Ok? ==>
      && |stream| >= HDR_LEN + MIN_PLEN
      && r.value.flag == Uint16BE(stream[0], stream[1])
      && |stream| == HDR_LEN + Uint16BE(stream[2], stream[3]) + Uint16BE(stream[4], stream[5])
    ensures r.Ok? && Uint16BE(stream[2], stream[3]) == 0 ==> r.value.payload == []
    ensures r.Ok? && Uint16BE(stream[2], stream[3]) > 0 ==>
      Cipher.Decrypt(c, m, stream[HDR_LEN..HDR_LEN + Uint16BE(stream[2], stream[3])]) == Ok(r.value.payload)
    // and conversely, a long enough stream is decided by its header and the cipher
    ensures |stream| >= HDR_LEN + MIN_PLEN ==>
      var flag, pLen, nLen := Uint16BE(stream[0], stream[1]), Uint16BE(stream[2], stream[3]), Uint16BE(stream[4], stream[5]);
      && (|stream| != HDR_LEN + pLen + nLen ==> r == Err(FragmentMsg))
      && (|stream| == HDR_LEN + pLen + nLen && pLen == 0 ==> r == Ok(Frame(flag, [])))
      && (|stream| == HDR_LEN + pLen + nLen && pLen > 0 ==>
            var d := Cipher.Decrypt(c, m, stream[HDR_LEN..HDR_LEN + pLen]);
            && (d.Ok? ==> r == Ok(Frame(flag, d.value)))
            && (d.Err? ==> r == Err(Lit("decrypt data ") + d.msg)))
  {
    if |stream| < HDR_LEN + MIN_PLEN then Err(FragmentMsg)
    else
      var flag, pLen, nLen := Uint16BE(stream[0], stream[1]), Uint16BE(stream[2], stream[3]), Uint16BE(stream[4], stream[5]);
      if |stream| != HDR_LEN + pLen + nLen then Err(FragmentMsg)
      else if pLen == 0 then Ok(Frame(flag, []))
      else
        match Cipher.Decrypt(c, m, stream[HDR_LEN..HDR_LEN + pLen])
        case Err(msg) => Err(Lit("decrypt data ") + msg)
        case Ok(payload) => Ok(Frame(flag, payload))
  }

  /** A frame built and encoded by the sender decodes to the same flag and
      cleartext, provided the encrypted payload fits the 16-bit PLen. */
  lemma DecodeEncode(flag: u16, x: Bytes, c: Cipher.Cipher, m: Cipher.CBC, iv: Bytes)
    requires Cipher.Valid(m) && |iv| == Cipher.BlockSize
    requires NewVTPkt(flag, x, c, m, iv).Ok?
    requires |NewVTPkt(flag, x, c, m, iv).value.payload| < 0x1_0000
    ensures Decode(Encode(NewVTPkt(flag, x, c, m, iv).value), c, m) == Ok(Frame(flag, x))
  {
    var pkt := NewVTPkt(flag, x, c, m, iv).value;
    var s := Encode(pkt);
    EncodedFrameMinLength(flag, x, c, m, iv);
    assert pkt.pLen == |pkt.payload| by { SmallMod(|pkt.payload|, 0x1_0000); }
    assert Uint16BE(s[2], s[3]) == |pkt.payload|;
    assert |s| == HDR_LEN + Uint16BE(s[2], s[3]) + Uint16BE(s[4], s[5]);
    if |x| == 0 {
      assert pkt.payload == [];
    } else {
      Cipher.DecryptEncrypt(c, m, iv, x);
      Cipher.EncryptLength(c, m, iv, x);
      assert s[HDR_LEN..HDR_LEN + |pkt.payload|] == pkt.payload;
      assert Cipher.Decrypt(c, m, pkt.payload) == Ok(x);
    }
  }

  lemma SmallMod(n: nat, k: nat)
    requires n < k
    ensures n % k == n
  {
  }

  /** Every built frame is at least `HDR_LEN + MIN_PLEN` bytes long. */
  lemma EncodedFrameMinLength(flag: u16, x: Bytes, c: Cipher.Cipher, m: Cipher.CBC, iv: Bytes)
    requires Cipher.Valid(m) && |iv| == Cipher.BlockSize
    requires NewVTPkt(flag, x, c, m, iv).Ok?
    ensures |Encode(NewVTPkt(flag, x, c, m, iv).value)| >= HDR_LEN + MIN_PLEN
  {
    if |x| > 0 {
      Cipher.EncryptLength(c, m, iv, x);
    }
  }

  /** A payload whose encryption reaches 64 KiB gets a truncated PLen, and
      the receiver rejects the frame. */
  lemma OversizedPayloadRejected(flag: u16, x: Bytes, c: Cipher.Cipher, m: Cipher.CBC, iv: Bytes)
    requires Cipher.Valid(m) && |iv| == Cipher.BlockSize
    requires NewVTPkt(flag, x, c, m, iv).Ok?
    requires |NewVTPkt(flag, x, c, m, iv).value.payload| >= 0x1_0000
    ensures Decode(Encode(NewVTPkt(flag, x, c, m, iv).value), c, m) == Err(FragmentMsg)
  {
  }

  /** What Go's Decode as written can do with the as-written AES decryption. */
  datatype Decoded = Decoded(frame: Frame) | Rejected(msg: Bytes) | Crash

  /** Decode exactly as written at proto.go:91-118, calling the as-written
      `Decrypt`, whose one-block input panics. */
  function DecodeAsWritten(stream: Bytes, c: Cipher.Cipher, m: Cipher.CBC): (r: Decoded)
    requires Cipher.Valid(m)
  {
    if |stream| < HDR_LEN + MIN_PLEN then Rejected(FragmentMsg)
    else
      var flag, pLen, nLen := Uint16BE(stream[0], stream[1]), Uint16BE(stream[2], stream[3]), Uint16BE(stream[4], stream[5]);
      if |stream| != HDR_LEN + pLen + nLen then Rejected(FragmentMsg)
      else if pLen == 0 then Decoded(Frame(flag, []))
      else
        match Cipher.DecryptAsWritten(c, m, stream[HDR_LEN..HDR_LEN + pLen])
        case Failed(msg) => Rejected(Lit("decrypt data ") + msg)
        case Plain(payload) => Decoded(Frame(flag, payload))
        case Panics => Crash
  }

  /** The header fields of the one-block frame `1b 08 00 10 00 00` + block. */
  lemma OneBlockFrameFields(block: Bytes)
    requires |block| == Cipher.BlockSize
    ensures var s: Bytes := [0x1b, 0x08, 0x00, 0x10, 0x00, 0x00] + block;
      && |s| == HDR_LEN + 16
      && Uint16BE(s[2], s[3]) == 16
      && Uint16BE(s[4], s[5]) == 0
      && s[HDR_LEN..HDR_LEN + 16] == block
  {
    var s: Bytes := [0x1b, 0x08, 0x00, 0x10, 0x00, 0x00] + block;
    assert s[2] == 0 && s[3] == 0x10 && s[4] == 0 && s[5] == 0;
    assert s[HDR_LEN..HDR_LEN + 16] == block;
  }

  /** Any frame whose whole body is one 16-byte block (PLen 16, NLen 0)
      passes every length check and crashes an AES peer. */
  lemma OneBlockFramesCrash(key: Bytes, m: Cipher.CBC, s: Bytes)
    requires Cipher.Valid(m) && |key| == 16
    requires |s| == HDR_LEN + 16 && Uint16BE(s[2], s[3]) == 16 && Uint16BE(s[4], s[5]) == 0
    ensures DecodeAsWritten(s, Cipher.AES(key), m) == Crash
    ensures Decode(s, Cipher.AES(key), m).Err?
  {
    var d := s[HDR_LEN..HDR_LEN + 16];
    Cipher.OneBlockPanics(key, m, d);
    assert Cipher.Decrypt(Cipher.AES(key), m, d).Err?;
  }

  /** The 22-byte frame `1b 08 00 10 00 00` followed by 16 arbitrary bytes
      is one of them. */
  lemma OneBlockFrameCrashes(key: Bytes, m: Cipher.CBC, block: Bytes)
    requires Cipher.Valid(m) && |key| == 16 && |block| == Cipher.BlockSize
    ensures DecodeAsWritten([0x1b, 0x08, 0x00, 0x10, 0x00, 0x00] + block, Cipher.AES(key), m) == Crash
    ensures Decode([0x1b, 0x08, 0x00, 0x10, 0x00, 0x00] + block, Cipher.AES(key), m).Err?
  {
    OneBlockFrameFields(block);
    OneBlockFramesCrash(key, m, [0x1b, 0x08, 0x00, 0x10, 0x00, 0x00] + block);
  }

  /** The as-written Decode crashes exactly when the corrected one rejects a
      one-block AES payload, and otherwise the two agree. */
  lemma DecodeAgreesWithAsWritten(stream: Bytes, c: Cipher.Cipher, m: Cipher.CBC)
    requires Cipher.Valid(m)
    ensures DecodeAsWritten(stream, c, m).Crash? ==>
      c.AES? && |stream| >= HDR_LEN + MIN_PLEN && Uint16BE(stream[2], stream[3]) == Cipher.BlockSize
    ensures DecodeAsWritten(stream, c, m).Decoded? ==>
      Decode(stream, c, m) == Ok(DecodeAsWritten(stream, c, m).frame)
    ensures DecodeAsWritten(stream, c, m).Rejected? ==> Decode(stream, c, m).Err?
  {
    if |stream| >= HDR_LEN + MIN_PLEN {
      var pLen, nLen := Uint16BE(stream[2], stream[3]), Uint16BE(stream[4], stream[5]);
      if |stream| == HDR_LEN + pLen + nLen && pLen > 0 {
        Cipher.DecryptAgreesWithAsWritten(c, m, stream[HDR_LEN..HDR_LEN + pLen]);
      }
    }
  }

  /** A control frame without payload (PSH, FIN) encodes to 18 bytes: the
      header and twelve zero bytes of noise. */
  lemma EmptyFrameShape(flag: u16, c: Cipher.Cipher, m: Cipher.CBC, iv: Bytes)
    requires Cipher.Valid(m) && |iv| == Cipher.BlockSize
    ensures NewVTPkt(flag, [], c, m, iv).Ok?
    ensures Encode(NewVTPkt(flag, [], c, m, iv).value) == PutUint16BE(flag) + [0, 0, 0, 12] + seq(12, _ => 0)
  {
    var zeros: Bytes := seq(12, _ => 0);
    assert NewVTPkt(flag, [], c, m, iv).value == VTPacket(flag, 0, 12, [], zeros);
    ControlEncoding(flag, zeros);
  }

  /** The wire form of a frame without payload and with twelve noise bytes. */
  lemma ControlEncoding(flag: u16, noise: Bytes)
    requires |noise| == 12
    ensures Encode(VTPacket(flag, 0, 12, [], noise)) == PutUint16BE(flag) + [0, 0, 0, 12] + noise
  {
    ControlLengths();
    ControlHeader(PutUint16BE(flag), noise);
  }

  /** PLen 0 and NLen 12, big-endian. */
  lemma ControlLengths()
    ensures PutUint16BE(0) == [0, 0] && PutUint16BE(12) == [0, 12]
  {
  }

  lemma ControlHeader(h: Bytes, noise: Bytes)
    ensures h + [0, 0] + [0, 12] + [] + noise == h + [0, 0, 0, 12] + noise
  {
    assert h + [0, 0] + [0, 12] + [] == h + [0, 0, 0, 12];
  }
}
