/** pkg/cipher: the symmetric envelope around every non-empty payload.
    `NonCipher` passes bytes through; `AESCipher` pads with PKCS #7
    (section 6.3 of RFC 5652), encrypts with AES in CBC mode under a fresh
    random IV and sends `IV || ciphertext`.

    The AES block cipher in CBC mode (section 6.2 of NIST SP 800-38A) is not
    part of this model. It enters as a `CBC` value whose two transforms are
    only assumed to be length-preserving on whole blocks and to undo each
    other for each (key, IV) — which makes each transform a bijection on every
    length. The random IV is a 16-byte input. */
module Cipher {
  import opened Common
  import Utils

  /** `aes.BlockSize`. */
  const BlockSize: nat := 16

  /** CBC encryption and decryption of whole blocks for a (key, IV) pair. */
  datatype CBC = CBC(encrypt: (Bytes, Bytes, Bytes) -> Bytes, decrypt: (Bytes, Bytes, Bytes) -> Bytes)

  /** What the model assumes of the block mode. */
  ghost predicate Valid(m: CBC) {
    && (forall key, iv, x :: |x| % BlockSize == 0 ==> |m.encrypt(key, iv, x)| == |x|)
    && (forall key, iv, y :: |y| % BlockSize == 0 ==> |m.decrypt(key, iv, y)| == |y|)
    && (forall key, iv, x :: |x| % BlockSize == 0 ==> m.decrypt(key, iv, m.encrypt(key, iv, x)) == x)
  }

  /** The two implementations of the `Cipher` interface. */
  datatype Cipher = NonCipher | AES(key: Bytes)

  const InvalidKeyMsg := Lit("invalid key size, 16, 24 or 32")
  const InvalidDataMsg := Lit("invalid cipher data size")

  /** The text of the error `aes.NewCipher` reports for a bad key. */
  function KeySizeError(key: Bytes): Bytes {
    Lit("crypto/aes: invalid key size ") + Decimal(|key|)
  }

  /** An AES cipher can only be built from a 16-, 24- or 32-byte key. */
  function NewAESCipher(key: Bytes): (r: Result<Cipher>)
    ensures r.Ok? <==> |key| in {16, 24, 32}
    ensures r.Ok? ==> r.value == AES(key)
    ensures r.Err? ==> r.msg == InvalidKeyMsg
  {
    if !Utils.ValidateKey(key) then Err(InvalidKeyMsg) else Ok(AES(key))
  }

  /** PKCS #7 padding to the block size: `p = 16 - len % 16` bytes of value `p`,
      so a block-aligned input gains a whole block. */
  function PKCS7Padding(data: Bytes): (r: Bytes)
    ensures |r| % BlockSize == 0
    ensures |data| < |r| <= |data| + BlockSize
    ensures r[..|data|] == data
    ensures forall i :: |data| <= i < |r| ==> r[i] == |r| - |data|
  {
    var p := BlockSize - |data| % BlockSize;
    data + seq(p, _ => p)
  }

  /** The lenient unpadding: the last byte says how many bytes to drop; a
      count larger than the input gives the empty result, and the dropped
      bytes themselves are never checked. Reading the last byte of an empty
      slice panics in Go, hence the precondition. */
  function PKCS7Unpadding(data: Bytes): (r: Bytes)
    requires |data| > 0
    ensures data[|data| - 1] > |data| ==> r == []
    ensures data[|data| - 1] <= |data| ==> r == data[..|data| - data[|data| - 1]]
  {
    var n := data[|data| - 1];
    if |data| < n then [] else data[..|data| - n]
  }

  /** Unpadding undoes padding. */
  lemma UnpadPad(x: Bytes)
    ensures PKCS7Unpadding(PKCS7Padding(x)) == x
  {
    var r := PKCS7Padding(x);
    assert r[|r| - 1] == |r| - |x|;
  }

  /** Unpadding accepts bytes that are not PKCS #7 padding: a final zero byte
      drops nothing, and only the last byte is ever read. */
  lemma UnpaddingIsLenient(body: Bytes, junk: byte)
    ensures PKCS7Unpadding(body + [0]) == body + [0]
    ensures PKCS7Unpadding(body + [junk, 2]) == body
  {
    assert (body + [junk, 2])[..|body|] == body;
  }

  /** `Encrypt` of either cipher. AES output is the IV followed by the CBC
      encryption of the padded data; NonCipher returns its input. */
  function Encrypt(c: Cipher, m: CBC, iv: Bytes, data: Bytes): (r: Result<Bytes>)
    requires Valid(m) && |iv| == BlockSize
    ensures c.NonCipher? ==> r == Ok(data)
    ensures c.AES? ==> (r.Ok? <==> Utils.ValidateKey(c.key))
    ensures c.AES? && r.Ok? ==>
      && |r.value| == BlockSize + |PKCS7Padding(data)|
      && |r.value| % BlockSize == 0
      && |r.value| >= 2 * BlockSize
      && r.value[..BlockSize] == iv
  {
    match c
    case NonCipher => Ok(data)
    case AES(key) =>
      if !Utils.ValidateKey(key) then Err(KeySizeError(key))
      else
        var padded := PKCS7Padding(data);
        Ok(iv + m.encrypt(key, iv, padded))
  }

  /** `Decrypt` of either cipher, with the length guard corrected: AES input
      must hold the IV and at least one more whole block. */
  function Decrypt(c: Cipher, m: CBC, data: Bytes): (r: Result<Bytes>)
    requires Valid(m)
    ensures c.NonCipher? ==> r == Ok(data)
    ensures c.AES? && (|data| <= BlockSize || |data| % BlockSize != 0) ==> r == Err(InvalidDataMsg)
    ensures c.AES? && r.Ok? ==> Utils.ValidateKey(c.key) && |r.value| <= |data| - BlockSize
    // a well-sized input fails only on a bad key, and otherwise is the
    // unpadded CBC decryption of what follows the IV, whatever the key was
    ensures c.AES? && |data| > BlockSize && |data| % BlockSize == 0 ==>
      && (r.Ok? <==> Utils.ValidateKey(c.key))
      && (!Utils.ValidateKey(c.key) ==> r == Err(KeySizeError(c.key)))
      && (Utils.ValidateKey(c.key) ==>
            var body := data[BlockSize..];
            assert |body| % BlockSize == 0 && |body| > 0;
            r == Ok(PKCS7Unpadding(m.decrypt(c.key, data[..BlockSize], body))))
  {
    match c
    case NonCipher => Ok(data)
    case AES(key) =>
      if |data| <= BlockSize || |data| % BlockSize != 0 then Err(InvalidDataMsg)
      else if !Utils.ValidateKey(key) then Err(KeySizeError(key))
      else
        var body := data[BlockSize..];
        assert |body| % BlockSize == 0;
        var plain := m.decrypt(key, data[..BlockSize], body);
        Ok(PKCS7Unpadding(plain))
  }

  /** What AES `Decrypt` as written can do: return bytes, return an error,
      or panic at run time. */
  datatype Decrypted = Plain(data: Bytes) | Failed(msg: Bytes) | Panics

  /** `Decrypt` exactly as written at aes.go:73-94: the guard lets a single
      block through, leaving an empty body whose last byte unpadding reads. */
  function DecryptAsWritten(c: Cipher, m: CBC, data: Bytes): (r: Decrypted)
    requires Valid(m)
  {
    match c
    case NonCipher => Plain(data)
    case AES(key) =>
      if |data| < BlockSize || |data| % BlockSize != 0 then Failed(InvalidDataMsg)
      else if !Utils.ValidateKey(key) then Failed(KeySizeError(key))
      else
        var plain := m.decrypt(key, data[..BlockSize], data[BlockSize..]);
        if |plain| == 0 then Panics else Plain(PKCS7Unpadding(plain))
  }

  /** The hazard: a 16-byte input (an IV and no ciphertext) makes AES
      decryption with a valid key panic. */
  lemma OneBlockPanics(key: Bytes, m: CBC, data: Bytes)
    requires Valid(m) && Utils.ValidateKey(key) && |data| == BlockSize
    ensures DecryptAsWritten(AES(key), m, data) == Panics
  {
    assert |data[BlockSize..]| == 0;
  }

  /** Apart from the one-block input, the corrected `Decrypt` behaves exactly
      as written: the as-written version panics on that input alone (or,
      with a bad key, reports the key error rather than the size error). */
  lemma DecryptAgreesWithAsWritten(c: Cipher, m: CBC, data: Bytes)
    requires Valid(m)
    ensures DecryptAsWritten(c, m, data) == Panics <==>
      c.AES? && Utils.ValidateKey(c.key) && |data| == BlockSize
    ensures DecryptAsWritten(c, m, data).Plain? ==>
      Decrypt(c, m, data) == Ok(DecryptAsWritten(c, m, data).data)
    ensures DecryptAsWritten(c, m, data).Failed? && |data| != BlockSize ==>
      Decrypt(c, m, data) == Err(DecryptAsWritten(c, m, data).msg)
  {
    if c.AES? && |data| >= BlockSize && |data| % BlockSize == 0 && Utils.ValidateKey(c.key) {
      var body := data[BlockSize..];
      assert |body| % BlockSize == 0;
      assert |m.decrypt(c.key, data[..BlockSize], body)| == |body|;
    }
  }

  /** Decryption recovers what encryption produced, for both ciphers. */
  lemma DecryptEncrypt(c: Cipher, m: CBC, iv: Bytes, x: Bytes)
    requires Valid(m) && |iv| == BlockSize
    requires Encrypt(c, m, iv, x).Ok?
    ensures Decrypt(c, m, Encrypt(c, m, iv, x).value) == Ok(x)
  {
    if c.AES? {
      var padded := PKCS7Padding(x);
      var e := Encrypt(c, m, iv, x).value;
      assert e[..BlockSize] == iv && e[BlockSize..] == m.encrypt(c.key, iv, padded);
      UnpadPad(x);
    }
  }

  /** Ciphertext is never shorter than the plaintext. */
  lemma EncryptLength(c: Cipher, m: CBC, iv: Bytes, x: Bytes)
    requires Valid(m) && |iv| == BlockSize
    requires Encrypt(c, m, iv, x).Ok?
    ensures |Encrypt(c, m, iv, x).value| >= |x|
    ensures |x| > 0 ==> |Encrypt(c, m, iv, x).value| > 0
  {
  }
}
