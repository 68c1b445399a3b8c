/** pkg/client/pkt.go: the messages a client sends to the server. Each
    builder picks a flag and a cleartext payload; `Datagram` is what
    `NewVTPkt` followed by `Encode` makes of it on the wire. The UDP write
    is not part of this model. */
module Client {
  import opened Common
  import Strings
  import Utils
  import Cipher
  import Protocol
  import Net

  /** The parts of a client's configuration the messages use. */
  datatype Client = Client(user: Bytes, passwd: Bytes, allowedIPs: seq<Bytes>)

  /** A message before framing: its flag and its cleartext payload. */
  datatype Message = Message(flag: u16, payload: Bytes)

  /** The byte `/` that separates user and password in a REQ payload. */
  const Slash: byte := 47

  /** SendReq: the login request, `<user>/<passwd>`. */
  function SendReq(c: Client): (r: Message)
    ensures r.flag == Protocol.HDR_FLG_REQ
    ensures |r.payload| == |c.user| + 1 + |c.passwd|
    ensures r.payload[..|c.user|] == c.user && r.payload[|c.user|] == Slash
    ensures r.payload[|c.user| + 1..] == c.passwd
  {
    var p := c.user + [Slash] + c.passwd;
    assert p[..|c.user|] == c.user && p[|c.user| + 1..] == c.passwd;
    Message(Protocol.HDR_FLG_REQ, p)
  }

  /** SendPsh: the keepalive, without payload. */
  function SendPsh(c: Client): (r: Message)
    ensures r.flag == Protocol.HDR_FLG_PSH && |r.payload| == 0
  {
    Message(Protocol.HDR_FLG_PSH, [])
  }

  /** SendFin: the goodbye, without payload. */
  function SendFin(c: Client): (r: Message)
    ensures r.flag == Protocol.HDR_FLG_FIN && |r.payload| == 0
  {
    Message(Protocol.HDR_FLG_FIN, [])
  }

  /** SendDat: a packet read from the tunnel device, carried unchanged. */
  function SendDat(c: Client, packet: Bytes): (r: Message)
    ensures r.flag == Protocol.HDR_FLG_DAT && r.payload == packet
  {
    Message(Protocol.HDR_FLG_DAT, packet)
  }

  /** SendIps: nothing when no networks are configured; otherwise their
      comma-joined list. */
  function SendIps(c: Client): (r: Option<Message>)
    ensures r.None? <==> |c.allowedIPs| == 0
    ensures r.Some? ==> r.value.flag == Protocol.HDR_FLG_IPS
    ensures |c.allowedIPs| == 1 ==> r == Some(Message(Protocol.HDR_FLG_IPS, c.allowedIPs[0]))
  {
    if |c.allowedIPs| == 0 then None
    else Some(Message(Protocol.HDR_FLG_IPS, Strings.Join(c.allowedIPs, Utils.Comma)))
  }

  /** The datagram a message becomes: framed by NewVTPkt, then encoded. A
      datagram short enough for the 16-bit payload length decodes back to
      the message. */
  function Datagram(msg: Message, c: Cipher.Cipher, m: Cipher.CBC, iv: Bytes): (r: Result<Bytes>)
    requires Cipher.Valid(m) && |iv| == Cipher.BlockSize
    ensures r.Err? <==> Protocol.NewVTPkt(msg.flag, msg.payload, c, m, iv).Err?
    ensures r.Ok? ==> |r.value| >= Protocol.HDR_LEN + Protocol.MIN_PLEN
    ensures r.Ok? && |r.value| < Protocol.HDR_LEN + 0x1_0000 ==>
      Protocol.Decode(r.value, c, m) == Ok(Protocol.Frame(msg.flag, msg.payload))
  {
    match Protocol.NewVTPkt(msg.flag, msg.payload, c, m, iv)
    case Err(e) => Err(e)
    case Ok(pkt) =>
      Protocol.EncodedFrameMinLength(msg.flag, msg.payload, c, m, iv);
      if |pkt.payload| < 0x1_0000 then
        Protocol.DecodeEncode(msg.flag, msg.payload, c, m, iv);
        Ok(Protocol.Encode(pkt))
      else
        Ok(Protocol.Encode(pkt))
  }

  /** The server splits a REQ payload back into exactly the user and the
      password, when neither holds a `/`. */
  lemma ReqSplitsBack(c: Client)
    requires Slash !in c.user && Slash !in c.passwd
    ensures Strings.Split(SendReq(c).payload, Slash) == [c.user, c.passwd]
  {
    assert SendReq(c).payload == c.user + [Slash] + c.passwd;
    Strings.SplitPair(c.user, c.passwd, Slash);
  }

  /** PSH and FIN go out as 18-byte frames: the header with PLen 0 and NLen
      12, then twelve zero bytes. */
  lemma ControlFrames(c: Client, k: Cipher.Cipher, m: Cipher.CBC, iv: Bytes)
    requires Cipher.Valid(m) && |iv| == Cipher.BlockSize
    ensures Datagram(SendPsh(c), k, m, iv) == Ok(PutUint16BE(Protocol.HDR_FLG_PSH) + [0, 0, 0, 12] + seq(12, _ => 0))
    ensures Datagram(SendFin(c), k, m, iv) == Ok(PutUint16BE(Protocol.HDR_FLG_FIN) + [0, 0, 0, 12] + seq(12, _ => 0))
  {
    Protocol.EmptyFrameShape(Protocol.HDR_FLG_PSH, k, m, iv);
    Protocol.EmptyFrameShape(Protocol.HDR_FLG_FIN, k, m, iv);
  }

  /** The IPS payload parses back, at the server, into one network per
      configured entry, in order, when no entry holds a comma. */
  lemma IpsParsesBack(c: Client, nets: seq<Net.IPNet>, parseCIDR: Utils.CIDRParser)
    requires |c.allowedIPs| >= 1 && |nets| == |c.allowedIPs|
    requires forall i :: 0 <= i < |c.allowedIPs| ==> Utils.Comma !in c.allowedIPs[i]
    requires forall i :: 0 <= i < |c.allowedIPs| ==> parseCIDR(c.allowedIPs[i]) == Some(nets[i])
    ensures SendIps(c).Some?
    ensures Utils.ParseAllowedIPs(SendIps(c).value.payload, parseCIDR) == Some(nets)
  {
    Utils.ParseJoinedAllowedIPs(c.allowedIPs, nets, parseCIDR);
  }
}
