# vtun core in Dafny

vtun is a small UDP VPN. Clients log in with a user name and password. The
server leases each client a tunnel address from a pool and registers the
client as an endpoint. It then relays IP packets between its tunnel device
and the clients, wrapped in a framed, optionally AES-encrypted message.

This project models the deterministic core of vtun as pure functions over
immutable state:

- the wire codec: three big-endian 16-bit header fields, then payload, then zero noise;
- the cipher envelope: PKCS #7 padding, AES-CBC as an abstract bijection, and the identity `NonCipher`;
- the address pool and its DHCP-style range parser;
- the endpoint registry, kept as two maps;
- the route table of announced networks;
- the user database and the logged-in set;
- the client's message builders;
- the server's composition: the login handshake, route announcements, closing an endpoint, teardown, the flag dispatch of the receive loop, and forwarding from the tunnel device.

The server's sends come back as a list of events. Each event holds a flag,
a cleartext payload and a remote address.

Modules follow the Go packages. `Common`, `Strings`, `Base64` and `Net` hold
the value types and library functions the core relies on. `Cipher` covers
aes.go and cipher.go. `Protocol` covers proto.go. `Utils` covers validate.go
and info.go. `Pool` covers ipmgr.go and `Registry` covers endpoint.go. `Dst`
covers dst.go and `Auth` covers base.go. `Client` covers the client's
pkt.go. `Server` covers server.go, handle.go and the server's pkt.go.

Go pointers identify endpoints and announced networks. In the model each of
them carries a `ref` number, and the server hands out refs from a counter
(`nextRef`). The behaviour outside this model enters as parameters:

- the AES-CBC block transform;
- the random IV;
- the `utils.IdxFromString` user-name hash;
- `net.ParseIP`, `net.ParseCIDR` and `netlink.ParseAddr`;
- the IPv4 destination of a packet read from the tunnel device.

Where the Go code behaves in a way a reader might not expect, the model
does what the code does:

- `HandlePsh`, `HandleDat` and `HandleFin` are empty in handle.go. A client's FIN therefore does not close its endpoint (`Server.ClientFinIgnored`), and PSH and DAT from clients have no effect. Closing an endpoint on heartbeat timeout lives in heartbeat.go, which is left out.
- `GetEPByIP` is called at dst.go:22 and server.go:182, but endpoint.go does not define it. It is modelled as the lookup through both maps.

## Model

| member | source | states |
|---|---|---|
| Protocol.MessageFlagShape | pkg/protocol/proto.go:12-20 | a flag is one of the seven named message flags exactly when it is 0x1b in the high byte with exactly one of the low seven bits set |
| Protocol.NoiseLen | pkg/protocol/proto.go:61-65 | a cleartext shorter than MIN_PLEN = 12 bytes gets exactly enough noise to make 12; there is none once the cleartext reaches 12 |
| Protocol.NewVTPkt | pkg/protocol/proto.go:40-68 | an empty payload is sent unencrypted; a non-empty one is replaced by the cipher output; PLen is that length mod 2^16; the noise is NoiseLen of the cleartext length and is all zero bytes; it fails exactly when encryption fails |
| Protocol.Encode | pkg/protocol/proto.go:70-89 | the output is 6 + payload + noise bytes: Flag, PLen and NLen big-endian, then the payload, then the noise |
| Protocol.Decode | pkg/protocol/proto.go:91-118 | input shorter than 18 bytes, or whose length is not exactly 6 + PLen + NLen, fails with the fragment error; a correctly sized frame with PLen 0 decodes to its flag and no payload; otherwise it decodes to its flag and the decryption of the PLen bytes after the header, or fails with "decrypt data " and the cipher's error |
| Protocol.DecodeEncode | pkg/protocol/proto_test.go:10-68 | round trip: decoding an encoded packet gives back its flag and cleartext for either cipher, when the encrypted payload is under 65536 bytes |
| Protocol.EncodedFrameMinLength | pkg/protocol/proto.go:61-88 | every built frame is at least 18 bytes, so it passes Decode's minimum-length check |
| Protocol.OversizedPayloadRejected | pkg/protocol/proto.go:55-56 | an encrypted payload of 65536 bytes or more gets a truncated PLen, and its frame is rejected |
| Protocol.EmptyFrameShape | pkg/protocol/proto.go:44-65 | a frame without payload is exactly the flag, PLen 0, NLen 12 and twelve zero bytes |
| Protocol.ControlEncoding | pkg/protocol/proto.go:70-88 | a frame with PLen 0, NLen 12 and twelve noise bytes goes on the wire as the flag, the bytes 0 0 0 12, then the noise |
| Protocol.OneBlockFrameCrashes | pkg/protocol/proto.go:105-117 | a 22-byte AES frame with PLen 16 and NLen 0 makes Decode as written panic inside Decrypt |
| Protocol.DecodeAgreesWithAsWritten | pkg/protocol/proto.go:91-118 | the corrected Decode agrees with the code as written on every frame that does not make it panic |
| Cipher.NewAESCipher | pkg/cipher/aes.go:19-24 | succeeds exactly for 16-, 24- and 32-byte keys, the lengths ValidateKey accepts, and otherwise reports the key-size error |
| Cipher.PKCS7Padding | pkg/cipher/aes.go:32-36 | keeps the data and appends p = 16 - len%16 bytes, each of value p, so 1 <= p <= 16 and the length is a multiple of 16 |
| Cipher.PKCS7Unpadding | pkg/cipher/aes.go:38-48 | when the last byte exceeds the length the result is empty; otherwise that many bytes are dropped unchecked |
| Cipher.UnpadPad | pkg/cipher/aes.go:32-48 | unpadding undoes padding for every input |
| Cipher.UnpaddingIsLenient | pkg/cipher/aes.go:40-47 | a final zero byte drops nothing, and the dropped bytes are never checked |
| Cipher.Encrypt | pkg/cipher/aes.go:50-71 | NonCipher returns its input; AES fails only on a bad key, and otherwise returns the IV followed by ciphertext, 16 + padded length bytes, a multiple of 16 and at least 32 |
| Cipher.Decrypt | pkg/cipher/aes.go:73-94 | NonCipher returns its input; AES input of at most one block, or not whole blocks, is a size error (the guard is corrected, see Findings); a well-sized input under a bad key fails with the key-size error, and under a valid key always succeeds with the unpadded CBC decryption of what follows the IV, even when the key is the wrong one |
| Cipher.DecryptEncrypt | pkg/cipher/aes.go:50-94 | decryption recovers the plaintext of every successful encryption, for both ciphers |
| Cipher.EncryptLength | pkg/cipher/cipher.go:10-16 | ciphertext is never shorter than the plaintext, and NonCipher preserves it exactly |
| Cipher.OneBlockPanics | pkg/cipher/aes.go:73-94 | a 16-byte input under a valid key passes the guard as written and reaches unpadding with an empty slice |
| Cipher.DecryptAgreesWithAsWritten | pkg/cipher/aes.go:73-94 | the code as written panics exactly on one-block input under a valid key, and otherwise gives the corrected result |
| Utils.ValidateDHCPRange | pkg/utils/validate.go:18-39 | a range that does not split on "-" into two IPv4 addresses with start <= end gives (nil, 0); otherwise the start and the end-exclusive count end - start |
| Utils.DHCPRangeOfTexts | pkg/utils/validate.go:18-39 | `s-e` written with dash-free texts and s <= e yields exactly (s, e - s) |
| Utils.ParseAllowedIPs | pkg/utils/info.go:8-22 | each comma-separated piece goes to the CIDR parser verbatim; one failure fails the whole call; success returns one network per piece, in order |
| Utils.ParseJoinedAllowedIPs | pkg/utils/info.go:8-22 | a comma-joined list of comma-free entries parses back to one network per entry, in order |
| Pool.NewIPMgr | pkg/endpoint/ipmgr.go:23-47 | fails exactly when the range yields zero addresses, including start == end; otherwise an empty, valid pool from the range start |
| Pool.NewIPMgrOfTexts | pkg/endpoint/ipmgr.go:38-47 | a range `s-e` is accepted exactly when s < e and then covers e - s addresses |
| Pool.IPIdxInPool | pkg/endpoint/ipmgr.go:49-57 | the scan answers true exactly when the index is in UsedIP |
| Pool.IPFromIdx | pkg/endpoint/ipmgr.go:68-77 | the address is start + idx when that fits 32 bits; for every idx, negative or too large included, IdxFromIP maps the address back to idx mod 2^32, so the sum wraps modulo 2^32 |
| Pool.IdxFromIP | pkg/endpoint/ipmgr.go:79-84 | the index is ip - start in uint32 arithmetic, never negative |
| Pool.IdxFromIPFromIdx | pkg/endpoint/ipmgr.go:68-84 | IdxFromIP(IPFromIdx(i)) == i for every index a uint32 holds |
| Pool.IPFromIdxFromIP | pkg/endpoint/ipmgr.go:68-84 | IPFromIdx(IdxFromIP(ip)) == ip for every address |
| Pool.LeasedIPInPool | pkg/endpoint/ipmgr.go:59-66 | the address of a leased index is reported as in the pool |
| Pool.IPToIPAddr | pkg/endpoint/ipmgr.go:86-88 | formatting succeeds exactly for a mask length in 0..32, keeping the address and the mask length |
| Pool.Scan | pkg/endpoint/ipmgr.go:94-124 | the probe loop only ever leases an index that is not in use and lies below IPCount |
| Pool.IPForUser | pkg/endpoint/ipmgr.go:90-125 | either UsedIP is unchanged and the result is "run out of ip", or exactly one new, unused, in-range index is appended; whenever an index is taken the lease is that index's address (IPFromIdx) with MaskLen, so with a mask length in [0, 32] the lease succeeds exactly when an index is taken, and a longer mask consumes the index yet reports the invalid CIDR |
| Pool.IPForUserIsFirstFree | pkg/endpoint/ipmgr.go:91-124 | the leased index is the first free one in wrap-around probe order from the start; the pool runs out exactly when no index is free |
| Pool.RunOutMeansFull | pkg/endpoint/ipmgr.go:110-124 | "run out of ip" from an in-range start means every index of the pool is leased |
| Pool.OutOfRangeStart | pkg/endpoint/ipmgr.go:91-94 | a start at or beyond IPCount leases nothing; a negative start is leased as is |
| Pool.IPForUserValid | pkg/endpoint/ipmgr.go:94-121 | leasing from an in-range start keeps UsedIP duplicate-free and inside [0, IPCount) |
| Pool.ScanFindsFirstFree | pkg/endpoint/ipmgr.go:94-116 | the corrected loop from probe offset k finds the first free offset within count - k iterations |
| Pool.AsWrittenHangs | pkg/endpoint/ipmgr.go:92-116 | with start index 0 and a full pool the loop as written never ends: it is still running after any number of iterations |
| Pool.AsWrittenAgrees | pkg/endpoint/ipmgr.go:90-125 | the loop as written gives the corrected result for every in-range start except 0 on a full pool |
| Pool.ScanFromZeroAsWritten | pkg/endpoint/ipmgr.go:92-116 | from start 0 the as-written stop index -1 is never reached, yet the loop still finds the first free index when there is one |
| Pool.ScanFromZeroCycles | pkg/endpoint/ipmgr.go:107-115 | from start 0 on a full pool every iteration continues, so any finite budget runs out |
| Pool.ReleaseIP | pkg/endpoint/ipmgr.go:127-147 | removes only the first occurrence of the address's index; an index that is not leased changes nothing |
| Pool.ReleaseIPRemoves | pkg/endpoint/ipmgr.go:127-147 | on a duplicate-free UsedIP, release frees exactly that index, keeps all others, and a second release changes nothing |
| Pool.ReleaseIPValid | pkg/endpoint/ipmgr.go:127-147 | release keeps the pool invariant |
| Pool.ReleaseAfterLease | pkg/endpoint/ipmgr.go:90-147 | releasing the address just leased gives the pool back as it was |
| Pool.ThreeLeasesThenRunOut | pkg/endpoint/ipmgr_test.go:14-88 | with start index 1 on three addresses from .100, leases are .101, .102 and .100, and the fourth runs out |
| Pool.ReleaseSequence | pkg/endpoint/ipmgr_test.go:90-127 | releasing .100 twice and an unleased .105 leaves one lease; releasing .101 leaves none |
| Registry.NewEPMgrInv | pkg/endpoint/endpoint.go:34-40 | the empty registry satisfies the two-map invariant |
| Registry.GetEPAddrByIP | pkg/endpoint/endpoint.go:42-49 | the remote address registered for a tunnel address, or "" when there is none |
| Registry.GetEPByAddr | pkg/endpoint/endpoint.go:51-58 | an endpoint is found exactly when the remote address is registered |
| Registry.GetEPByIPUnderInv | pkg/server/server.go:182 | under the invariant the two-map lookup finds an endpoint exactly for registered tunnel addresses, and it is the one holding that address |
| Registry.NewEP | pkg/endpoint/endpoint.go:60-89 | the tunnel-address check comes first, then the remote-address check, each failing with both maps unchanged; success sets exactly the two new entries and changes no other entry |
| Registry.NewEPLookups | pkg/endpoint/endpoint_test.go:89-99 | after a successful NewEP both lookups find the new endpoint |
| Registry.NewEPInv | pkg/endpoint/endpoint.go:60-89 | NewEP preserves the bijection between the two maps |
| Registry.CloseEPByIP | pkg/endpoint/endpoint.go:91-113 | an unknown address is a no-op; a dangling entry loses only its tunnel-address entry; a registered endpoint loses both |
| Registry.CloseEPByIPIdempotent | pkg/endpoint/endpoint.go:91-113 | a second close of the same address changes nothing |
| Registry.CloseEPByIPInv | pkg/endpoint/endpoint.go:91-113 | close preserves the bijection, and the address then finds no endpoint |
| Registry.CloseUndoesNewEP | pkg/endpoint/endpoint.go:60-113 | closing what a successful NewEP registered restores the registry |
| Registry.RegistrationScenario | pkg/endpoint/endpoint_test.go:11-102 | the unit test's three cases: a fresh endpoint registers; a used tunnel address is refused even when its remote address is blank; a used remote address is refused |
| Dst.GetDstEpByDstIP | pkg/server/dst.go:18-32 | inside InNet the answer is the registry's endpoint for `dst/prefix`; outside it is the endpoint of some announced network that contains dst, or none exactly when no announced network contains dst |
| Dst.AddEpExNet | pkg/server/dst.go:45-51 | every given network routes to the endpoint; other keys are unchanged |
| Dst.DelExNetByEp | pkg/server/dst.go:34-43 | removes exactly the networks owned by the endpoint, by identity, and keeps all others unchanged |
| Dst.DelExNetByEpClears | pkg/server/dst.go:34-43 | no network of the endpoint survives, and deleting again changes nothing |
| Dst.DelAfterAdd | pkg/server/dst.go:34-51 | deleting an endpoint's routes undoes adding networks for it, when the new keys were not another endpoint's |
| Dst.RouteAfterAdd | pkg/server/dst.go:18-51 | a destination outside InNet in a newly added network is always routed: to the endpoint that added it, or to the owner of an earlier network, not re-added, that also contains it; when every such earlier network is that endpoint's own, the answer is that endpoint |
| Dst.TwoNetworkTable | pkg/server/dst_test.go:14-60 | two networks of one endpoint on an empty table route to it exactly the destinations they contain, and deleting the endpoint empties the table |
| Dst.SingleOwnerRoute | pkg/server/dst.go:18-32 | when every announced network belongs to one endpoint, a destination outside the tunnel subnet routes to that endpoint exactly when some network contains it, and to nothing otherwise |
| Dst.DelSoleOwner | pkg/server/dst.go:34-43 | deleting the routes of the endpoint that owns every route leaves the table empty |
| Dst.RouteScenario | pkg/server/dst_test.go:37-48 | 10.66.0.1 and 192.168.224.1 route to the endpoint and 192.168.225.1 routes nowhere |
| Auth.Names | pkg/auth/base.go:41-48 | a name is listed exactly when some record with at least two fields carries it |
| Auth.ListUser | pkg/auth/base.go:35-51 | the first field of every record with at least two fields, in file order; a read error is passed on |
| Auth.FindUser | pkg/auth/base.go:96-111 | the first record with at least two fields whose name matches, or none exactly when the name is not listed |
| Auth.ValidateUser | pkg/auth/base.go:86-114 | a logged-in user is refused first; otherwise the first matching record decides; success adds exactly the user, and every failure leaves the set unchanged with the "not exist" or "wrong passwd" error |
| Auth.AddUser | pkg/auth/base.go:53-84 | a name already listed is refused; otherwise the record (user, base64 of passwd) is appended |
| Auth.LogoutUser | pkg/auth/base.go:116-121 | the user is removed and nobody else is affected |
| Auth.LogoutIdempotent | pkg/auth/base.go:116-121 | logging out twice is logging out once, and logging out a user who is not logged in changes nothing |
| Auth.AddThenValidate | pkg/auth/base.go:53-114 | an added user whose name has no comma, double quote or line break is listed last and logs in with exactly the password that was added |
| Auth.ValidateThenLogout | pkg/auth/base.go:86-121 | logging out after a successful login restores the logged-in set |
| Auth.LoginScenario | pkg/auth/base_test.go:11-60 | for any distinct names and passwords: the right password logs in, an unknown user does not exist, and another password is wrong |
| Auth.StoredPassword | pkg/auth/base_test.go:15-19 | the stored "TGF1Z2hPdXRMb3VkbHk=" is the base64 encoding of "LaughOutLoudly" |
| Base64.DecodeEncode | pkg/auth/base.go:71 | the encoding has an inverse |
| Base64.EncodeInjective | pkg/auth/base.go:105 | different passwords have different stored encodings, so comparing encodings compares passwords |
| Client.SendReq | pkg/client/pkt.go:21-28 | REQ with payload user, "/", passwd |
| Client.SendIps | pkg/client/pkt.go:57-70 | nothing is sent exactly when AllowedIPs is empty; otherwise an IPS message |
| Client.Datagram | pkg/client/pkt.go:11-19 | the datagram of a message fails exactly when framing fails, is at least 18 bytes, and decodes back to the message when PLen fits 16 bits |
| Client.ReqSplitsBack | pkg/server/handle.go:32-41 | a REQ payload built from a user and password without "/" splits back into exactly those two |
| Client.ControlFrames | pkg/client/pkt.go:30-46 | PSH and FIN go out as 18-byte noise-only frames |
| Client.IpsParsesBack | pkg/client/pkt.go:57-63 | the IPS payload parses at the server into one network per configured entry, in order |
| Server.ParseRoutes | pkg/server/server.go:38-45 | the routes parse in order; the first text the CIDR parser refuses fails the whole list with "invalid CIDR address: " and that text, and otherwise every route parses |
| Server.NewServer | pkg/server/server.go:34-113 | an unparseable route is reported first, then a bad range with the pool's error, then a bad key with the key error; the server starts exactly when all three pass, encrypting with the key, leasing from the range's pool, with its parsed routes, nobody logged in, no leases, no refs issued, an empty registry, no announced networks and the server invariant holding |
| Server.HandleReq | pkg/server/handle.go:30-41 | a payload that does not split on "/" into exactly two parts gets ACK "invalidate REQ msg" and changes nothing; otherwise the two parts go to the login |
| Server.Login | pkg/server/handle.go:43-61 | exactly one ACK goes to the sender; refused credentials change nothing and ACK the refusal; an accepted login stays logged in and takes the lease; with no address the pool's error is ACKed and nobody is registered; with an address, NewEP's result is the new registry and the address's text is ACKed, or NewEP's error is ACKed and the registry is unchanged |
| Server.LoginOutcomes | pkg/server/handle.go:48-61 | a lease failure leaves the registry alone and ACKs the error; a lease takes one more index, the one of the leased address; a NewEP failure keeps the lease and ACKs NewEP's error; a NewEP success registers the endpoint under its remote and tunnel addresses and ACKs the address |
| Server.LoginInv | pkg/server/handle.go:30-61 | the handshake keeps the server invariant: registry bijection, pool invariant, registered users logged in and distinct, refs issued, route owners registered |
| Server.RegisterInv | pkg/server/handle.go:56-61 | registering a user who was not logged in, under a fresh ref, keeps the server invariant |
| Server.HandleIps | pkg/server/server.go:148-149 | the IPS case of the receive loop, with the assumed HandleIps behaviour named under Left out: an unregistered sender or an unparseable list changes nothing; otherwise every parsed network becomes a fresh route to the sender's endpoint, and existing routes stay; the tunnel subnet, pool, registry, users and cipher are unchanged |
| Server.HandleIpsInv | pkg/server/server.go:148-149 | route announcements keep the server invariant |
| Server.CloseEPByIP | pkg/server/server.go:178-210 | with no endpoint, only the parsed address is released and nothing is sent; otherwise exactly one FIN goes to the endpoint, its lease is released, its user logged out, no route of it remains, and its address leaves the registry; the registry, the logins and the routes change exactly as the registry's close, the logout and the route deletion say, and nothing else changes |
| Server.CloseEPByIPInv | pkg/server/server.go:178-210 | closing keeps the server invariant; the endpoint's index is free, both registry entries are gone, and other endpoints keep their routes and logins |
| Server.DropEndpointInv | pkg/server/server.go:178-210 | dropping one endpoint together with its login and its routes keeps every login, distinctness, ref and owner part of the invariant, and keeps the other endpoints' routes |
| Server.CloseTwice | pkg/server/server.go:178-210 | a second close of the same address changes no state and sends nothing |
| Server.Teardown | pkg/server/server.go:161-169 | every message sent is a FIN; under the registry invariant the registry ends empty, there is one FIN per tunnel address, every registered remote address gets a FIN, and no two FINs go to the same remote address |
| Server.TeardownDone | pkg/server/server.go:161-169 | when the loop has closed every tunnel address, the registry is empty and the FINs went one each to exactly the remote addresses registered at the start |
| Server.TeardownStep | pkg/server/server.go:161-169 | one close of the teardown loop removes exactly its address from the registry and sends one FIN, to a remote address registered when teardown began and not sent to before; the remote addresses still registered are exactly those no FIN went to |
| Server.CloseRegistered | pkg/server/server.go:164-166 | one close in the teardown loop removes exactly its address and sends one FIN to a registered remote address |
| Server.Dispatch | pkg/server/server.go:123-158 | the read keeps at most 4096 bytes; an undecodable frame is dropped with no change; REQ goes to HandleReq and IPS to HandleIps; PSH, DAT, FIN and unknown flags change nothing |
| Server.DispatchInv | pkg/server/server.go:123-158 | every received datagram keeps the server invariant |
| Server.ClientFinIgnored | pkg/server/handle.go:64-68 | a client's FIN changes nothing, because its handler is empty |
| Server.ClientReqLogsIn | pkg/server/server.go:131-139 | end to end, a client's REQ datagram under the shared cipher reaches the login with the client's own user and password |
| Server.IfaceToNet | pkg/server/server.go:217-240 | a packet from the device goes out as one DAT to the endpoint the route table gives, or nowhere when it gives none |
| Server.ForwardedToRegistered | pkg/server/dst.go:18-32 | under the invariant a forwarded packet only ever goes to a registered endpoint; inside the tunnel subnet, to the holder of that address |

## Left out

- I/O: UDP reads and writes, the tunnel device, the CSV file reads and writes (the database enters as parsed records or a read error), and logging. Sends are returned as events holding the cleartext; framing them is `Client.Datagram`/`Protocol`.
- The AES block cipher in CBC mode and `crypto/rand`: the block mode is an abstract length-preserving transform that decryption undoes, and the IV is a 16-byte parameter.
- The `utils.IdxFromString` hash, `net.ParseIP`, `net.ParseCIDR`, `netlink.ParseAddr` and `waterutil.IPv4Destination`. These are not part of this model and enter as parameters. Invariant lemmas assume the hash lands inside the pool; `Pool.OutOfRangeStart` says what happens when it does not.
- Heartbeats (heartbeat.go), timers, goroutines and the `MLock` mutexes: everything is sequential, and no atomicity is claimed.
- The login time of an endpoint, its UDP socket and transmit queue.
- `pkg/iface`, `pkg/config`, the web dashboard, the CLI and the bootstrap code. The server's parsed routes are kept (`Server.routes`) but only the device uses them.
- Error texts from Go's libraries (`crypto/aes`, `netlink.ParseAddr`) are approximated by texts of the same shape.
- Pool.IPForUser: the probe loop carries a budget of IPCount + 1 iterations. It is never exhausted for a start inside a valid pool (`Pool.ScanFindsFirstFree`). Outside that case, exhaustion is reported as "run out of ip".
- Server.Teardown: the registry is claimed empty only under the registry invariant. With a dangling tunnel-address entry the Go code leaves that entry behind, and so does the model.
- Server.HandleIps: the Go body of `HandleIps` is not part of this model, so this member is not modelled from code. Its assumed behaviour: the sender is looked up by remote address, the payload is split on commas, the list parses all or nothing, and every network is announced for the sender's endpoint.
- Server.NewServer: it includes the cipher step of `Launch` (server.go:109-113), because the handlers need the cipher. Go's `NewServer` itself never checks the key. The device setup and the UDP listen that come between are I/O.
- Auth.AddUser: the record is appended as parsed fields, not as the text line `user,enc` that base.go:76-79 writes and `csv.ReadAll` later re-reads. The two agree only for a name without comma, double quote, CR or LF, in a file whose records all have two fields and whose last line ends with a newline. `Auth.AddThenValidate` asks for such a name.
- Server.LoginInv: no invariant ties each registered endpoint to a held lease. Closing an unknown address releases whatever index the parsed text names.

## Findings

| source | as written | input that shows it | evidently intended | confidence | as-written member | corrected member |
|---|---|---|---|---|---|---|
| pkg/cipher/aes.go:74 | the guard `len(data) < aes.BlockSize` lets a 16-byte input through; the body after the IV is then empty, and `PKCS7Unpadding` reads `data[len(data)-1]` of an empty slice and panics | a 22-byte datagram to the server: flag, PLen 16, NLen 0, then 16 bytes; Decode hands the 16 bytes to Decrypt, and the receive loop panics | refuse input that is not longer than one block (`len(data) <= aes.BlockSize`) | high, not executed | Cipher.DecryptAsWritten, Cipher.OneBlockPanics, Protocol.OneBlockFrameCrashes | Cipher.Decrypt, Cipher.DecryptEncrypt, Protocol.Decode |
| pkg/endpoint/ipmgr.go:92 | the stop index `idx - 1` is -1 when the hashed start index is 0; the loop wraps from IPCount - 1 back to 0 and never meets -1, so on a full pool it never returns | a full pool and a user name whose hash is 0 | stop at the cyclic predecessor of the start (IPCount - 1 for a start at 0) and report "run out of ip" | high, not executed | Pool.IPForUserAsWritten, Pool.AsWrittenHangs | Pool.IPForUser, Pool.StopIndex, Pool.IPForUserIsFirstFree |
