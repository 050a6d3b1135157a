# Verification models of OpenNHP

A Dafny 4.11 model of the hard parts of OpenNHP, and proofs about it. The modules follow the program:

| module | what it models |
|---|---|
| TagCodec | the tag-driven `marshal` and `unmarshal` behind the ZTDO file, for every struct type |
| Ztdo | the ZTDO file: chunked metadata, encrypted payloads, chained signature |
| Primitives, PacketLayout | the cipher suite as a record of functions with laws, the HKDF, and the packet header of both schemes |
| Handshake, HandshakeProofs, HandshakeObjects | both ends of an NHP packet, from a message to bytes and back |
| HandshakeSoundness, ZtdoSoundness | the converse: what every packet or file that is accepted must be |
| KeyAgreement | the token interpreter of DHP symmetric key agreement |
| Connection | replay, flood and stale checks, the threat counter, and cookies under overload |
| Transactions | a local transaction against reply, cookie, timeout, closed connection and stopped device |
| Admission, AcConnections | the server's connection table with its overload flag, and the table of access controllers |
| Arith, Curve, Scalar, Kgc | modular arithmetic, elliptic curve points, certificateless keys and ECDSA |
| Xdp | the packet filter: whitelists with expiry, connection tracking as their cache, and the egress program |
| Cidr | `incrementIP` and the enumeration of an address block |
| Bytes | bytes, machine words, bit operations |

Code that works in place is a class or a method over arrays, proved equal to a function of the old state; what the
program promises is then proved about that function. Concurrent code is a state machine whose steps are the sections
that run under one lock; theorems hold for every sequence of steps. Random numbers, clocks and the sizes of file reads
are parameters, so theorems hold for all of them. Ciphers and hashes are a record of functions; a theorem that needs a
law of theirs (Diffie-Hellman agreement, opening what was sealed, output sizes, decompressing what was compressed) says
so, and a concrete record shows for each set of laws that it is not contradictory.

Several promises hold only under conditions that the documentation does not name. Those are proved in both directions:

- A ZTDO file decrypts to its plaintext if and only if the signature flag is set, the plaintext is not empty, the mode
  and key are accepted by the cipher, and the signature chain of the object that wrote it was fresh. The signature is
  written even without the flag, where decryption then reads into it; a file that an object wrote after it had already
  written or read another one may not verify.
- A packet without a body keeps the flags that an earlier use left in its buffer; it passes the receiver's length check
  if and only if those flags happen to show its scheme.
- The flood check wraps around in its last 20 ms before the end of `int64` time; there, and only there, a packet that
  has just passed passes again.
- Adding two curve points panics exactly when a point with y = 0 is doubled.
- A declared key splits correctly exactly when its X coordinate fills its width, and a signature exactly when its second
  half has as many bytes as the first, or one more.
- A reply or cookie that is looked up for a transaction, and sent to it only after the transaction has stopped waiting,
  is a send on a closed channel, which panics. A run ends in this if and only if that happens.
- A request that is over has got exactly one message if and only if neither of the two queues was full for it, the
  device did not stop with it queued, and its type expects a reply.
- A fresh cookie is not accepted within 20 ms of its rotation.
- The enumeration of an address block stops where the IPv4-mapped addresses begin, because `IPNet.Contains` takes those
  for four-byte ones. It visits the whole block unless the prefix is below 96 and the block contains that range.
- Closing a connection that began with an announcement of an access controller cleans up completely exactly if it served
  at most one id. A connection that began with another packet is not cleaned up at all.
- A replayed packet is accepted if and only if the last packet to pass was sent 20 ms before it, which takes an exempt
  packet that has set the time back.
- A waiting request is found by its reply if and only if no other request with its id has entered the map, or has left
  it, since it entered.
- The limit on connections never refuses one, because the overload branch is tested first.
- The filter's lookup of the reversed tuple never finds anything.

The comments in nhp/core/responder.go say that a reply continues from "ChainKey4". The code clears the chain key at the
end of `encryptBody` and `decryptBody`, so a reply starts from zeros on both ends. The model follows the code.

## Model

| member | source | states |
|---|---|---|
| `TagCodec.ParseConsumes` | nhp/core/ztdo/ztdo.go:462-592 | For every struct type and file: serializing what was parsed gives the bytes between the old and the new file position, with zeros only where the file ended early. |
| `TagCodec.ReserializeExactly` | nhp/core/ztdo/ztdo.go:462-592 | Re-serializing equals the consumed bytes if and only if no read came up short. |
| `TagCodec.CheckedParses` | nhp/core/ztdo/ztdo.go:462-592 | Parsing after serializing returns the same structure, stops right behind it and leaves the rest of the file alone, for every structure whose length fields describe it, with any number of continued elements. |
| `TagCodec.ParsedChecks` | nhp/core/ztdo/ztdo.go:509-592 | The converse: only structures whose length fields and continuation bits describe them are ever parsed. |
| `TagCodec.Decoder.constructor` | nhp/core/ztdo/ztdo.go:602-609 | A parse starts with an empty length table and the continuation indicator of the parse before. |
| `TagCodec.Decoder.Read` | nhp/core/ztdo/ztdo.go:530-535 | One file read: an error only at end of file, zeros after a short read. |
| `TagCodec.Decoder.UnmarshalValue` | nhp/core/ztdo/ztdo.go:521-589 | One field moves file position, length table and indicator as the parsing function says. |
| `TagCodec.Decoder.Unmarshal` | nhp/core/ztdo/ztdo.go:509-592 | The same for all fields of a structure in order. |
| `TagCodec.Decoder.UnmarshalElements` | nhp/core/ztdo/ztdo.go:561-573 | The loop over a slice of structures reads elements for as long as the last one set the continuation indicator. |
| `Ztdo.MetadataRoundTrip` | nhp/core/ztdo/ztdo.go:130-166 | Reading metadata back returns the string that was set, for every length. |
| `Ztdo.MetadataLengthDecodes` | nhp/core/ztdo/ztdo.go:634-669 | A chunk's encoded length decodes to the length and the continuation flag. |
| `Ztdo.ChunksCheck` | nhp/core/ztdo/ztdo.go:130-156 | The chunks of any metadata are a well-formed continued list, also when its length is a multiple of the chunk size. |
| `Ztdo.ConfigAccumulates` | nhp/core/ztdo/ztdo.go:168-189 | Flag, mode and curve read back from the configuration byte as the union of all settings made so far. |
| `Ztdo.SealedPayloadFits` | nhp/core/ztdo/ztdo.go:195-225 | For every chunk and every mode the payload length fits its 24-bit field without truncation. |
| `Ztdo.PayloadAdvances` | nhp/core/ztdo/ztdo.go:415-423 | Every parsed payload moves the file position on, and its serialized size is its ciphertext plus 15 bytes. |
| `Ztdo.HeaderChecks` | nhp/core/ztdo/ztdo.go:101-177 | A header as the setters leave it has length fields that describe it. |
| `Ztdo.PayloadChecks` | nhp/core/ztdo/ztdo.go:191-225 | A sealed payload has a length field that describes it, and its size is known. |
| `Ztdo.DecryptPayloadsOf` | nhp/core/ztdo/ztdo.go:381-459 | On an encrypted file the loop yields the plaintext, stops exactly behind the last payload with 32 bytes remaining, and has recomputed the writer's hash chain. |
| `Ztdo.DecryptPayloadsRejects` | nhp/core/ztdo/ztdo.go:415-443 | With no more than a signature left the loop can only end in an error. |
| `Ztdo.EncryptThenDecrypt` | nhp/core/ztdo/ztdo.go:311-459 | With the signature flag: decryption returns the plaintext under the stated conditions, and an error otherwise, for every metadata, server name, split into chunks and nonces. |
| `Ztdo.DecryptsToPlaintextIff` | nhp/core/ztdo/ztdo.go:311-459 | The exact condition, signature flag included, for decryption to return the plaintext. |
| `Ztdo.DecryptsIffFieldIsZero` | nhp/core/ztdo/ztdo.go:311-459 | If the hashes do not collide on the two chains, the last condition is exactly that the object's signature field was zero before. |
| `Ztdo.ChainsDiffer` | nhp/core/ztdo/ztdo.go:251-257 | Chains from different values end in different values, if no step collides. |
| `Ztdo.FreshObjectRoundTrip` | nhp/core/ztdo/ztdo.go:311-459 | For a new object only the plaintext, mode and key matter. |
| `Ztdo.ReusedObjectCanFail` | nhp/core/ztdo/ztdo.go:251-280 | An object whose signature field is not zero can write a file that does not verify. |
| `Ztdo.LoopPassesPayloads` | nhp/core/ztdo/ztdo.go:431-442 | Without the flag the loop decrypts all payloads and then goes on into the signature. |
| `Ztdo.TrailerIsNoPayload` | nhp/core/ztdo/ztdo.go:415-443 | Reading the signature as a payload fails or adds at least one byte. |
| `Ztdo.ZtdoObject.constructor` | nhp/core/ztdo/ztdo.go:227-280 | A new object: version, magic number from the object id, zero signature. |
| `Ztdo.ZtdoObject.SetNhpServer` | nhp/core/ztdo/ztdo.go:118-127 | Stores names of at most 255 bytes with their length, refuses longer ones without a change. |
| `Ztdo.ZtdoObject.SetMetadata` | nhp/core/ztdo/ztdo.go:130-156 | The loop stores the chunks of the specification, from which the string can be read back. |
| `Ztdo.ZtdoObject.SetCipherConfig` | nhp/core/ztdo/ztdo.go:168-177 | Adds the bits to the configuration byte and changes nothing else. |
| `Ztdo.ZtdoObject.EncryptZtdoFile` | nhp/core/ztdo/ztdo.go:311-361 | The method writes the file of the specification and leaves the header written and the signature in the object. |
| `Ztdo.ZtdoObject.VerifySignature` | nhp/core/ztdo/ztdo.go:448-456 | Accepts exactly if the stored signature can be read and equals the recomputed one; it stays in the object. |
| `Ztdo.ZtdoObject.DecryptPayload` | nhp/core/ztdo/ztdo.go:415-443 | One turn of the loop either gives the loop's outcome or leaves it unchanged and moves on. |
| `Ztdo.ZtdoObject.DecryptAllPayloads` | nhp/core/ztdo/ztdo.go:415-443 | The loop computes the specified outcome for every file. |
| `Ztdo.ZtdoObject.DecryptZtdoFile` | nhp/core/ztdo/ztdo.go:381-459 | The method computes the specification's result for every file, well-formed or not, and leaves a parsed header and a stored signature that was read in the object. |
| `Ztdo.PackAndUnpack` | nhp/core/ztdo/ztdo.go:275-459 | Through the methods alone: one object configures and writes a file, another reads back the plaintext exactly if the name fits, the plaintext is not empty and mode and key are usable. |
| `Ztdo.PackBare` | nhp/core/ztdo/ztdo.go:275-459 | The same for an object without server name and metadata. |
| `ZtdoSoundness.OnlySignedFilesDecrypt` | nhp/core/ztdo/ztdo.go:381-459 | For every file that claims a signature: if it decrypts, it is a header, whole payloads that all open to the plaintext, and the HMAC under the key of the hash chain over exactly these bytes, from zeros. |
| `ZtdoSoundness.LoopEndsBeforeSignature` | nhp/core/ztdo/ztdo.go:415-443 | The payload loop ends only over whole payloads that open, with exactly a signature behind them. |
| `ZtdoSoundness.OtherKeyIsRefused` | nhp/core/ztdo/ztdo.go:251-273 | A trailer made with one key is accepted under it and refused under another whose HMAC differs. |
| `ZtdoSoundness.PayloadsAre` | nhp/core/ztdo/ztdo.go:331-356 | Each payload is one read of the plaintext in order, sealed under its own nonce with key and associated data. |
| `ZtdoSoundness.HeaderLayout` | nhp/core/ztdo/ztdo.go:462-506 | The fields of a header in the file, in order. |
| `ZtdoSoundness.PayloadLayout` | nhp/core/ztdo/ztdo.go:462-506 | The fields of a payload in the file, in order. |
| `ZtdoSoundness.WrittenIsPrepared` | nhp/core/ztdo/ztdo.go:311-330 | What is written always has a well-formed metadata list, also for an object that never got one. |
| `ZtdoSoundness.UsableIff` | nhp/core/ztdo/noise.go:65-163 | Which modes and keys encrypt and decrypt at all, and their tag sizes. |
| `Primitives.Hmac` | nhp/core/kdf.go:13-32 | Writes the HMAC of key and message, also when the key is the destination. |
| `Primitives.KeyGen1` | nhp/core/kdf.go:34-37 | First HKDF output of section 4.3 of the Noise Protocol Framework, with the key read before it is overwritten in place. |
| `Primitives.KeyGen2` | nhp/core/kdf.go:39-45 | Both HKDF outputs, in place. |
| `Primitives.OutputsAreChained` | nhp/core/kdf.go:34-45 | The two derivations agree on the first output, and the second is chained to it, as section 4.3 of the Noise Protocol Framework has it. |
| `Primitives.SetZero` | nhp/core/kdf.go:68-72 | Clears the whole array. |
| `KeyAgreement.MirroredPatternsAgree` | nhp/core/ztdo/noise.go:302-394 | For token lists of any length that mirror each other, provider and consumer get the same key and associated data. |
| `KeyAgreement.RunsAgree` | nhp/core/ztdo/noise.go:318-394 | Both sides agree on the whole state of the interpreter after every mirrored list, from any common state. |
| `KeyAgreement.WrappingPatternsAgree` | nhp/core/ztdo/noise.go:397-400 | The data-private-key wrapping patterns agree, and which public keys they need. |
| `KeyAgreement.WrappingKeyIs` | nhp/core/ztdo/noise.go:302-400 | The wrapping key and its associated data, written out over keys and secrets. |
| `KeyAgreement.FilePatternsAgree` | endpoints/agent/udpagent.go:907-920 | The patterns for a file's own key agree from the two static keys. |
| `KeyAgreement.FileKeyIs` | nhp/core/ztdo/noise.go:302-394 | That key and its associated data written out, an unusable public key included. |
| `KeyAgreement.NoKeyWithoutFinalDh` | nhp/core/ztdo/noise.go:318-394 | A pattern that does not end in a Diffie-Hellman token leaves the key untouched. |
| `KeyAgreement.WrapAndUnwrap` | nhp/core/ztdo/noise.go:264-394 | Through the constructor and setters alone: the data broker's and the agent's wrapping key and associated data are the same, with no more keys than each of them sets. |
| `KeyAgreement.WrappingKey` | endpoints/db/udpdevice.go:846-853 | The data broker's calls run the wrapping pattern over its static key and the consumer's two public keys. |
| `KeyAgreement.UnwrappingKey` | endpoints/agent/udpagent.go:886-893 | The agent's calls run the mirrored pattern over its own two keys and the provider's public key. |
| `KeyAgreement.SymmetricAgreement.MixToken` | nhp/core/ztdo/noise.go:318-390 | One token changes chain key, key and transcript as the specification says. |
| `KeyAgreement.SymmetricAgreement.AgreeSymmetricKey` | nhp/core/ztdo/noise.go:302-394 | The loop over the tokens of one's own role computes the specified key and associated data. |
| `Connection.PassesAreSpaced` | nhp/core/responder.go:349-401 | Over every run: two packets that pass, the second not exempt, are at least 20 ms of sender time apart, so none passes twice, if no exempt packet that passed in between was stamped too early. |
| `Connection.LastAfterPass` | nhp/core/responder.go:349-401 | The invariant behind it: the stored time is that of the packet that passed, or at least 20 ms later, under the same condition. |
| `Connection.StoredTimeIsLastPass` | nhp/core/responder.go:399 | After every run the stored time is that of the last packet that passed. |
| `Connection.PassesNextIff` | nhp/core/responder.go:349-401 | After every run, for clocks after 1970, a packet passes if and only if it is at most ten minutes older than its arrival, and is exempt or was sent 20 ms after the last one that passed, wrap-around at the end of int64 included. |
| `Connection.FirstPassIff` | nhp/core/responder.go:349-401 | The same before anything has passed. |
| `Connection.PassesAreFresh` | nhp/core/responder.go:383-396 | Over every run, no packet, exempt or not, has ever passed that was sent more than ten minutes before its arrival. |
| `Connection.VerdictsAre` | nhp/core/responder.go:349-397 | Exactly when the verdict is pass, replay, flood or stale, over the true difference of times. |
| `Connection.ReplayPassesIff` | nhp/core/responder.go:349-401 | After every run, a packet that has passed passes again if and only if it is not stale by then and the last one to pass was sent 20 ms before it, and only if some exempt packet has set the time back. |
| `Connection.PassesAgainIffNearOverflow` | nhp/core/responder.go:366-381 | The same packet passes a second time if and only if its time is within 20 ms of the end of int64. |
| `Connection.ExemptPacketRewinds` | nhp/core/responder.go:204-211 | An exempt packet can set the stored time back, after which a packet that had passed passes again. |
| `Connection.ThreatIsStreak` | nhp/core/responder.go:349-401 | Over every run on an open connection the threat count is 1 exactly during a streak of drops, and the block signal is raised at every drop of a streak but its first. |
| `Connection.ClosedOnlyCounts` | nhp/core/responder.go:357-363 | A closed connection raises no signal and only counts. |
| `Connection.RotationsAreRare` | nhp/core/responder.go:494-507 | Over every run of knocks, cookie rotations are more than 120 s apart, and the stored time is that of the last. |
| `Connection.StoreHoldsLastTwo` | nhp/core/responder.go:494-507 | The store holds the last two cookies ever issued. |
| `Connection.IssuedGrows` | nhp/core/responder.go:494-507 | Issued cookies are never revised: the list after fewer knocks is a prefix. |
| `Connection.HandedOutCookieExpected` | nhp/core/responder.go:531-566 | A handed-out cookie is the one the server expects exactly if no rotation has happened since and the 20 ms after the last are over, or exactly one has and they are not. |
| `Connection.FreshCookieIsEarly` | nhp/core/responder.go:494-566 | A cookie that has just been made is of no use before 20 ms have passed: until then the one before it is expected. |
| `Connection.LongAfterIsTwoMinutes` | nhp/core/responder.go:501 | The wrapping difference of two clock readings after 1970 is the true one. |
| `Connection.KnockRotatesIff` | nhp/core/responder.go:494-507 | A knock makes a new cookie exactly after 120 s, keeping the one before. |
| `Connection.ExpectedIs` | nhp/core/responder.go:546-560 | Which cookie is expected, in nanoseconds since the rotation. |
| `Connection.ConnectionData.constructor` | nhp/core/responder.go:27-41 | A new connection: no time, no threats, zero cookies. |
| `Connection.ConnectionData.SendBlockSignal` | nhp/core/udpconn.go:130-142 | Raises the signal unless the connection is closed. |
| `Connection.ConnectionData.CountThreat` | nhp/core/responder.go:349-401 | Adds a threat; past the limit the count is clamped and the signal raised. |
| `Connection.ConnectionData.CheckSendTime` | nhp/core/responder.go:349-401 | Verdict, stored time, threat count and block signal of one packet. |
| `Connection.ConnectionData.GenerateCookie` | nhp/core/responder.go:494-507 | Rotates the store after 120 s, and leaves it alone before. |
| `Connection.ConnectionData.StoreCookie` | endpoints/agent/msghandler.go:25-27 | A full-size cookie replaces the stored one, a shorter one only its front. |
| `Connection.SendKnock` | endpoints/agent/knock.go:16-33 | However often the server asks for a cookie, at most two requests are sent; a request carries a cookie exactly if it is the second and the first was answered by one; the last answer is the result. |
| `PacketLayout.TypeAndSizeRoundTrip` | nhp/core/scheme/gmsm/header.go:31-46 | Type and size are read back through the random mask, for every mask. |
| `PacketLayout.FlagRoundTrip` | nhp/core/scheme/gmsm/header.go:63-72 | Scheme and compression are read back from the flag word, in both schemes. |
| `HandshakeProofs.SendPutsFields` | nhp/core/initiator.go:90-430 | A packet is sent exactly if its body fits the buffer, and then every header field, the HMAC and the body are where they belong. |
| `HandshakeProofs.WireReads` | nhp/core/packet.go:155-195 | The receiver's readers return what the sender wrote. |
| `HandshakeProofs.OpensStatic` | nhp/core/responder.go:213-290 | The receiver recovers the sender's public key and arrives at the sender's chain key and chain hash. |
| `HandshakeProofs.OpensTime` | nhp/core/responder.go:318-427 | The same for the time, negative ones included, and the body key. |
| `HandshakeProofs.BodyDecrypts` | nhp/core/responder.go:429-476 | The receiver recovers the message, compressed or not, empty or not. |
| `HandshakeProofs.HmacMatches` | nhp/core/responder.go:531-566 | The HMAC of a genuine packet is accepted exactly if the receiver sums the same cookie as the sender, or the hash cannot tell the difference. |
| `HandshakeProofs.ParseRecovers` | nhp/core/responder.go:91-476 | From the sender's chain key, a genuine packet is refused only for overload, a differently summed cookie, peer pool or clock; otherwise key, time, transaction id, type and message are recovered. |
| `HandshakeProofs.PrecheckIffSchemeShows` | nhp/core/packet.go:236-258 | The precheck passes a genuine packet if and only if its flags show its scheme, which they always do with a body. |
| `HandshakeProofs.EmptyBodyFromNewBufferIsRefused` | nhp/core/initiator.go:339-346 | An SM2 knock without a body from a zeroed buffer fails the precheck. |
| `HandshakeProofs.RequestRoundTrip` | nhp/core/initiator.go:90-430 | From the sender's message through the precheck to the receiver's, for both schemes, all keys, buffers and messages: the exact outcome, refusals included. |
| `HandshakeProofs.TransactionRoundTrip` | nhp/core/responder.go:171-202 | Behind the precheck, a reply assembled for the decrypted request's key and id is recovered by the initiator under its own transaction id, or refused for a named reason, both sides starting from the cleared chain key. |
| `HandshakeProofs.SameMacIffSameCookie` | nhp/core/responder.go:531-566 | If the hash does not collide on the two inputs, sender's and receiver's HMAC agree exactly if both sum the same cookie. |
| `HandshakeProofs.AcceptedIffSameCookie` | nhp/core/responder.go:131-160 | Then a packet against which nothing else speaks is accepted exactly in that case, and otherwise refused for its HMAC. |
| `HandshakeProofs.ReknockWithoutOverloadIsRefused` | nhp/core/responder.go:131-160 | A reknock that every server without overload refuses. |
| `HandshakeProofs.SendAgrees` | nhp/core/initiator.go:216-328 | Sending succeeds only with a peer key of the right size and both shared secrets. |
| `HandshakeProofs.AcceptedPacketIsRefusedAgain` | nhp/core/responder.go:349-401 | Over every run of a connection: once a packet has passed, the same bytes are refused for ever after, whatever else arrives, unless an exempt packet stamped too early passes in between or the flood check wraps around for their time. |
| `HandshakeProofs.ReplayIsAcceptedIff` | nhp/core/responder.go:91-476 | After every run: a genuine packet against which nothing else speaks, replay or not, is parsed to its message if and only if it was sent 20 ms after the last one that passed. |
| `HandshakeProofs.ReknockAcceptedWithExpectedCookie` | nhp/core/responder.go:91-169 | Under overload, the HMAC of a reknock with the expected cookie is accepted. |
| `HandshakeProofs.ReknockWithHandedOutCookie` | nhp/core/responder.go:494-566 | After every run of knocks, a reknock with a cookie that still works is accepted. |
| `HandshakeProofs.PeerRemembers` | nhp/core/peer.go:161-197 | Over every run of contacts, a peer keeps the address it was accepted from, or its hold time has passed. |
| `HandshakeProofs.PeerHoldsItsAddress` | nhp/core/peer.go:161-197 | A peer is never accepted from two addresses within its hold time, whatever the wall clock says about its expiry. |
| `HandshakeSoundness.AcceptedIff` | nhp/core/responder.go:91-476 | For every content, genuine or not: it is parsed to a message if and only if its HMAC holds with the cookie that is due, its three boxes open to the sender's key, time and message, and sender, time and state of the receiver are in order. |
| `HandshakeSoundness.ValidatedMeans` | nhp/core/responder.go:213-427 | The same for the validation alone. |
| `HandshakeSoundness.GenuinePacketGets` | nhp/core/responder.go:91-476 | The exact verdict on every genuine packet: overload, HMAC, unknown, expired or displaced peer, replay, flood, stale, cookie, or the message, in this order. |
| `HandshakeSoundness.UnderOverload` | nhp/core/responder.go:131-417 | A server short of connections answers a knock that is in order with a cookie, accepts the reknock with the expected cookie, and turns away all but exits and its controllers. |
| `HandshakeSoundness.ValidatesIff` | nhp/core/responder.go:274-291 | Whose types have their peers validated, by each switch. |
| `HandshakeSoundness.PeerErrorIs` | nhp/core/peer.go:139-175 | Unknown, expired and displaced peers are told apart in this order. |
| `HandshakeSoundness.AdmissionIs` | nhp/core/responder.go:351-417 | The verdicts between opening the packet and its body. |
| `HandshakeSoundness.ExemptIff` | nhp/core/responder.go:204-211 | Only answers of controllers at the server and orders at the controller are exempt. |
| `HandshakeSoundness.PrecheckIff` | nhp/core/packet.go:202-258 | For every content: the precheck passes exactly keepalives without a body, and types the device hears whose length is that of their header and body. |
| `HandshakeSoundness.WhoHearsWhom` | nhp/core/packet.go:85-234 | The two tables agree: nobody hears a type from a kind of device that is not its counterpart. |
| `HandshakeSoundness.FlagsAre` | nhp/core/initiator.go:339-390 | The flag word shows scheme, compression and certificateless keys. |
| `HandshakeSoundness.VersionIsWritten` | nhp/core/initiator.go:126-127 | Every packet of a new exchange carries version 1.0. |
| `HandshakeSoundness.ChainNamesKeys` | nhp/core/initiator.go:216-328 | The chain hash that seals a message names both public keys, the sealed key and the sealed time. |
| `HandshakeObjects.MsgAssembler.constructor` | nhp/core/initiator.go:90-157 | The packet buffer, hashes and keys at the start of a new message, or of a reply from a given chain key. |
| `HandshakeObjects.MsgAssembler.SetPeerPublicKey` | nhp/core/initiator.go:216-328 | The in-place evolution of buffer, hashes and keys, and its errors. |
| `HandshakeObjects.MsgAssembler.AddHmac` | nhp/core/initiator.go:410-430 | The HMAC over everything before it, with the cookie for a reknock. |
| `HandshakeObjects.MsgAssembler.EncryptBody` | nhp/core/initiator.go:330-407 | The content that leaves the sender, and the cleared chain key whatever the outcome. |
| `HandshakeObjects.MsgToPacket` | nhp/core/device.go:268-311 | The whole way from message to packet, and the chain key that a reply continues from. |
| `HandshakeObjects.PacketParser.constructor` | nhp/core/responder.go:91-169 | Where parsing starts, for a new exchange and for the reply to one's own message. |
| `HandshakeObjects.PacketParser.CheckPacket` | nhp/core/responder.go:91-169 | The overload rule and the HMAC check with its choice of cookie. |
| `HandshakeObjects.PacketParser.OpenStatic` | nhp/core/responder.go:213-290 | The sender's key, with chain key and chain hash evolved in place. |
| `HandshakeObjects.PacketParser.OpenTime` | nhp/core/responder.go:318-427 | The sender's time and the body key, likewise. |
| `HandshakeObjects.PacketParser.CheckPeer` | nhp/core/responder.go:291-312 | The peer pool's verdict; only an accepted peer's entry changes. |
| `HandshakeObjects.PacketParser.Admit` | nhp/core/responder.go:351-417 | Verdict on the send time, and all changes of the connection: stored time, threats, cookie. |
| `HandshakeObjects.PacketParser.ValidatePeer` | nhp/core/responder.go:213-427 | The whole validation; a packet refused before its time is known leaves the connection unchanged, one refused for its time only adds a threat. |
| `HandshakeObjects.PacketParser.DecryptBody` | nhp/core/responder.go:429-476 | The message or an error, and the cleared chain key whatever the outcome. |
| `HandshakeObjects.PacketToMsg` | nhp/core/device.go:431-467 | The whole way from packet to message; a packet with a wrong HMAC changes neither peers nor connection. |
| `HandshakeObjects.Ask` | nhp/core/device.go:268-467 | A request through the methods: its outcome behind the precheck, and that both ends keep a cleared chain key. |
| `HandshakeObjects.Answer` | nhp/core/device.go:268-467 | The reply through the methods, continued from those chain keys: its outcome behind the precheck. |
| `HandshakeObjects.Transact` | nhp/core/device.go:268-467 | Through the methods alone, each packet behind its precheck: request, its decryption, the reply continued from the chain keys they leave behind, and its decryption to the same message under the request's id. |
| `Curve.AddStaysOnCurve` | endpoints/kgc/curve/curve.go:41-119 | For every prime field and all coefficients: addition panics exactly when it doubles a point with y = 0, and otherwise gives a reduced point of the curve, in all cases. |
| `Curve.AddIsThirdIntersection` | endpoints/kgc/curve/curve.go:61-119 | The sum's mirror image lies on the line through the two points, or on the tangent for a doubling, and its x is the third root of the cubic there, as congruences over the coordinates alone. |
| `Curve.ThirdIntersectionIsUnique` | endpoints/kgc/curve/curve.go:61-119 | No other reduced point meets these congruences. |
| `Curve.AddNeutralAndInverse` | endpoints/kgc/curve/curve.go:61-80 | Infinity is neutral on both sides, and a point and its mirror image cancel. |
| `Curve.ChordForInstance` | endpoints/kgc/curve/curve.go:61-119 | The sum of two named points of a small curve. |
| `Curve.DoublingPanics` | endpoints/kgc/curve/curve.go:61-119 | A curve and a point on it that cannot be doubled. |
| `Curve.AddCommutes` | endpoints/kgc/curve/curve.go:61-119 | The order of the points does not matter. |
| `Curve.SameX` | endpoints/kgc/curve/curve.go:61-119 | Two points of the curve with equal x are equal or opposite, so the chord's denominator is never zero. |
| `Curve.DenominatorZeroIff` | endpoints/kgc/curve/curve.go:61-119 | The inverse does not exist exactly when a point with y = 0 is doubled. |
| `Curve.ChordSolves` | endpoints/kgc/curve/curve.go:61-119 | The mirrored third intersection satisfies the curve equation. |
| `Curve.TangentQuotient` | endpoints/kgc/curve/curve.go:61-119 | The computed slope of a doubling is the tangent's. |
| `Curve.SecantQuotient` | endpoints/kgc/curve/curve.go:61-119 | The computed slope of a generic addition is the chord's. |
| `Scalar.CurveIsAbelian` | endpoints/kgc/curve/curve.go:61-119 | Closure, identity and commutativity of addition follow from the code; associativity, and that no point has y = 0, are assumed. |
| `Scalar.ThreePointsAssociate` | endpoints/kgc/curve/curve.go:41-119 | On a curve of order three the code's addition is associative and no point has y = 0, so the assumptions about curves can be met. |
| `Scalar.ScalarMultIsMultiple` | endpoints/kgc/curve/curve.go:121-138 | For every byte string, read big-endian, and every point: the loop's result is the k-fold sum. |
| `Scalar.MultipleInjective` | endpoints/kgc/curve/curve.go:121-138 | For a point of prime order, two multiples are equal exactly if the factors are equal modulo the order. |
| `Scalar.DoubleAndAddSums` | endpoints/kgc/curve/curve.go:121-138 | From any state of the loop, the result is the accumulated point plus the remaining multiple of the doubled one. |
| `Scalar.KeepSum` | endpoints/kgc/curve/curve.go:121-138 | One turn of the loop keeps that sum. |
| `Scalar.CustomStandardCurve.ScalarMult` | endpoints/kgc/curve/curve.go:121-138 | The loop is double-and-add from the identity, panics included. |
| `Kgc.FullKeyEquation` | endpoints/kgc/kgc.go:115-161 | For all secrets, nonces and ids: the full private key times the base point is the declared key plus lambda times the master key. |
| `Kgc.GeneratedKeyVerifies` | endpoints/kgc/user/user.go:82-171 | Every generated key verifies if the declared X fills its width. |
| `Kgc.OnlyTheKeyVerifies` | endpoints/kgc/user/user.go:153-171 | Under a generated declared key, a private key is accepted if and only if it is the generated one modulo the order. |
| `Kgc.KeyVerifiesForItsUserOnly` | endpoints/kgc/user/user.go:100-171 | A generated key, checked under a user id, is accepted if and only if it was issued for that id, if the hash does not collide on the inputs of the two. |
| `Kgc.InputNamesUser` | endpoints/kgc/user/user.go:110-124 | The hash input names the user id, below 64 KiB, and the curve and master key parameters. |
| `Kgc.LambdaInputNamesKey` | endpoints/kgc/user/user.go:127-131 | The input of lambda names the bytes of the declared key. |
| `Kgc.LambdaNamesUser` | endpoints/kgc/user/user.go:110-136 | Different users have different lambdas for one declared key, without such collisions. |
| `Kgc.FullKeyMissingIff` | endpoints/kgc/user/user.go:82-94 | A new user key is asked for exactly if the sum of the two parts is a multiple of the order; otherwise the key is that sum, reduced. |
| `Kgc.DeclaredKeySplitsIffFullWidth` | endpoints/kgc/user/user.go:100-146 | The declared key's bytes split into the right point if and only if X fills its width. |
| `Kgc.ShortKeySplitsWrong` | endpoints/kgc/user/user.go:100-146 | A declared key with a short X that is taken for another point. |
| `Kgc.SignatureEquation` | endpoints/kgc/user/user.go:181-278 | The verifier's two factors recombine to the signer's nonce modulo the order. |
| `Kgc.SignatureVerifies` | endpoints/kgc/user/user.go:181-278 | Every signature that is returned verifies under the key's own public key (section 6.4 of FIPS 186-5). |
| `Kgc.VerifiesIffSigned` | endpoints/kgc/user/user.go:181-278 | Under the public key of a private key, a signature verifies if and only if signing the message with some nonce gives this very signature. |
| `Kgc.VerifiedWasSigned` | endpoints/kgc/user/user.go:255-277 | The nonce is recovered from the signature, and signing with it succeeds. |
| `Kgc.SignFailsIff` | endpoints/kgc/user/user.go:181-218 | Signing fails exactly for the nonces whose point gives r = 0, or whose s is 0 modulo the order. |
| `Kgc.SignatureBytesVerifyIffSigned` | endpoints/kgc/user/user.go:230-278 | For a generated key whose X fills its width, any signature bytes verify if and only if their halves are what signing with some nonce gives. |
| `Kgc.SignatureSplitsIffBalanced` | endpoints/kgc/user/user.go:230-278 | Splitting in the middle recovers r and s if and only if s has as many bytes as r, or one more. |
| `Kgc.LopsidedSignatureSplitsWrong` | endpoints/kgc/user/user.go:230-278 | A signature whose halves are taken for other numbers. |
| `Kgc.SignedMessageVerifies` | endpoints/kgc/user/user.go:82-278 | From key generation over signing to verification against the declared key, under those two conditions. |
| `Kgc.OverCurveIsLawful` | endpoints/kgc/curve/curve.go:33-142 | A system over the repository's own curve type meets all the laws that the key and signature theorems need. |
| `Kgc.ScalarMultOfNumber` | endpoints/kgc/curve/curve.go:121-142 | ScalarMult on a number's bytes is the multiple by that number. |
| `Kgc.SystemOverCurveExists` | endpoints/kgc/curve/curve.go:33-142 | There is such a system. |
| `Kgc.UserImpl.Times` | endpoints/kgc/curve/curve.go:121-142 | On points of the curve the scalar multiplication never panics and is the multiple. |
| `Kgc.UserImpl.Plus` | endpoints/kgc/curve/curve.go:61-119 | The same for the addition. |
| `Kgc.UserImpl.GeneratePartialKey` | endpoints/kgc/kgc.go:115-161 | The partial key computed with the curve's operations is the specified one. |
| `Kgc.UserImpl.CalculateFullPublicKey` | endpoints/kgc/user/user.go:100-146 | For any bytes, the full public key or the panic of the curve's operations. |
| `Kgc.UserImpl.CheckFullKey` | endpoints/kgc/user/user.go:153-171 | The same for the check of a full key. |
| `Kgc.UserImpl.SignMessage` | endpoints/kgc/user/user.go:181-218 | The same for signing. |
| `Kgc.UserImpl.VerifyMessage` | endpoints/kgc/user/user.go:230-278 | The same for verifying: refusal of numbers out of range first, then the curve's operations, panics included. |
| `Kgc.PublicKeyAgrees` | endpoints/kgc/user/user.go:100-146 | For a declared key that splits into a point of the curve nothing panics, and the key is the declared one plus lambda times the master key. |
| `Kgc.FullKeyAgrees` | endpoints/kgc/user/user.go:153-171 | For such a key the check has the specified verdict. |
| `Kgc.VerifyAgrees` | endpoints/kgc/user/user.go:230-278 | For such a key and any signature verifying has the specified verdict. |
| `Kgc.ShortKeyPanics` | endpoints/kgc/user/user.go:100-146 | A declared key shorter than one coordinate makes verifying panic, unless the signature is out of range. |
| `Kgc.IssueSignVerify` | endpoints/kgc/user/user.go:67-278 | Through the methods over CustomStandardCurve alone, with no test of its own: a key is issued, checked, used to sign, and the signature verified; both verdicts are positive if the declared X fills its width and the signature is balanced. |
| `Kgc.MinimalRoundTrip` | endpoints/kgc/user/user.go:82-146 | A number is read back from its bytes, which have no leading zero. |
| `Xdp.TrackRespectsExpiry` | nhp/ebpf/xdp/nhp_ebpf_xdp.c:223-226 | Over every run of packets, rule changes and evictions: a packet let through by tracking had an earlier packet with the same tuple that matched a rule not yet expired now, up to the time between two clock readings of that earlier run. |
| `Xdp.TrackedWasAdmitted` | nhp/ebpf/xdp/nhp_ebpf_xdp.c:403-511 | Every tracked connection was put there by a whitelisted packet and ends with its rule. |
| `Xdp.RunOnTrack` | nhp/ebpf/xdp/nhp_ebpf_xdp.c:329-511 | Only a rule match adds a connection, with a lifetime that does not underflow; no other packet ever extends one. |
| `Xdp.ReversedIsNeverTracked` | nhp/ebpf/xdp/nhp_ebpf_xdp.c:346-361 | The lookup of the reversed tuple never finds an entry. |
| `Xdp.SameTupleIff` | nhp/ebpf/xdp/nhp_ebpf_xdp.c:245-330 | Which packets share a tracked connection: without TCP or UDP, all between two hosts. |
| `Xdp.PassesWithoutRulesIff` | nhp/ebpf/xdp/nhp_ebpf_xdp.c:229-330 | With empty tables a packet passes if and only if it is ARP, IPv6, or well-formed IPv4 to ssh, for DHCP, from a DNS server, or an echo reply; nothing is stored. |
| `Xdp.NoTableMatters` | nhp/ebpf/xdp/nhp_ebpf_xdp.c:229-330 | Those packets pass whatever the tables hold, and leave them unchanged. |
| `Xdp.MalformedNeverPasses` | nhp/ebpf/xdp/nhp_ebpf_xdp.c:229-330 | Malformed and foreign frames are dropped whatever the tables hold. |
| `Xdp.FirstRuleDecides` | nhp/ebpf/xdp/nhp_ebpf_xdp.c:362-511 | For an untracked packet the first of its five keys with an expired or allowing entry decides: an expired entry is deleted and the packet dropped, an allowing one is tracked until it expires. |
| `Xdp.PassesByOneRuleIff` | nhp/ebpf/xdp/nhp_ebpf_xdp.c:362-511 | With a single allowing rule, an untracked packet that needs one passes if and only if the rule stands under one of its five keys and has not expired. |
| `Xdp.TrackedPassesUntilExpiry` | nhp/ebpf/xdp/nhp_ebpf_xdp.c:329-345 | A tracked packet passes exactly until its connection expires; then the connection is deleted, before that only its counter and last time change. |
| `Xdp.EchoRequestPasses` | nhp/ebpf/xdp/nhp_ebpf_xdp.c:291-327 | Echo requests are dropped without an entry of their own or with an expired one, which is deleted, and pass with an allowing one. |
| `Xdp.EgressAddsIff` | nhp/ebpf/xdp/tc_egress.c:40-99 | Which outgoing packets add an entry, and which one. |
| `Xdp.EgressAdmitsAnswers` | nhp/ebpf/xdp/tc_egress.c:40-99 | After an outgoing packet, an untracked answer passes exactly for 180 seconds and is tracked until the same moment. |
| `Xdp.XdpMaps.Lookup` | nhp/ebpf/xdp/nhp_ebpf_xdp.c:329-361 | One direction's lookup: deletes an expired entry, counts and passes otherwise. |
| `Xdp.XdpMaps.ConsultRules` | nhp/ebpf/xdp/nhp_ebpf_xdp.c:362-511 | The first expired or allowing entry decides, an expired one is deleted, an allowing one is tracked. |
| `Xdp.XdpMaps.FilterPacket` | nhp/ebpf/xdp/nhp_ebpf_xdp.c:326-511 | Forward lookup, reversed lookup, rules, in this order. |
| `Xdp.XdpMaps.XdpWhiteProg` | nhp/ebpf/xdp/nhp_ebpf_xdp.c:229-512 | The whole program: verdict and new maps for every packet. |
| `Transactions.AnsweredAtMostOnce` | nhp/core/transaction.go:115-198 | Over every interleaving, lookups and sends apart: at most one message; once the request is over, exactly one if and only if no step gave its answer up; and it is no longer in the map. |
| `Transactions.LostIffGivenUp` | nhp/core/device.go:469-487 | An answer is lost exactly if some step of the run met a full queue, a stopped device, or a type that expects no reply. |
| `Transactions.CrashIffLeftBehind` | nhp/core/transaction.go:144-155 | Over every run that has come to an end: the process has panicked on a closed channel if and only if at some time a routine had looked a transaction up and the transaction left its wait before the routine's send went through. |
| `Transactions.StepCrashesIff` | endpoints/server/udpserver.go:586-595 | A step panics exactly if it is the send of such a routine. |
| `Transactions.LeftBehindStays` | endpoints/agent/msghandler.go:30-37 | Such a routine is still there in every later state before the crash. |
| `Transactions.CrashedHadLeftBehind` | nhp/core/transaction.go:144-155 | Every crash goes back to such a routine. |
| `Transactions.LateReplyCrashes` | nhp/core/transaction.go:137-198 | A run of eight steps that crashes: a reply is looked up, the wait times out, the reply is sent on. |
| `Transactions.OverMeansDone` | nhp/core/transaction.go:137-198 | A run that is over without a crash has left no request and no routine waiting. |
| `Transactions.InvariantHolds` | nhp/core/transaction.go:115-198 | Sent plus owed plus given up is one for every request, and map and routines hold only known transactions, in every reachable state. |
| `Transactions.NextKeepsBalance` | nhp/core/device.go:190-261 | Every step keeps that sum. |
| `Transactions.NextKeepsTable` | nhp/core/transaction.go:115-198 | Every step keeps the map's entries under their own ids and not yet over. |
| `Transactions.StepsUseUpWork` | nhp/core/transaction.go:137-198 | Every step that touches a request uses up some of its finite work. |
| `Transactions.WorkCanGoOn` | nhp/core/transaction.go:137-198 | As long as a request has work left, a step is enabled that takes it on; with the row before, every request can come to an end. |
| `Transactions.RepliesFindTheirRequest` | nhp/core/transaction.go:125-135 | A request in the map's care whose id is its own is found by its reply. |
| `Transactions.FindableIffNotDisplaced` | nhp/core/transaction.go:115-155 | Over every run: a request in the map's care is found by its reply if and only if no other request with its id has entered the map, or removed the entry, since it entered. |
| `Transactions.CollidingIdsHideARequest` | nhp/core/transaction.go:27-58 | A run in which two requests share an id, as a reply that is itself a request can with its peer's, and the end of one hides the other, which then waits in vain. |
| `Transactions.Device.AddLocalTransaction` | nhp/core/transaction.go:115-123 | The request enters the map and starts to wait. |
| `Transactions.Device.FindLocalTransaction` | nhp/core/transaction.go:125-135 | What is found runs under the id and has not left the map; after every run, a request in the map's care is what its id finds exactly if no other has displaced it. |
| `Transactions.Device.LookUp` | endpoints/server/udpserver.go:588-595 | A routine that finds a transaction holds it from then on, and nothing else changes; one that finds none has missed only displaced requests. |
| `Transactions.Device.Select` | nhp/core/transaction.go:164-197 | What a send or a failure does to the request that waits for it. |
| `Transactions.Device.Close` | nhp/core/transaction.go:148-150 | The channels are closed before the entry leaves the map. |
| `Transactions.Device.RemoveLocalTransaction` | nhp/core/transaction.go:152-154 | The entry leaves the map. |
| `Transactions.Device.ReportError` | nhp/core/transaction.go:157-161 | Then an error is reported, if there was one. |
| `Transactions.Device.Run` | nhp/core/transaction.go:137-198 | From select to end without anything in between: the request has its one message, or its reply is queued, or the full queue has dropped it, exactly by what woke it; its id is free and no other request has changed. |
| `Admission.OverloadFollowsConnections` | endpoints/server/udpserver.go:433-497 | In every reachable state, overload means more connections than the threshold, and two above the threshold mean overload. |
| `Admission.OverloadInNumbers` | endpoints/server/udpserver.go:445-446 | The same with the threshold of 16384. |
| `Admission.NextKeepsOverload` | endpoints/server/udpserver.go:433-497 | Every step keeps that relation. |
| `Admission.FlagDownAboveThreshold` | endpoints/server/udpserver.go:444-452 | A reachable state with one connection above the threshold and the flag down. |
| `Admission.FlagUpAboveThreshold` | endpoints/server/udpserver.go:541-547 | A reachable state with as many connections and the flag up. |
| `Admission.CleanUpRemovesOwnEntry` | endpoints/server/udpserver.go:541-549 | A closing connection, which removes by address, only ever removes its own entry. |
| `Admission.ConnectionsAreUnlimited` | endpoints/server/udpserver.go:445-452 | Any number of connections is reachable: the limit is not enforced. |
| `Admission.UdpServer.FindConnection` | endpoints/server/udpserver.go:433-441 | The lookup for a packet's address. |
| `Admission.UdpServer.CheckForRoom` | endpoints/server/udpserver.go:443-452 | Sets the flag above the threshold; never discards. |
| `Admission.UdpServer.AddConnection` | endpoints/server/udpserver.go:484-496 | The new connection's entry and routine. |
| `Admission.UdpServer.RemoveConnection` | endpoints/server/udpserver.go:541-547 | The entry goes, and the flag with it at the threshold. |
| `Admission.UdpServer.RecvPacket` | endpoints/server/udpserver.go:433-497 | With nothing in between, a packet's address has a connection afterwards, an existing one stays, and the flag goes up exactly for a new one above the threshold. |
| `Admission.UdpServer.Close` | endpoints/server/udpserver.go:541-549 | A closing connection leaves exactly the others, and the flag up only if it was and they are still above the threshold. |
| `AcConnections.EntryIsLatest` | endpoints/server/msghandler.go:220-231 | In every run, an entry is the connection of the latest announcement of its id. |
| `AcConnections.EntryStaysUntilItsConnectionCloses` | endpoints/server/udpserver.go:509-526 | In every run, it stays until that very connection closes, so the end of an older one never removes it. |
| `AcConnections.CleanupIsCompleteIff` | endpoints/server/udpserver.go:509-526 | Nothing of a closed connection is left exactly if it served at most one id; other connections keep all of theirs. |
| `AcConnections.CleanupLeavesOneBehind` | endpoints/server/udpserver.go:509-526 | A run in which a closed connection stays in the map. |
| `AcConnections.AcServer.HandleACOnline` | endpoints/server/msghandler.go:220-231 | The connection serves the id from now on, as its latest announcement; every other connection loses at most this id. |
| `AcConnections.AcServer.FindAC` | endpoints/server/udpserver.go:1041-1043 | What is found is the connection of the id's latest announcement; nothing is found only if no connection serves the id. |
| `AcConnections.AcServer.CleanUp` | endpoints/server/udpserver.go:515-526 | For every iteration order of the map: other connections keep all their ids, and nothing of this one is left exactly if it served at most one. |
| `Cidr.IncrementIsAddition` | endpoints/ac/msghandler.go:877-884 | Incrementing is addition of one on the big-endian number, modulo the address space. |
| `Cidr.IncrementIP` | endpoints/ac/msghandler.go:877-884 | The loop over the bytes increments in place. |
| `Cidr.VisitBlock` | endpoints/ac/msghandler.go:314-316 | For every prefix length of at least 1 the enumeration ends, also at the top of the address space, and visits the block's addresses once each and in order: all of them, or those before the IPv4-mapped range. |
| `Cidr.WholeBlockIff` | endpoints/ac/msghandler.go:314-316 | The whole block is visited if and only if it is not the one IPv6 block with a prefix below 96 that contains the IPv4-mapped range. |
| `Cidr.MappedIffPrefix` | endpoints/ac/msghandler.go:314-316 | The mapped addresses are those that begin with ten zero bytes and two of 255. |
| `Cidr.KindsInBlock` | endpoints/ac/msghandler.go:314-316 | The addresses of a block are of the kind of its first exactly up to that range. |
| `Cidr.ContainsWithin` | endpoints/ac/msghandler.go:314-316 | The loop condition after i increments holds exactly while i is below the number of addresses that are visited. |
| `Cidr.UsedBlocks` | endpoints/ac/msghandler.go:308-377 | The blocks in use have 128 addresses. |
| `Cidr.PrefixZeroContainsAll` | endpoints/ac/msghandler.go:314-316 | Without a prefix the block contains every address that is not IPv4-mapped. |
| `Cidr.PrefixZeroEndsIff` | endpoints/ac/msghandler.go:314-316 | So with prefix 0 the loop condition can fail for IPv6 only, and the enumeration of all IPv4 addresses would not end. |

## Left out

- The insides of SM2, SM3, SM4, Curve25519, AES-GCM, Blake2s, zlib, base64 and JSON: functions with laws, or left away.
- Secrecy and unforgeability: the theorems say what is recovered and refused, not what an attacker could compute.
- I/O: sockets, files on disk, logging, configuration, HTTP, WebRTC, etcd, plugins, iptables and ipset.
- Scheduling below the sections that run under one lock, and the worker pools of the device.
- Connections over WebRTC, and the table of data brokers, which is handled like that of access controllers.
- Remote transactions, and requests without a response channel, which have nothing to count.
- Keepalive packets, packet buffer pools, the token stores and the generation of session ids.
- HandshakeObjects.PacketParser.DecryptBody: does not model that the plaintext reuses the packet's own buffer.
- TagCodec.Decoder.UnmarshalElements: an element of no bytes that asks for more is a failure, where Go would loop for ever; concurrent parses that share the two global variables are outside.
- Ztdo.ZtdoObject.DecryptZtdoFile: says nothing about the header after a header that cannot be parsed, or the part of the plaintext that is written before an error.
- Scalar.CurveIsAbelian: associativity of point addition is an assumption, as is the absence of points with y = 0.
- Kgc.FullKeyEquation: the shared hash object is a function, and `KGCImpl.Params`, which calls itself, is taken to mean the curve's parameters; OfficialSM2Curve is a library, and enters only as a group with the same laws.
- Kgc.SignedMessageVerifies: does not exclude that a key or signature that splits wrongly is accepted by accident.
- Xdp.TrackRespectsExpiry: rules change in any way between packets; how user space encodes their keys is not part of the model.
- Certificate checks, key broker endpoints, storage, mobile and desktop samples: plumbing, or easy members only.
