/**
 The NHP handshake of nhp/core/initiator.go and nhp/core/responder.go, as functions on byte strings:
 what one side writes into the packet buffer, and what the other side makes of it.
 */
module Handshake {
  import opened Bytes
  import opened Primitives
  import opened PacketLayout
  import Connection

  function Ascii(s: string): bytes {
    seq(|s|, i requires 0 <= i < |s| => s[i] as int % 256)
  }

  const INITIAL_CHAIN_KEY: bytes := Ascii("NHP keygen v.20230421@clouddeep.cn")
  const INITIAL_HASH: bytes := Ascii("NHP hashgen v.20230421@deepcloudsdp.com")

  const NHP_KPL: nat := 0
  const NHP_KNK: nat := 1
  const NHP_RKN: nat := 8
  const DHP_KNK: nat := 27

  // ---- Sender ----

  /** MsgAssemblerData: the packet buffer, what the two running hashes have been fed, and the keys. */
  datatype Assembly = Assembly(buf: bytes, hmacIn: bytes, chainIn: bytes, chainKey: bytes, bodyKey: bytes)

  /** What a message is assembled from; ephemeralSk, initTime and preamble are the random source and the clock. */
  datatype Outgoing = Outgoing(
    deviceSk: bytes, ephemeralSk: bytes, remotePk: Option<bytes>, initTime: int64, preamble: nat,
    headerType: nat, trxId: uint64, message: bytes, compress: bool, clPkc: bool, cookie: bytes)

  datatype SendError = EmptyPeerPublicKey | BadPeerPublicKey | EphemeralEcdhFailed | DeviceEcdhFailed | TooLong

  datatype Sent<+T> = Ok(value: T) | Err(error: SendError)

  ghost predicate WellFormed(c: Suite, m: Outgoing, buf: bytes) {
    && |buf| == PACKET_BUFFER_SIZE
    && m.preamble < U32
    && m.headerType < U16
    && Lawful(c)
  }

  /** The chain key of a new exchange. */
  function FirstChainKey(c: Suite): bytes {
    KeyGen1Value(c, c.hash(INITIAL_HASH), INITIAL_CHAIN_KEY)
  }

  /** createMsgAssemblerData: a new message also gets its version, a reply continues with a chain key. */
  function Begin(c: Suite, m: Outgoing, buf: bytes, chainKey: Option<bytes>): (r: Assembly)
    requires WellFormed(c, m, buf)
    ensures |r.buf| == |buf|
  {
    var b1 := if chainKey.None? then SetVersion(buf) else buf;
    var b2 := SetCounter(b1, m.trxId);
    var b3 := Splice(b2, HEADER_COMMON_SIZE, c.pub(m.ephemeralSk));
    Assembly(b3, INITIAL_HASH, INITIAL_HASH,
             if chainKey.None? then FirstChainKey(c) else chainKey.value, Zeros(SYMMETRIC_KEY_SIZE))
  }

  /** setPeerPublicKey: two Diffie-Hellman results, the sealed static key and the sealed time. */
  function SetPeerPublicKey(c: Suite, m: Outgoing, x: Assembly): (r: Sent<Assembly>)
    requires WellFormed(c, m, x.buf)
    ensures r.Ok? ==> |r.value.buf| == |x.buf|
  {
    if m.remotePk.None? then Err(EmptyPeerPublicKey)
    else if |m.remotePk.value| != PublicKeySize(c.scheme) then Err(BadPeerPublicKey)
    else
      var pk, ephemeralPk := m.remotePk.value, c.pub(m.ephemeralSk);
      var ess, ss := c.dh(m.ephemeralSk, pk), c.dh(m.deviceSk, pk);
      if ess.None? then Err(EphemeralEcdhFailed)
      else if ss.None? then Err(DeviceEcdhFailed)
      else
        var nonce := Nonce(x.buf);
        var chain1 := x.chainIn + pk + ephemeralPk;
        var (key2, staticKey) := KeyGen2Value(c, KeyGen1Value(c, x.chainKey, ephemeralPk), ess.value);
        var sealedPk := c.seal(staticKey, nonce, c.pub(m.deviceSk), c.hash(chain1));
        var chain2 := chain1 + sealedPk;
        var (key3, timeKey) := KeyGen2Value(c, key2, ss.value);
        var time := c.seal(timeKey, nonce, BigEndian(AsUint64(m.initTime), TIMESTAMP_SIZE), c.hash(chain2));
        var (key4, bodyKey) := KeyGen2Value(c, key3, time);
        assert |BigEndian(AsUint64(m.initTime), TIMESTAMP_SIZE)| == TIMESTAMP_SIZE;
        Ok(Assembly(Splice(Splice(x.buf, StaticAt(c.scheme), sealedPk), TimestampAt(c.scheme), time),
                    x.hmacIn + pk, chain2 + time, key4, bodyKey))
  }

  /** What addHMAC sums besides the header: RKN always carries the cookie. */
  function SentTail(m: Outgoing): bytes {
    if m.headerType == NHP_RKN then m.cookie else []
  }

  function AddHmac(c: Suite, m: Outgoing, hmacIn: bytes, buf: bytes): (r: bytes)
    requires |buf| == PACKET_BUFFER_SIZE && SizesHold(c)
    ensures |r| == |buf|
  {
    var mac := c.hash(hmacIn + buf[..HmacAt(c.scheme)] + SentTail(m));
    assert |mac| == HASH_SIZE;
    Splice(buf, HmacAt(c.scheme), mac)
  }

  function BodyOf(c: Suite, m: Outgoing): bytes {
    if m.compress then c.compress(m.message) else m.message
  }

  function SentFlag(m: Outgoing): nat {
    (if m.compress then 2 else 0) + (if m.clPkc then 4 else 0)
  }

  /** encryptBody: an empty message keeps whatever flags the buffer had. The result is the packet content. */
  function EncryptBody(c: Suite, m: Outgoing, x: Assembly): Sent<bytes>
    requires WellFormed(c, m, x.buf)
  {
    var size := HeaderSize(c.scheme);
    if m.message == [] then
      Ok(AddHmac(c, m, x.hmacIn, SetTypeAndSize(x.buf, m.headerType, 0, m.preamble))[..size])
    else
      var body := BodyOf(c, m);
      var bodySize := |body| + GCM_TAG_SIZE;
      if bodySize > PACKET_BUFFER_SIZE - size then Err(TooLong)
      else
        var header := AddHmac(c, m, x.hmacIn,
          SetTypeAndSize(SetFlag(x.buf, c.scheme, SentFlag(m)), m.headerType, bodySize, m.preamble));
        Ok(header[..size] + c.seal(x.bodyKey, Nonce(header), body, c.hash(x.chainIn)))
  }

  /** MsgToPacket: the whole way from a message to the packet content. */
  function Send(c: Suite, m: Outgoing, buf: bytes, chainKey: Option<bytes>): Sent<bytes>
    requires WellFormed(c, m, buf)
  {
    var x := SetPeerPublicKey(c, m, Begin(c, m, buf, chainKey));
    if x.Err? then Err(x.error) else EncryptBody(c, m, x.value)
  }

  // ---- Receiver ----

  datatype DeviceType = NoDevice | Agent | Server | Ac | Relay | Db | DhpAgent

  /** CheckRecvHeaderType. */
  predicate MayReceive(d: DeviceType, t: nat) {
    match d
    case Agent => t in {2, 6, 7, 14, 20, 21}
    case Server => t in {13, 1, 27, 5, 8, 16, 4, 9, 10, 12, 17, 19, 22, 25, 24}
    case Ac => t in {3, 6, 11}
    case Relay => t in {13, 1, 2, 5, 6, 7, 8, 16}
    case Db => t in {17, 20, 18, 26, 23}
    case _ => false
  }

  /** HeaderTypeToDeviceType. */
  function SenderType(t: nat): DeviceType {
    if t in {1, 5, 8, 12, 13, 15, 16} then Agent
    else if t in {2, 3, 6, 7, 11, 14, 18, 20, 26, 23, 21} then Server
    else if t in {10, 4} then Ac
    else if t == 9 then Relay
    else if t in {17, 25, 24} then Db
    else if t in {19, 22, 27} then DhpAgent
    else NoDevice
  }

  /** shouldCheckRecvAttack, negated. */
  predicate Exempt(d: DeviceType, t: nat) {
    || (d.Server? && SenderType(t).Ac? && t == 4)
    || (d.Ac? && SenderType(t).Server? && t == 3)
  }

  predicate AllowedAtOverload(t: nat) {
    t in {NHP_KNK, DHP_KNK, NHP_RKN, 16, 10, 4}
  }

  /** The validation switches; NoDevice senders are never validated. */
  datatype Options = Options(
    disableAgent: bool, disableServer: bool, disableAc: bool, disableRelay: bool, disableDe: bool)

  predicate Validates(o: Options, t: nat) {
    match SenderType(t)
    case Agent => !o.disableAgent
    case Server => !o.disableServer
    case Ac => !o.disableAc
    case Relay => !o.disableRelay
    case Db => !o.disableDe
    case DhpAgent => !o.disableAgent
    case NoDevice => false
  }

  const MINIMAL_PEER_ADDRESS_HOLD_TIME: int := 5 * Connection.SECOND

  /** expireTime is in seconds, and 0 for a peer that never expires. */
  datatype Peer = Peer(expireTime: int, lastRecvTime: int, recvAddr: string)

  datatype ReceiveError =
    | TooShort | BadKeepalive | TypeNotAllowed | BadTotalSize
    | ServerOverload | HmacCheckFailed
    | EphemeralSecretFailed | StaticOpenFailed
    | PeerNotFound | PeerExpired | PeerAddressMismatch
    | PeerSecretFailed | TimeOpenFailed
    | ReplayPacket | FloodPacket | StalePacket
    | RejectedWithCookie
    | BodyOpenFailed | DecompressionFailed

  /** The peer pool's verdict on a sender's key; wallMs is the clock in milliseconds. */
  function PeerError(peers: map<bytes, Peer>, pk: bytes, wallMs: int, now: int, addr: string): Option<ReceiveError> {
    if pk !in peers then Some(PeerNotFound)
    else
      var p := peers[pk];
      if p.expireTime > 0 && wallMs > p.expireTime * 1000 then Some(PeerExpired)
      else if now > p.lastRecvTime + MINIMAL_PEER_ADDRESS_HOLD_TIME || p.recvAddr == addr then None
      else Some(PeerAddressMismatch)
  }

  /** Everything a receiving device brings to a packet besides its private key. */
  datatype Receiver = Receiver(
    deviceType: DeviceType, options: Options, peers: map<bytes, Peer>, overload: bool,
    guard: Connection.Guard, cookies: Connection.CookieStore, addr: string, wallMs: int, now: int64)

  /** PacketParserData after createPacketParserData, and after validatePeer. */
  datatype Parser = Parser(chainIn: bytes, chainKey: bytes, bodyKey: bytes)

  datatype Received = Received(remotePk: bytes, sendTime: int64, trxId: nat, headerType: nat, message: bytes)

  datatype Result<+T> = Good(value: T) | Bad(error: ReceiveError)

  /** RecvPrecheck behind the length check of the receive loops. A keepalive carries no message. */
  function Precheck(d: DeviceType, content: bytes): Result<(nat, nat)> {
    if |content| < MINIMAL_LENGTH then Bad(TooShort)
    else
      var (t, s) := TypeAndSize(content);
      if t == NHP_KPL then (if s == 0 then Good((t, s)) else Bad(BadKeepalive))
      else if !MayReceive(d, t) then Bad(TypeNotAllowed)
      else if |content| != HeaderSize(SchemeOf(Flag(content))) + s then Bad(BadTotalSize)
      else Good((t, s))
  }

  /** What checkHMAC sums besides the header: only a server under overload expects RKN's cookie. */
  function ExpectedTail(r: Receiver, t: nat): bytes {
    if r.deviceType.Server? && r.overload && t == NHP_RKN then Connection.Expected(r.cookies, r.now) else []
  }

  predicate CheckHmac(c: Suite, sk: bytes, content: bytes, tail: bytes)
    requires |content| >= HeaderSize(c.scheme)
  {
    c.hash(INITIAL_HASH + c.pub(sk) + content[..HmacAt(c.scheme)] + tail) == HmacField(c.scheme, content)
  }

  function AsInt64(u: nat): int64
    requires u < U64
  {
    if u > I64_MAX then u - U64 else u
  }

  /** The first half of validatePeer: the sender's static key. */
  function OpenStatic(c: Suite, sk: bytes, content: bytes, x: Parser): (r: Result<(bytes, Parser)>)
    requires |content| >= HeaderSize(c.scheme)
  {
    var ephemeralPk, sealedPk := Ephemeral(c.scheme, content), Static(c.scheme, content);
    var ess := c.dh(sk, ephemeralPk);
    if ess.None? then Bad(EphemeralSecretFailed)
    else
      var chain1 := x.chainIn + c.pub(sk) + ephemeralPk;
      var (key2, staticKey) := KeyGen2Value(c, KeyGen1Value(c, x.chainKey, ephemeralPk), ess.value);
      var pk := c.open(staticKey, Nonce(content), sealedPk, c.hash(chain1));
      if pk.None? then Bad(StaticOpenFailed)
      else Good((Fit(pk.value, PublicKeySize(c.scheme)), Parser(chain1 + sealedPk, key2, x.bodyKey)))
  }

  /** The second half: the sender's time, and the keys for the body. */
  function OpenTime(c: Suite, sk: bytes, pk: bytes, content: bytes, x: Parser): (r: Result<(int64, Parser)>)
    requires |content| >= HeaderSize(c.scheme)
  {
    var ss, time := c.dh(sk, pk), Timestamp(c.scheme, content);
    if ss.None? then Bad(PeerSecretFailed)
    else
      var (key3, timeKey) := KeyGen2Value(c, x.chainKey, ss.value);
      var ts := c.open(timeKey, Nonce(content), time, c.hash(x.chainIn));
      if ts.None? then Bad(TimeOpenFailed)
      else
        var (key4, bodyKey) := KeyGen2Value(c, key3, time);
        var fit := Fit(ts.value, TIMESTAMP_SIZE);
        PowersOfWords();
        Good((AsInt64(FromBigEndian(fit)), Parser(x.chainIn + time, key4, bodyKey)))
  }

  /** The verdicts between the two halves of the packet: peer pool, send time, overload. */
  function Admission(r: Receiver, t: nat, sendTime: int64): Option<ReceiveError> {
    match Connection.Judge(r.guard.last, Connection.Arrival(sendTime, r.now, Exempt(r.deviceType, t)))
    case Replay => Some(ReplayPacket)
    case Flood => Some(FloodPacket)
    case Stale => Some(StalePacket)
    case Pass =>
      if r.deviceType.Server? && r.overload && (t == NHP_KNK || t == DHP_KNK) then Some(RejectedWithCookie) else None
  }

  /** validatePeer. */
  function ValidatePeer(c: Suite, sk: bytes, r: Receiver, content: bytes, x: Parser): Result<(bytes, int64, Parser)>
    requires |content| >= HeaderSize(c.scheme)
  {
    var t := TypeAndSize(content).0;
    match OpenStatic(c, sk, content, x)
    case Bad(e) => Bad(e)
    case Good((pk, x1)) =>
      var peerError := if Validates(r.options, t) then PeerError(r.peers, pk, r.wallMs, r.now, r.addr) else None;
      if peerError.Some? then Bad(peerError.value)
      else
        match OpenTime(c, sk, pk, content, x1)
        case Bad(e) => Bad(e)
        case Good((sendTime, x2)) =>
          var refused := Admission(r, t, sendTime);
          if refused.Some? then Bad(refused.value) else Good((pk, sendTime, x2))
  }

  /** decryptBody; content of bare header size has no body. */
  function DecryptBody(c: Suite, content: bytes, x: Parser): Result<bytes>
    requires |content| >= HeaderSize(c.scheme)
  {
    var size := HeaderSize(c.scheme);
    if |content| == size then Good([])
    else
      var body := c.open(x.bodyKey, Nonce(content), content[size..], c.hash(x.chainIn));
      if body.None? then Bad(BodyOpenFailed)
      else if !Compressed(Flag(content)) then Good(body.value)
      else
        var message := c.decompress(body.value);
        if message.None? then Bad(DecompressionFailed) else Good(message.value)
  }

  /** Parsing under a suite, from a chain key: a new exchange, or the reply to one's own message. */
  function Parse(c: Suite, sk: bytes, r: Receiver, content: bytes, chainKey: Option<bytes>): Result<Received>
    requires |content| >= HeaderSize(c.scheme)
  {
    var t := TypeAndSize(content).0;
    if r.deviceType.Server? && r.overload && !AllowedAtOverload(t) then Bad(ServerOverload)
    else if !CheckHmac(c, sk, content, ExpectedTail(r, t)) then Bad(HmacCheckFailed)
    else
      var x := Parser(INITIAL_HASH, if chainKey.None? then FirstChainKey(c) else chainKey.value,
                      Zeros(SYMMETRIC_KEY_SIZE));
      match ValidatePeer(c, sk, r, content, x)
      case Bad(e) => Bad(e)
      case Good((pk, sendTime, x')) =>
        match DecryptBody(c, content, x')
        case Bad(e) => Bad(e)
        case Good(message) => Good(Received(pk, sendTime, Counter(content), t, message))
  }

  /** The reply to one's own message is parsed under that message's suite, behind the same precheck. */
  function ReceiveReply(c: Suite, sk: bytes, r: Receiver, content: bytes, chainKey: bytes): Result<Received>
    requires |content| >= HeaderSize(c.scheme)
  {
    match Precheck(r.deviceType, content)
    case Bad(e) => Bad(e)
    case Good(_) => Parse(c, sk, r, content, Some(chainKey))
  }

  /** A new packet chooses its suite by its own flags. */
  function Receive(suites: Scheme -> Suite, sk: bytes, r: Receiver, content: bytes): Result<Received>
    requires forall s :: suites(s).scheme == s
  {
    match Precheck(r.deviceType, content)
    case Bad(e) => Bad(e)
    case Good((t, s)) =>
      if t == NHP_KPL then Good(Received([], 0, 0, NHP_KPL, []))
      else Parse(suites(SchemeOf(Flag(content))), sk, r, content, None)
  }
}
