/** The objects behind the handshake: the in-place packet buffer, running hashes and keys of both sides. */
module HandshakeObjects {
  import opened Bytes
  import opened Primitives
  import opened PacketLayout
  import opened Handshake
  import opened HandshakeProofs
  import opened Connection

  /** Copies s into the buffer from offset off. */
  method Put(buf: array<byte>, off: nat, s: bytes)
    requires off + |s| <= buf.Length
    modifies buf
    ensures buf[..] == Splice(old(buf[..]), off, s)
  {
    forall i | 0 <= i < |s| {
      buf[off + i] := s[i];
    }
  }

  /** MsgAssemblerData. The hash objects are kept as the bytes written to them. */
  class MsgAssembler {
    const suite: Suite
    const data: Outgoing
    const buf: array<byte>
    const chainKey: array<byte>
    const bodyKey: array<byte>
    var hmacHash: bytes
    var chainHash: bytes

    ghost predicate Valid()
      reads this, buf
    {
      && WellFormed(suite, data, buf[..])
      && chainKey.Length == bodyKey.Length == SYMMETRIC_KEY_SIZE
      && buf != chainKey && buf != bodyKey && chainKey != bodyKey
    }

    function View(): Assembly
      reads this, buf, chainKey, bodyKey
    {
      Assembly(buf[..], hmacHash, chainHash, chainKey[..], bodyKey[..])
    }

    /** createMsgAssemblerData; continued is the chain key of the received packet that this one answers. */
    constructor (suite: Suite, data: Outgoing, buf: array<byte>, continued: Option<bytes>)
      requires WellFormed(suite, data, buf[..])
      requires continued.Some? ==> |continued.value| == SYMMETRIC_KEY_SIZE
      modifies buf
      ensures Valid() && this.suite == suite && this.data == data && this.buf == buf
      ensures fresh(chainKey) && fresh(bodyKey)
      ensures View() == Begin(suite, data, old(buf[..]), continued)
    {
      hide KeyGen1Value, Splice, BigEndian, INITIAL_HASH, INITIAL_CHAIN_KEY;
      this.suite, this.data, this.buf := suite, data, buf;
      hmacHash, chainHash := INITIAL_HASH, INITIAL_HASH;
      chainKey := new byte[SYMMETRIC_KEY_SIZE](_ => 0);
      bodyKey := new byte[SYMMETRIC_KEY_SIZE](_ => 0);
      new;
      if continued == None {
        Put(buf, 8, [1, 0]);
        var sum := suite.hash(chainHash);
        var sumArray := new byte[|sum|](i requires 0 <= i < |sum| => sum[i]);
        assert sumArray[..] == sum;
        KeyGen1(suite, chainKey, sumArray, INITIAL_CHAIN_KEY);
      } else {
        SpliceAll(chainKey[..], continued.value);
        Put(chainKey, 0, continued.value);
      }
      Put(buf, 16, BigEndian(data.trxId, 8));
      Put(buf, HEADER_COMMON_SIZE, suite.pub(data.ephemeralSk));
      assert bodyKey[..] == Zeros(SYMMETRIC_KEY_SIZE);
    }

    method SetPeerPublicKey() returns (error: Option<SendError>)
      requires Valid()
      modifies this, buf, chainKey, bodyKey
      ensures Valid()
      ensures match Handshake.SetPeerPublicKey(suite, data, old(View()))
              case Ok(x) => error == None && View() == x
              case Err(e) => error == Some(e)
    {
      hide KeyGen1Value, KeyGen2Value, Splice, BigEndian, AgreementHolds;
      ghost var before := View();
      if data.remotePk == None { return Some(EmptyPeerPublicKey); }
      var pk, ephemeralPk := data.remotePk.value, suite.pub(data.ephemeralSk);
      if |pk| != PublicKeySize(suite.scheme) { return Some(BadPeerPublicKey); }
      hmacHash := hmacHash + pk;
      chainHash := chainHash + pk;
      chainHash := chainHash + ephemeralPk;
      KeyGen1(suite, chainKey, chainKey, ephemeralPk);
      var ess := suite.dh(data.ephemeralSk, pk);
      if ess == None { return Some(EphemeralEcdhFailed); }
      var key := new byte[SYMMETRIC_KEY_SIZE];
      KeyGen2(suite, chainKey, key, chainKey, ess.value);
      var sealedPk := suite.seal(key[..], Nonce(buf[..]), suite.pub(data.deviceSk), suite.hash(chainHash));
      NonceKept(buf[..], StaticAt(suite.scheme), sealedPk);
      Put(buf, StaticAt(suite.scheme), sealedPk);
      chainHash := chainHash + sealedPk;
      var ss := suite.dh(data.deviceSk, pk);
      if ss == None { return Some(DeviceEcdhFailed); }
      KeyGen2(suite, chainKey, key, chainKey, ss.value);
      var tsBytes := BigEndian(AsUint64(data.initTime), TIMESTAMP_SIZE);
      assert |tsBytes| == TIMESTAMP_SIZE;
      var time := suite.seal(key[..], Nonce(buf[..]), tsBytes, suite.hash(chainHash));
      Put(buf, TimestampAt(suite.scheme), time);
      chainHash := chainHash + time;
      KeyGen2(suite, chainKey, bodyKey, chainKey, time);
      error := None;
    }

    method AddHmac()
      requires Valid()
      modifies this`hmacHash, buf
      ensures Valid()
      ensures buf[..] == Handshake.AddHmac(suite, data, old(hmacHash), old(buf[..]))
    {
      hide Splice, AgreementHolds, SealingHolds;
      hmacHash := hmacHash + buf[..HmacAt(suite.scheme)];
      assert buf[..][..HmacAt(suite.scheme)] == buf[..HmacAt(suite.scheme)];
      if data.headerType == NHP_RKN {
        hmacHash := hmacHash + data.cookie;
      }
      assert hmacHash == old(hmacHash) + old(buf[..])[..HmacAt(suite.scheme)] + SentTail(data);
      var mac := suite.hash(hmacHash);
      assert |mac| == HASH_SIZE;
      Put(buf, HmacAt(suite.scheme), mac);
    }

    /** Whatever the outcome, the chain key is cleared: a later reply starts from zeros. */
    method EncryptBody() returns (r: Sent<bytes>)
      requires Valid()
      modifies this, buf, chainKey
      ensures Valid()
      ensures r == Handshake.EncryptBody(suite, data, old(View()))
      ensures chainKey[..] == Zeros(SYMMETRIC_KEY_SIZE)
    {
      hide Splice, MaskedWords, BigEndian, AgreementHolds, FlagWord, CompressionHolds;
      var size := HeaderSize(suite.scheme);
      if data.message == [] {
        Put(buf, 0, MaskedWords(data.headerType, 0, data.preamble));
        AddHmac();
        r := Ok(buf[..size]);
        assert buf[..][..size] == buf[..size];
      } else {
        var body := BodyOf(suite, data);
        var bodySize := |body| + GCM_TAG_SIZE;
        if bodySize > PACKET_BUFFER_SIZE - size {
          r := Err(TooLong);
        } else {
          var flagBytes := BigEndian(FlagWord(suite.scheme, SentFlag(data)), 2);
          assert |flagBytes| == 2;
          Put(buf, 10, flagBytes);
          Put(buf, 0, MaskedWords(data.headerType, bodySize, data.preamble));
          AddHmac();
          ghost var header := buf[..];
          var sealed := suite.seal(bodyKey[..], Nonce(buf[..]), body, suite.hash(chainHash));
          assert |sealed| == bodySize;
          Put(buf, size, sealed);
          SplicePrefix(header, size, sealed);
          r := Ok(buf[..size + bodySize]);
          assert buf[..][..size + bodySize] == buf[..size + bodySize];
        }
      }
      chainHash := [];
      SetZero(chainKey);
    }
  }

  lemma SpliceAll(buf: bytes, s: bytes)
    requires |buf| == |s|
    ensures Splice(buf, 0, s) == s
  {
  }

  lemma SplicePrefix(buf: bytes, off: nat, s: bytes)
    requires off + |s| <= |buf|
    ensures Splice(buf, off, s)[..off + |s|] == buf[..off] + s
  {
  }

  lemma NonceKept(buf: bytes, off: nat, s: bytes)
    requires HEADER_COMMON_SIZE <= off && off + |s| <= |buf|
    ensures Nonce(Splice(buf, off, s)) == Nonce(buf)
  {
    SpliceOutside(buf, off, s, 16, 24);
  }

  /** MsgToPacket. */
  method MsgToPacket(suite: Suite, data: Outgoing, buf: array<byte>, continued: Option<bytes>)
    returns (r: Sent<bytes>, chainKey: bytes)
    requires WellFormed(suite, data, buf[..])
    requires continued.Some? ==> |continued.value| == SYMMETRIC_KEY_SIZE
    modifies buf
    ensures r == Send(suite, data, old(buf[..]), continued)
    ensures r.Ok? ==> chainKey == Zeros(SYMMETRIC_KEY_SIZE)
  {
    hide Begin, Handshake.SetPeerPublicKey, Handshake.EncryptBody, Lawful;
    var mad := new MsgAssembler(suite, data, buf, continued);
    var error := mad.SetPeerPublicKey();
    if error.Some? { return Err(error.value), []; }
    r := mad.EncryptBody();
    chainKey := mad.chainKey[..];
  }

  /** The parts of Device that a parser uses. */
  class Device {
    const deviceType: DeviceType
    const options: Options
    var peers: map<bytes, Peer>
    var overload: bool

    constructor (deviceType: DeviceType, options: Options)
      ensures this.deviceType == deviceType && this.options == options && peers == map[] && !overload
    {
      this.deviceType, this.options, peers, overload := deviceType, options, map[], false;
    }
  }

  /** The errors of validatePeer that leave the connection as it is: the packet is not known to be genuine yet. */
  predicate BeforeTimeChecks(e: ReceiveError) {
    || e.EphemeralSecretFailed? || e.StaticOpenFailed? || e.PeerNotFound? || e.PeerExpired? || e.PeerAddressMismatch?
    || e.PeerSecretFailed? || e.TimeOpenFailed?
  }

  /** The errors that count as a threat. */
  predicate ByTimeChecks(e: ReceiveError) {
    e.ReplayPacket? || e.FloodPacket? || e.StalePacket?
  }

  predicate AfterTimeChecks(error: Option<ReceiveError>) {
    error.None? || error.value.RejectedWithCookie?
  }

  /** One more threat, clamped when it blocks the sender. */
  function Threat(count: int32, closed: bool): int32 {
    var t := WrapI32(count + 1);
    if t > THREAT_COUNT_BEFORE_BLOCK && !closed then THREAT_COUNT_BEFORE_BLOCK else t
  }

  lemma AdmissionIgnoresPeers(r: Receiver, r': Receiver, t: nat, sendTime: int64)
    requires r' == r.(peers := r'.peers, wallMs := r'.wallMs)
    ensures Admission(r, t, sendTime) == Admission(r', t, sendTime)
  {
  }

  lemma PeerErrorIsEarly(peers: map<bytes, Peer>, pk: bytes, wallMs: int, now: int, addr: string)
    ensures var e := PeerError(peers, pk, wallMs, now, addr); e.Some? ==> BeforeTimeChecks(e.value)
  {
  }

  /** PacketParserData over the content of a packet. */
  class PacketParser {
    const suite: Suite
    const sk: bytes
    const device: Device
    const conn: ConnectionData
    const content: bytes
    const now: int64
    const addr: string
    const chainKey: array<byte>
    const bodyKey: array<byte>
    var chainHash: bytes

    ghost predicate Valid()
      reads this
    {
      && |content| >= HeaderSize(suite.scheme) && SizesHold(suite)
      && chainKey.Length == bodyKey.Length == SYMMETRIC_KEY_SIZE && chainKey != bodyKey
    }

    function View(): Parser
      reads this, chainKey, bodyKey
    {
      Parser(chainHash, chainKey[..], bodyKey[..])
    }

    /** The receiving device as the functions see it; wallMs is the clock that peer expiry is checked by. */
    function ReceiverView(wallMs: int): Receiver
      reads this, device, conn
    {
      Receiver(device.deviceType, device.options, device.peers, device.overload, conn.GuardView(), conn.cookieStore,
               addr, wallMs, now)
    }

    constructor (suite: Suite, sk: bytes, device: Device, conn: ConnectionData, content: bytes, now: int64,
                 addr: string, continued: Option<bytes>)
      requires |content| >= HeaderSize(suite.scheme) && SizesHold(suite)
      requires continued.Some? ==> |continued.value| == SYMMETRIC_KEY_SIZE
      ensures Valid() && fresh(chainKey) && fresh(bodyKey)
      ensures this.suite == suite && this.sk == sk && this.device == device && this.conn == conn
      ensures this.content == content && this.now == now && this.addr == addr
      ensures View() == Parser(INITIAL_HASH, if continued.None? then FirstChainKey(suite) else continued.value,
                               Zeros(SYMMETRIC_KEY_SIZE))
    {
      hide KeyGen1Value, INITIAL_HASH, INITIAL_CHAIN_KEY;
      this.suite, this.sk, this.device, this.conn := suite, sk, device, conn;
      this.content, this.now, this.addr, chainHash := content, now, addr, INITIAL_HASH;
      chainKey := new byte[SYMMETRIC_KEY_SIZE](_ => 0);
      bodyKey := new byte[SYMMETRIC_KEY_SIZE](_ => 0);
      new;
      if continued == None {
        var sum := suite.hash(chainHash);
        var sumArray := new byte[|sum|](i requires 0 <= i < |sum| => sum[i]);
        assert sumArray[..] == sum;
        KeyGen1(suite, chainKey, sumArray, INITIAL_CHAIN_KEY);
      } else {
        SpliceAll(chainKey[..], continued.value);
        Put(chainKey, 0, continued.value);
      }
      assert bodyKey[..] == Zeros(SYMMETRIC_KEY_SIZE);
    }

    /** The overload rule and checkHMAC, which for RKN under overload sums a cookie. */
    method CheckPacket() returns (error: Option<ReceiveError>)
      requires Valid()
      ensures var r, t := ReceiverView(0), TypeAndSize(content).0;
              error == if r.deviceType.Server? && r.overload && !AllowedAtOverload(t) then Some(ServerOverload)
                       else if !CheckHmac(suite, sk, content, ExpectedTail(r, t)) then Some(HmacCheckFailed) else None
    {
      var t := TypeAndSize(content).0;
      var hmacHash := INITIAL_HASH + suite.pub(sk);
      var sumCookie := false;
      if device.deviceType.Server? {
        if device.overload && !AllowedAtOverload(t) { return Some(ServerOverload); }
        sumCookie := device.overload && t == NHP_RKN;
      }
      hmacHash := hmacHash + content[..HmacAt(suite.scheme)];
      if sumCookie {
        if now < WrapI64(conn.cookieStore.lastTime + COOKIE_ROUND_TRIP_TIME) {
          hmacHash := hmacHash + conn.cookieStore.prev;
        } else {
          hmacHash := hmacHash + conn.cookieStore.curr;
        }
      }
      assert !sumCookie ==> hmacHash == hmacHash + [];
      error := if suite.hash(hmacHash) == HmacField(suite.scheme, content) then None else Some(HmacCheckFailed);
    }

    /** validatePeer up to the sender's public key. */
    method OpenStatic() returns (r: Result<bytes>)
      requires Valid()
      modifies this, chainKey
      ensures Valid()
      ensures match Handshake.OpenStatic(suite, sk, content, old(View()))
              case Good((pk, x)) => r == Good(pk) && View() == x
              case Bad(e) => r == Bad(e) && BeforeTimeChecks(e)
    {
      hide KeyGen1Value, KeyGen2Value;
      var ephemeralPk, sealedPk := Ephemeral(suite.scheme, content), Static(suite.scheme, content);
      chainHash := chainHash + suite.pub(sk);
      chainHash := chainHash + ephemeralPk;
      KeyGen1(suite, chainKey, chainKey, ephemeralPk);
      var ess := suite.dh(sk, ephemeralPk);
      if ess == None { return Bad(EphemeralSecretFailed); }
      var key := new byte[SYMMETRIC_KEY_SIZE];
      KeyGen2(suite, chainKey, key, chainKey, ess.value);
      var pk := suite.open(key[..], Nonce(content), sealedPk, suite.hash(chainHash));
      if pk == None { return Bad(StaticOpenFailed); }
      chainHash := chainHash + sealedPk;
      r := Good(Fit(pk.value, PublicKeySize(suite.scheme)));
    }

    /** validatePeer from the second Diffie-Hellman result on, up to the sender's time and the body key. */
    method OpenTime(pk: bytes) returns (r: Result<int64>)
      requires Valid()
      modifies this, chainKey, bodyKey
      ensures Valid()
      ensures match Handshake.OpenTime(suite, sk, pk, content, old(View()))
              case Good((t, x)) => r == Good(t) && View() == x
              case Bad(e) => r == Bad(e) && BeforeTimeChecks(e)
    {
      hide KeyGen1Value, KeyGen2Value, FromBigEndian;
      var ss, time := suite.dh(sk, pk), Timestamp(suite.scheme, content);
      if ss == None { return Bad(PeerSecretFailed); }
      var key := new byte[SYMMETRIC_KEY_SIZE];
      KeyGen2(suite, chainKey, key, chainKey, ss.value);
      var ts := suite.open(key[..], Nonce(content), time, suite.hash(chainHash));
      if ts == None { return Bad(TimeOpenFailed); }
      PowersOfWords();
      r := Good(AsInt64(FromBigEndian(Fit(ts.value, TIMESTAMP_SIZE))));
      chainHash := chainHash + time;
      KeyGen2(suite, chainKey, bodyKey, chainKey, time);
    }

    /** The peer pool check, which records time and address of an accepted peer. */
    method CheckPeer(pk: bytes, wallMs: int) returns (error: Option<ReceiveError>)
      requires Valid()
      modifies device`peers
      ensures var r, t := old(ReceiverView(wallMs)), TypeAndSize(content).0;
              error == if Validates(r.options, t) then PeerError(r.peers, pk, wallMs, now, addr) else None
      ensures device.peers == if Validates(device.options, TypeAndSize(content).0) && error == None
                              then old(device.peers)[pk := Peer(old(device.peers)[pk].expireTime, now, addr)]
                              else old(device.peers)
    {
      if !Validates(device.options, TypeAndSize(content).0) { return None; }
      error := PeerError(device.peers, pk, wallMs, now, addr);
      if error == None {
        device.peers := device.peers[pk := Peer(device.peers[pk].expireTime, now, addr)];
      }
    }

    /** The time checks, and the cookie that answers a knock under overload; clock is the time it is made. */
    method Admit(sendTime: int64, clock: int64) returns (error: Option<ReceiveError>)
      requires Valid()
      modifies conn
      ensures var t := TypeAndSize(content).0;
              var a := Arrival(sendTime, now, Exempt(device.deviceType, t));
              && error == Admission(old(ReceiverView(0)), t, sendTime)
              && conn.GuardView() == Step(old(conn.GuardView()), conn.closed, a).0
              && conn.closed == old(conn.closed)
              && conn.cookieStore == (
                if error == Some(RejectedWithCookie) then
                  Generate(old(conn.cookieStore), clock,
                           KeyGen1Value(suite, Ephemeral(suite.scheme, content), BigEndian(AsUint64(clock), 8)))
                else old(conn.cookieStore))
      ensures conn.lastRemoteSendTime == (if AfterTimeChecks(error) then sendTime else old(conn.lastRemoteSendTime))
      ensures conn.recvThreatCount == (if AfterTimeChecks(error) then 0 else Threat(old(conn.recvThreatCount), conn.closed))
      ensures error.Some? ==> ByTimeChecks(error.value) || error.value.RejectedWithCookie?
    {
      hide KeyGen1Value, BigEndian;
      var t := TypeAndSize(content).0;
      var verdict := conn.CheckSendTime(Arrival(sendTime, now, Exempt(device.deviceType, t)));
      match verdict {
        case Replay => return Some(ReplayPacket);
        case Flood => return Some(FloodPacket);
        case Stale => return Some(StalePacket);
        case Pass =>
      }
      if device.deviceType.Server? && device.overload && (t == NHP_KNK || t == DHP_KNK) {
        conn.GenerateCookie(clock, KeyGen1Value(suite, Ephemeral(suite.scheme, content), BigEndian(AsUint64(clock), 8)));
        return Some(RejectedWithCookie);
      }
      error := None;
    }

    method ValidatePeer(wallMs: int, clock: int64) returns (r: Result<(bytes, int64)>)
      requires Valid()
      modifies this, chainKey, bodyKey, conn, device`peers
      ensures Valid()
      ensures match Handshake.ValidatePeer(suite, sk, old(ReceiverView(wallMs)), content, old(View()))
              case Good((pk, t, x)) => r == Good((pk, t)) && View() == x
              case Bad(e) => r == Bad(e)
      ensures r.Good? ==> conn.GuardView() == Guard(r.value.1, 0) && conn.cookieStore == old(conn.cookieStore)
      ensures r.Bad? ==> BeforeTimeChecks(r.error) || ByTimeChecks(r.error) || r.error.RejectedWithCookie?
      ensures r.Bad? && BeforeTimeChecks(r.error) ==>
                conn.GuardView() == old(conn.GuardView()) && conn.cookieStore == old(conn.cookieStore)
      ensures r.Bad? && ByTimeChecks(r.error) ==>
                conn.lastRemoteSendTime == old(conn.lastRemoteSendTime) && conn.cookieStore == old(conn.cookieStore)
                && conn.recvThreatCount == Threat(old(conn.recvThreatCount), conn.closed)
    {
      hide Handshake.OpenStatic, Handshake.OpenTime, PeerError, Validates, Admission, Step, Generate, Threat;
      hide TypeAndSize, Exempt, KeyGen1Value, BigEndian;
      ghost var before := ReceiverView(wallMs);
      var pk := OpenStatic();
      if pk.Bad? { return Bad(pk.error); }
      var refused := CheckPeer(pk.value, wallMs);
      PeerErrorIsEarly(old(device.peers), pk.value, wallMs, now, addr);
      if refused.Some? { return Bad(refused.value); }
      var t := OpenTime(pk.value);
      if t.Bad? { return Bad(t.error); }
      AdmissionIgnoresPeers(before, ReceiverView(0), TypeAndSize(content).0, t.value);
      refused := Admit(t.value, clock);
      if refused.Some? { return Bad(refused.value); }
      r := Good((pk.value, t.value));
    }

    /** Whatever the outcome, the chain key is cleared. */
    method DecryptBody() returns (r: Result<bytes>)
      requires Valid()
      modifies this, chainKey
      ensures Valid()
      ensures r == Handshake.DecryptBody(suite, content, old(View()))
      ensures r.Bad? ==> r.error.BodyOpenFailed? || r.error.DecompressionFailed?
      ensures chainKey[..] == Zeros(SYMMETRIC_KEY_SIZE)
    {
      var size := HeaderSize(suite.scheme);
      if |content| == size {
        r := Good([]);
      } else {
        var body := suite.open(bodyKey[..], Nonce(content), content[size..], suite.hash(chainHash));
        if body == None {
          r := Bad(BodyOpenFailed);
        } else if Compressed(Flag(content)) {
          var message := suite.decompress(body.value);
          r := if message == None then Bad(DecompressionFailed) else Good(message.value);
        } else {
          r := Good(body.value);
        }
      }
      chainHash := [];
      SetZero(chainKey);
    }
  }

  /** The parsing steps of packetToMsgRoutine, from a new exchange or from the chain key of one's own message. */
  method PacketToMsg(suite: Suite, sk: bytes, device: Device, conn: ConnectionData, content: bytes, now: int64,
                     addr: string, continued: Option<bytes>, wallMs: int, clock: int64)
    returns (r: Result<Received>, chainKey: bytes)
    requires |content| >= HeaderSize(suite.scheme) && SizesHold(suite)
    requires continued.Some? ==> |continued.value| == SYMMETRIC_KEY_SIZE
    modifies conn, device`peers
    ensures var receiver := Receiver(device.deviceType, device.options, old(device.peers), old(device.overload),
                                     old(conn.GuardView()), old(conn.cookieStore), addr, wallMs, now);
            r == Parse(suite, sk, receiver, content, continued)
    ensures r.Good? ==> chainKey == Zeros(SYMMETRIC_KEY_SIZE) && conn.GuardView() == Guard(r.value.sendTime, 0)
    ensures r.Bad? && (r.error.ServerOverload? || r.error.HmacCheckFailed?) ==> device.peers == old(device.peers)
    ensures r.Bad? && (r.error.ServerOverload? || r.error.HmacCheckFailed? || BeforeTimeChecks(r.error)) ==>
              conn.GuardView() == old(conn.GuardView()) && conn.cookieStore == old(conn.cookieStore)
  {
    hide Handshake.ValidatePeer, Handshake.DecryptBody, CheckHmac, AllowedAtOverload, TypeAndSize, FirstChainKey;
    hide INITIAL_HASH, FromBigEndian, SizesHold;
    chainKey := [];
    var ppd := new PacketParser(suite, sk, device, conn, content, now, addr, continued);
    var refused := ppd.CheckPacket();
    if refused.Some? { return Bad(refused.value), []; }
    var peer := ppd.ValidatePeer(wallMs, clock);
    if peer.Bad? { return Bad(peer.error), []; }
    var body := ppd.DecryptBody();
    if body.Bad? { return Bad(body.error), []; }
    r := Good(Received(peer.value.0, peer.value.1, Counter(content), TypeAndSize(content).0, body.value));
    chainKey := ppd.chainKey[..];
  }

  /** A device with its connection, as a Receiver. */
  function Seen(device: Device, conn: ConnectionData, addr: string, wallMs: int, now: int64): Receiver
    reads device, conn
  {
    Receiver(device.deviceType, device.options, device.peers, device.overload, conn.GuardView(), conn.cookieStore,
             addr, wallMs, now)
  }

  /** A request through the methods alone, behind the server's precheck, with the chain keys both ends keep. */
  method Ask(suite: Suite, request: Outgoing, sk: bytes, buf: array<byte>, server: Device, serverConn: ConnectionData,
             agentAddr: string, wallMs: int, clock: int64, asked: int64)
    returns (got: Result<Received>, agentKey: bytes, serverKey: bytes)
    requires WellFormed(suite, request, buf[..]) && request.remotePk == Some(suite.pub(sk))
    requires Send(suite, request, buf[..], None).Ok?
    modifies buf, serverConn, server`peers
    ensures var content := Send(suite, request, old(buf[..]), None).value;
            && |content| >= HeaderSize(suite.scheme)
            && (MayReceive(server.deviceType, request.headerType) ==>
                  (Precheck(server.deviceType, content).Good? <==> WireScheme(suite, request, old(buf[..])) == suite.scheme))
            && got == (
              match Precheck(server.deviceType, content)
              case Bad(e) => Bad(e)
              case Good(_) => VerdictOn(suite, request, sk, old(Seen(server, serverConn, agentAddr, wallMs, asked)), content))
    ensures got.Good? ==> agentKey == serverKey == Zeros(SYMMETRIC_KEY_SIZE)
    ensures got.Good? ==> got.value.remotePk == suite.pub(request.deviceSk) && got.value.trxId == request.trxId
  {
    hide Send, Parse, Refusal, VerdictOn, Precheck, MayReceive, WireScheme, WellFormed, Agrees, Step, Generate;
    ghost var before, r := buf[..], Seen(server, serverConn, agentAddr, wallMs, asked);
    SendAgrees(suite, request, before, None, suite.pub(sk));
    ParseRecovers(suite, request, before, None, sk, r);
    if MayReceive(server.deviceType, request.headerType) {
      PrecheckIffSchemeShows(suite, request, before, None, suite.pub(sk), server.deviceType);
    }
    LawfulSizes(suite, request, before);
    var sent;
    sent, agentKey := MsgToPacket(suite, request, buf, None);
    serverKey := [];
    var prechecked := Precheck(server.deviceType, sent.value);
    if prechecked.Bad? { got := Bad(prechecked.error); return; }
    got, serverKey := PacketToMsg(suite, sk, server, serverConn, sent.value, asked, agentAddr, None, wallMs, clock);
    if got.Good? {
      GoodVerdict(suite, request, sk, r, sent.value);
    }
  }

  /** The reply to a request that has been decrypted, continued from those chain keys. */
  method Answer(suite: Suite, request: Outgoing, draft: Outgoing, got: Received, replyBuf: array<byte>, agent: Device,
                agentConn: ConnectionData, serverAddr: string, wallMs: int, clock: int64, answered: int64,
                agentKey: bytes, serverKey: bytes)
    returns (reply: Sent<bytes>, answer: Result<Received>)
    requires WellFormed(suite, draft, replyBuf[..]) && draft.headerType != NHP_RKN
    requires agentKey == serverKey == Zeros(SYMMETRIC_KEY_SIZE)
    requires got.remotePk == suite.pub(request.deviceSk) && got.trxId == request.trxId
    modifies replyBuf, agentConn, agent`peers
    ensures reply.Ok? && MayReceive(agent.deviceType, draft.headerType) ==>
              (Precheck(agent.deviceType, reply.value).Good? <==> WireScheme(suite, draft, old(replyBuf[..])) == suite.scheme)
    ensures reply.Ok? ==>
              answer == (
                match Precheck(agent.deviceType, reply.value)
                case Bad(e) => Bad(e)
                case Good(_) =>
                  match Refusal(old(Seen(agent, agentConn, serverAddr, wallMs, answered)), draft.headerType,
                                suite.pub(draft.deviceSk), draft.initTime)
                  case Some(e) => Bad(e)
                  case None => Good(Received(suite.pub(draft.deviceSk), draft.initTime, request.trxId,
                                             draft.headerType, draft.message)))
  {
    hide Send, Parse, Refusal, VerdictOn, Precheck, MayReceive, WireScheme, WellFormed, Agrees, SentTail, ExpectedTail;
    hide Step, Generate;
    answer := Bad(TooShort);
    ghost var before, r := replyBuf[..], Seen(agent, agentConn, serverAddr, wallMs, answered);
    var m := draft.(remotePk := Some(got.remotePk), trxId := got.trxId);
    SameForm(suite, draft, m, before);
    LawfulSizes(suite, m, before);
    var key;
    reply, key := MsgToPacket(suite, m, replyBuf, Some(serverKey));
    if reply.Err? { return; }
    SendAgrees(suite, m, before, Some(serverKey), suite.pub(request.deviceSk));
    if MayReceive(agent.deviceType, m.headerType) {
      PrecheckIffSchemeShows(suite, m, before, Some(serverKey), suite.pub(request.deviceSk), agent.deviceType);
      SameWireScheme(suite, draft, m, before);
    }
    var prechecked := Precheck(agent.deviceType, reply.value);
    if prechecked.Bad? { answer := Bad(prechecked.error); return; }
    NoTails(m, r);
    ParseRecovers(suite, m, before, Some(serverKey), request.deviceSk, r);
    VerdictIs(suite, m, request.deviceSk, r, reply.value);
    answer, key := PacketToMsg(suite, request.deviceSk, agent, agentConn, reply.value, answered, serverAddr,
                               Some(agentKey), wallMs, clock);
  }

  /**
   A whole transaction through the methods alone, each packet behind its precheck: an agent's request, and the reply
   that the server assembles for the key and transaction id it has decrypted. Both ends continue with the chain keys
   that the methods leave behind. draft is the reply without addressee and transaction id.
   */
  method Transact(suite: Suite, request: Outgoing, draft: Outgoing, buf: array<byte>, replyBuf: array<byte>,
                  server: Device, serverConn: ConnectionData, agent: Device, agentConn: ConnectionData,
                  agentAddr: string, serverAddr: string, wallMs: int, clock: int64, asked: int64, answered: int64)
    returns (got: Result<Received>, reply: Sent<bytes>, answer: Result<Received>)
    requires WellFormed(suite, request, buf[..]) && WellFormed(suite, draft, replyBuf[..]) && buf != replyBuf
    requires server != agent && serverConn != agentConn
    requires request.remotePk == Some(suite.pub(draft.deviceSk)) && draft.headerType != NHP_RKN
    requires Send(suite, request, buf[..], None).Ok?
    modifies buf, replyBuf, serverConn, server`peers, agentConn, agent`peers
    ensures var content := Send(suite, request, old(buf[..]), None).value;
            && |content| >= HeaderSize(suite.scheme)
            && (MayReceive(server.deviceType, request.headerType) ==>
                  (Precheck(server.deviceType, content).Good? <==> WireScheme(suite, request, old(buf[..])) == suite.scheme))
            && got == (
              match Precheck(server.deviceType, content)
              case Bad(e) => Bad(e)
              case Good(_) =>
                VerdictOn(suite, request, draft.deviceSk, old(Seen(server, serverConn, agentAddr, wallMs, asked)), content))
    ensures got.Good? && reply.Ok? && MayReceive(agent.deviceType, draft.headerType) ==>
              (Precheck(agent.deviceType, reply.value).Good? <==> WireScheme(suite, draft, old(replyBuf[..])) == suite.scheme)
    ensures got.Good? && reply.Ok? ==>
              answer == (
                match Precheck(agent.deviceType, reply.value)
                case Bad(e) => Bad(e)
                case Good(_) =>
                  match Refusal(old(Seen(agent, agentConn, serverAddr, wallMs, answered)), draft.headerType,
                                suite.pub(draft.deviceSk), draft.initTime)
                  case Some(e) => Bad(e)
                  case None => Good(Received(suite.pub(draft.deviceSk), draft.initTime, request.trxId,
                                             draft.headerType, draft.message)))
  {
    hide Send, Refusal, VerdictOn, Precheck, MayReceive, WireScheme, WellFormed;
    reply, answer := Err(TooLong), Bad(TooShort);
    var agentKey, serverKey;
    got, agentKey, serverKey := Ask(suite, request, draft.deviceSk, buf, server, serverConn, agentAddr, wallMs, clock, asked);
    if got.Good? {
      reply, answer := Answer(suite, request, draft, got.value, replyBuf, agent, agentConn, serverAddr, wallMs, clock,
                              answered, agentKey, serverKey);
    }
  }

  lemma GoodVerdict(suite: Suite, m: Outgoing, sk: bytes, r: Receiver, content: bytes)
    requires |content| >= HeaderSize(suite.scheme) && VerdictOn(suite, m, sk, r, content).Good?
    ensures var got := VerdictOn(suite, m, sk, r, content).value;
            got.remotePk == suite.pub(m.deviceSk) && got.trxId == m.trxId
  {
  }

  lemma VerdictIs(suite: Suite, m: Outgoing, sk: bytes, r: Receiver, content: bytes)
    requires |content| >= HeaderSize(suite.scheme) && SentTail(m) == ExpectedTail(r, m.headerType)
    ensures VerdictOn(suite, m, sk, r, content) == (
              match Refusal(r, m.headerType, suite.pub(m.deviceSk), m.initTime)
              case Some(e) => Bad(e)
              case None => Good(Received(suite.pub(m.deviceSk), m.initTime, m.trxId, m.headerType, m.message)))
  {
  }

  lemma LawfulSizes(suite: Suite, m: Outgoing, buf: bytes)
    requires WellFormed(suite, m, buf)
    ensures SizesHold(suite)
  {
  }

  lemma SameForm(suite: Suite, draft: Outgoing, m: Outgoing, buf: bytes)
    requires WellFormed(suite, draft, buf) && m == draft.(remotePk := m.remotePk, trxId := m.trxId)
    ensures WellFormed(suite, m, buf)
  {
  }

  lemma SameWireScheme(suite: Suite, draft: Outgoing, m: Outgoing, buf: bytes)
    requires |buf| == PACKET_BUFFER_SIZE && m == draft.(remotePk := m.remotePk, trxId := m.trxId)
    ensures WireScheme(suite, m, buf) == WireScheme(suite, draft, buf)
  {
  }

  lemma NoTails(m: Outgoing, r: Receiver)
    requires m.headerType != NHP_RKN
    ensures SentTail(m) == ExpectedTail(r, m.headerType)
  {
  }
}
