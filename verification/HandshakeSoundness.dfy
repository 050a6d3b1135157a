/**
 What acceptance means: for every packet, genuine or not, the receiver parses it if and only if everything that the
 protocol asks for holds. The conditions are written out over the packet's fields, the clock and the peer pool.
 */
module HandshakeSoundness {
  import opened Bytes
  import opened Primitives
  import opened PacketLayout
  import opened Handshake
  import opened HandshakeProofs
  import Connection

  // ---- Whose key is looked up ----

  /** The peers of a packet's type are validated: agents, servers, access controllers, relays and data brokers. */
  predicate Checked(o: Options, t: nat) {
    || (t in {1, 5, 8, 12, 13, 15, 16, 19, 22, 27} && !o.disableAgent)
    || (t in {2, 3, 6, 7, 11, 14, 18, 20, 21, 23, 26} && !o.disableServer)
    || (t in {4, 10} && !o.disableAc)
    || (t == 9 && !o.disableRelay)
    || (t in {17, 24, 25} && !o.disableDe)
  }

  lemma ValidatesIff(o: Options, t: nat)
    ensures Validates(o, t) <==> Checked(o, t)
  {
  }

  predicate Expired(r: Receiver, pk: bytes)
    requires pk in r.peers
  {
    r.peers[pk].expireTime > 0 && r.wallMs > 1000 * r.peers[pk].expireTime
  }

  /** The address the peer was last accepted from, or any other once five seconds have passed. */
  predicate AtItsAddress(r: Receiver, pk: bytes)
    requires pk in r.peers
  {
    r.addr == r.peers[pk].recvAddr || r.now as int - r.peers[pk].lastRecvTime > 5_000_000_000
  }

  /** The key is in the pool, has not expired, and comes from where it may. */
  predicate KnownPeer(r: Receiver, pk: bytes) {
    pk in r.peers && !Expired(r, pk) && AtItsAddress(r, pk)
  }

  lemma PeerErrorIs(r: Receiver, pk: bytes)
    ensures PeerError(r.peers, pk, r.wallMs, r.now, r.addr)
         == if pk !in r.peers then Some(PeerNotFound)
            else if Expired(r, pk) then Some(PeerExpired)
            else if !AtItsAddress(r, pk) then Some(PeerAddressMismatch)
            else None
  {
  }

  // ---- Time and overload ----

  /** Answers of access controllers to the server, and the server's orders to them. */
  predicate NotTimed(d: DeviceType, t: nat) {
    (d.Server? && t == 4) || (d.Ac? && t == 3)
  }

  lemma ExemptIff(d: DeviceType, t: nat)
    ensures Exempt(d, t) <==> NotTimed(d, t)
  {
  }

  predicate TooEarly(r: Receiver, t: nat, sendTime: int64) {
    !NotTimed(r.deviceType, t) && sendTime as int < Connection.NextAllowed(r.guard.last)
  }

  predicate TooOld(r: Receiver, sendTime: int64) {
    sendTime as int < r.now as int - 600_000_000_000
  }

  predicate ShortOfConnections(r: Receiver) {
    r.deviceType.Server? && r.overload
  }

  lemma AdmissionIs(r: Receiver, t: nat, sendTime: int64)
    requires r.now >= 0
    ensures Admission(r, t, sendTime)
         == if TooEarly(r, t, sendTime) then (if sendTime < r.guard.last then Some(ReplayPacket) else Some(FloodPacket))
            else if TooOld(r, sendTime) then Some(StalePacket)
            else if ShortOfConnections(r) && (t == 1 || t == 27) then Some(RejectedWithCookie)
            else None
  {
    hide Connection.Judge, Connection.NextAllowed;
    ExemptIff(r.deviceType, t);
    Connection.VerdictsAre(r.guard.last, Connection.Arrival(sendTime, r.now, Exempt(r.deviceType, t)));
  }

  // ---- What the packet has to contain ----

  /** The three boxes of the packet open, one key after the other, to the key, the time and the message. */
  ghost predicate Opens(c: Suite, sk: bytes, content: bytes, ck: bytes, got: Received)
    requires |content| >= HeaderSize(c.scheme)
  {
    var e, nonce := Ephemeral(c.scheme, content), Nonce(content);
    var sealedPk, time := Static(c.scheme, content), Timestamp(c.scheme, content);
    var ess, ss := c.dh(sk, e), c.dh(sk, got.remotePk);
    ess.Some? && ss.Some? &&
    (var (key2, staticKey) := KeyGen2Value(c, KeyGen1Value(c, ck, e), ess.value);
     var (key3, timeKey) := KeyGen2Value(c, key2, ss.value);
     var (key4, bodyKey) := KeyGen2Value(c, key3, time);
     var chain1 := INITIAL_HASH + c.pub(sk) + e;
     && OpensToKey(c, staticKey, nonce, sealedPk, chain1, got.remotePk)
     && OpensToTime(c, timeKey, nonce, time, chain1 + sealedPk, got.sendTime)
     && OpensToMessage(c, bodyKey, nonce, content, chain1 + sealedPk + time, got.message))
  }

  ghost predicate OpensToKey(c: Suite, key: bytes, nonce: bytes, sealed: bytes, chain: bytes, pk: bytes) {
    var p := c.open(key, nonce, sealed, c.hash(chain));
    p.Some? && Fit(p.value, PublicKeySize(c.scheme)) == pk
  }

  ghost predicate OpensToTime(c: Suite, key: bytes, nonce: bytes, sealed: bytes, chain: bytes, t: int64) {
    var p := c.open(key, nonce, sealed, c.hash(chain));
    p.Some? && FromBigEndian(Fit(p.value, 8)) == if t < 0 then t + U64 else t
  }

  ghost predicate OpensToMessage(c: Suite, key: bytes, nonce: bytes, content: bytes, chain: bytes, message: bytes)
    requires |content| >= HeaderSize(c.scheme)
  {
    var sealed := content[HeaderSize(c.scheme)..];
    if sealed == [] then message == []
    else
      var p := c.open(key, nonce, sealed, c.hash(chain));
      && p.Some?
      && (if Flag(content) / 2 % 2 == 1 then c.decompress(p.value) == Some(message) else message == p.value)
  }

  lemma SignedTime(u: nat, t: int64)
    requires u < U64
    ensures AsInt64(u) == t <==> u == if t < 0 then t + U64 else t
  {
  }

  lemma StaticOpens(c: Suite, sk: bytes, content: bytes, x: Parser, pk: bytes, x1: Parser)
    requires |content| >= HeaderSize(c.scheme)
    ensures OpenStatic(c, sk, content, x) == Good((pk, x1)) <==>
              var e, sealedPk := Ephemeral(c.scheme, content), Static(c.scheme, content);
              && c.dh(sk, e).Some?
              && (var (key2, staticKey) := KeyGen2Value(c, KeyGen1Value(c, x.chainKey, e), c.dh(sk, e).value);
                  && OpensToKey(c, staticKey, Nonce(content), sealedPk, x.chainIn + c.pub(sk) + e, pk)
                  && x1 == Parser(x.chainIn + c.pub(sk) + e + sealedPk, key2, x.bodyKey))
  {
    hide KeyGen1Value, KeyGen2Value, Nonce, INITIAL_HASH;
    var e, sealedPk := Ephemeral(c.scheme, content), Static(c.scheme, content);
    if c.dh(sk, e).Some? {
      var keys := KeyGen2Value(c, KeyGen1Value(c, x.chainKey, e), c.dh(sk, e).value);
      var p := c.open(keys.1, Nonce(content), sealedPk, c.hash(x.chainIn + c.pub(sk) + e));
      assert OpenStatic(c, sk, content, x).Good? <==> p.Some?;
    }
  }

  lemma TimeOpens(c: Suite, sk: bytes, pk: bytes, content: bytes, x: Parser, t: int64, x2: Parser)
    requires |content| >= HeaderSize(c.scheme)
    ensures OpenTime(c, sk, pk, content, x) == Good((t, x2)) <==>
              var time := Timestamp(c.scheme, content);
              && c.dh(sk, pk).Some?
              && (var (key3, timeKey) := KeyGen2Value(c, x.chainKey, c.dh(sk, pk).value);
                  var (key4, bodyKey) := KeyGen2Value(c, key3, time);
                  && OpensToTime(c, timeKey, Nonce(content), time, x.chainIn, t)
                  && x2 == Parser(x.chainIn + time, key4, bodyKey))
  {
    hide KeyGen2Value, Nonce, FromBigEndian, AsInt64;
    var time := Timestamp(c.scheme, content);
    if c.dh(sk, pk).Some? {
      var timeKey := KeyGen2Value(c, x.chainKey, c.dh(sk, pk).value).1;
      var ts := c.open(timeKey, Nonce(content), time, c.hash(x.chainIn));
      if ts.Some? {
        PowersOfWords();
        SignedTime(FromBigEndian(Fit(ts.value, TIMESTAMP_SIZE)), t);
      }
    }
  }

  lemma MessageOpens(c: Suite, content: bytes, x: Parser, message: bytes)
    requires |content| >= HeaderSize(c.scheme)
    ensures DecryptBody(c, content, x) == Good(message) <==>
              OpensToMessage(c, x.bodyKey, Nonce(content), content, x.chainIn, message)
  {
    hide Nonce, Flag;
  }

  // ---- The whole packet ----

  predicate MacHolds(c: Suite, sk: bytes, r: Receiver, content: bytes)
    requires |content| >= HeaderSize(c.scheme)
  {
    var cookie := if ShortOfConnections(r) && TypeAndSize(content).0 == 8 then Connection.Expected(r.cookies, r.now) else [];
    c.hash(INITIAL_HASH + c.pub(sk) + content[..HmacAt(c.scheme)] + cookie) == HmacField(c.scheme, content)
  }

  /** The types that a server short of connections parses to the end: reknocks, exits, and those of its controllers. */
  predicate NotTurnedAway(r: Receiver, t: nat) {
    ShortOfConnections(r) ==> t in {4, 8, 10, 16}
  }

  /** What is asked of a packet's sender and time, and of the state of the receiver. */
  predicate Admissible(r: Receiver, t: nat, got: Received) {
    && NotTurnedAway(r, t)
    && (Checked(r.options, t) ==> KnownPeer(r, got.remotePk))
    && !TooEarly(r, t, got.sendTime) && !TooOld(r, got.sendTime)
  }

  lemma ValidatesTo(c: Suite, sk: bytes, r: Receiver, content: bytes, x: Parser, pk: bytes, t: int64, x2: Parser)
    requires |content| >= HeaderSize(c.scheme)
    ensures ValidatePeer(c, sk, r, content, x) == Good((pk, t, x2)) <==>
              var s := OpenStatic(c, sk, content, x);
              && s.Good? && s.value.0 == pk
              && (Validates(r.options, TypeAndSize(content).0) ==> PeerError(r.peers, pk, r.wallMs, r.now, r.addr) == None)
              && OpenTime(c, sk, pk, content, s.value.1) == Good((t, x2))
              && Admission(r, TypeAndSize(content).0, t) == None
  {
    hide OpenStatic, OpenTime, PeerError, Validates, Admission, TypeAndSize;
  }

  lemma ValidatedMeans(c: Suite, sk: bytes, r: Receiver, content: bytes, ck: bytes, zero: bytes, pk: bytes, t: int64, x2: Parser)
    requires |content| >= HeaderSize(c.scheme) && r.now >= 0
    ensures ValidatePeer(c, sk, r, content, Parser(INITIAL_HASH, ck, zero)) == Good((pk, t, x2)) <==>
              var e, time := Ephemeral(c.scheme, content), Timestamp(c.scheme, content);
              var sealedPk, kind := Static(c.scheme, content), TypeAndSize(content).0;
              c.dh(sk, e).Some? && c.dh(sk, pk).Some? &&
              (var (key2, staticKey) := KeyGen2Value(c, KeyGen1Value(c, ck, e), c.dh(sk, e).value);
               var (key3, timeKey) := KeyGen2Value(c, key2, c.dh(sk, pk).value);
               var (key4, bodyKey) := KeyGen2Value(c, key3, time);
               var chain1 := INITIAL_HASH + c.pub(sk) + e;
               && OpensToKey(c, staticKey, Nonce(content), sealedPk, chain1, pk)
               && OpensToTime(c, timeKey, Nonce(content), time, chain1 + sealedPk, t)
               && x2 == Parser(chain1 + sealedPk + time, key4, bodyKey)
               && (Checked(r.options, kind) ==> KnownPeer(r, pk))
               && !TooEarly(r, kind, t) && !TooOld(r, t) && !(ShortOfConnections(r) && (kind == 1 || kind == 27)))
  {
    hide OpenStatic, OpenTime, ValidatePeer, PeerError, Validates, Admission, TypeAndSize, KeyGen1Value, KeyGen2Value;
    hide OpensToKey, OpensToTime, Nonce, Checked, KnownPeer, TooEarly, TooOld, ShortOfConnections, INITIAL_HASH;
    var x, kind := Parser(INITIAL_HASH, ck, zero), TypeAndSize(content).0;
    ValidatesTo(c, sk, r, content, x, pk, t, x2);
    ValidatesIff(r.options, kind);
    KnownMeans(r, pk);
    AdmissionMeans(r, kind, t);
    var e, sealedPk := Ephemeral(c.scheme, content), Static(c.scheme, content);
    if c.dh(sk, e).Some? {
      var (key2, staticKey) := KeyGen2Value(c, KeyGen1Value(c, ck, e), c.dh(sk, e).value);
      var x1 := Parser(INITIAL_HASH + c.pub(sk) + e + sealedPk, key2, zero);
      StaticOpens(c, sk, content, x, pk, x1);
      TimeOpens(c, sk, pk, content, x1, t, x2);
    }
    var s := OpenStatic(c, sk, content, x);
    if s.Good? {
      StaticOpens(c, sk, content, x, s.value.0, s.value.1);
    }
  }

  lemma KnownMeans(r: Receiver, pk: bytes)
    ensures PeerError(r.peers, pk, r.wallMs, r.now, r.addr) == None <==> KnownPeer(r, pk)
  {
    hide PeerError;
    PeerErrorIs(r, pk);
  }

  lemma AdmissionMeans(r: Receiver, t: nat, sendTime: int64)
    requires r.now >= 0
    ensures Admission(r, t, sendTime) == None <==>
              !TooEarly(r, t, sendTime) && !TooOld(r, sendTime) && !(ShortOfConnections(r) && (t == 1 || t == 27))
  {
    hide Admission, TooEarly, TooOld, ShortOfConnections;
    AdmissionIs(r, t, sendTime);
  }

  lemma ParseGoodWhen(c: Suite, sk: bytes, r: Receiver, content: bytes, chainKey: Option<bytes>, got: Received)
    requires |content| >= HeaderSize(c.scheme)
    ensures Parse(c, sk, r, content, chainKey) == Good(got) <==>
              var t := TypeAndSize(content).0;
              var x := Parser(INITIAL_HASH, if chainKey.None? then FirstChainKey(c) else chainKey.value,
                              Zeros(SYMMETRIC_KEY_SIZE));
              var v := ValidatePeer(c, sk, r, content, x);
              && !(r.deviceType.Server? && r.overload && !AllowedAtOverload(t))
              && CheckHmac(c, sk, content, ExpectedTail(r, t))
              && v.Good? && DecryptBody(c, content, v.value.2) == Good(got.message)
              && got == Received(v.value.0, v.value.1, Counter(content), t, got.message)
  {
    hide ValidatePeer, DecryptBody, CheckHmac, ExpectedTail, TypeAndSize, INITIAL_HASH, FirstChainKey, AllowedAtOverload, Counter;
  }

  lemma MacMeans(c: Suite, sk: bytes, r: Receiver, content: bytes)
    requires |content| >= HeaderSize(c.scheme)
    ensures CheckHmac(c, sk, content, ExpectedTail(r, TypeAndSize(content).0)) <==> MacHolds(c, sk, r, content)
  {
    hide INITIAL_HASH, TypeAndSize, Connection.Expected;
  }

  lemma TurnedAwayMeans(r: Receiver, t: nat)
    ensures !(r.deviceType.Server? && r.overload && !AllowedAtOverload(t)) && !(ShortOfConnections(r) && (t == 1 || t == 27))
       <==> NotTurnedAway(r, t)
  {
  }

  lemma OpensMeans(c: Suite, sk: bytes, r: Receiver, content: bytes, ck: bytes, zero: bytes, got: Received)
    requires |content| >= HeaderSize(c.scheme) && r.now >= 0
    ensures var v, t := ValidatePeer(c, sk, r, content, Parser(INITIAL_HASH, ck, zero)), TypeAndSize(content).0;
            (&& v.Good? && v.value.0 == got.remotePk && v.value.1 == got.sendTime
             && DecryptBody(c, content, v.value.2) == Good(got.message))
            <==> (&& Opens(c, sk, content, ck, got)
                  && (Checked(r.options, t) ==> KnownPeer(r, got.remotePk))
                  && !TooEarly(r, t, got.sendTime) && !TooOld(r, got.sendTime)
                  && !(ShortOfConnections(r) && (t == 1 || t == 27)))
  {
    hide ValidatePeer, DecryptBody, TypeAndSize, KeyGen1Value, KeyGen2Value, INITIAL_HASH, Nonce;
    hide OpensToKey, OpensToTime, OpensToMessage, Checked, KnownPeer, TooEarly, TooOld, ShortOfConnections;
    var v := ValidatePeer(c, sk, r, content, Parser(INITIAL_HASH, ck, zero));
    if v.Good? {
      ValidatedMeans(c, sk, r, content, ck, zero, v.value.0, v.value.1, v.value.2);
      MessageOpens(c, content, v.value.2, got.message);
    }
    var e, time, sealedPk := Ephemeral(c.scheme, content), Timestamp(c.scheme, content), Static(c.scheme, content);
    if c.dh(sk, e).Some? && c.dh(sk, got.remotePk).Some? {
      var key2 := KeyGen2Value(c, KeyGen1Value(c, ck, e), c.dh(sk, e).value).0;
      var key3 := KeyGen2Value(c, key2, c.dh(sk, got.remotePk).value).0;
      var (key4, bodyKey) := KeyGen2Value(c, key3, time);
      var x2 := Parser(INITIAL_HASH + c.pub(sk) + e + sealedPk + time, key4, bodyKey);
      ValidatedMeans(c, sk, r, content, ck, zero, got.remotePk, got.sendTime, x2);
      MessageOpens(c, content, x2, got.message);
    }
  }

  /**
   For every content: it is parsed to a message if and only if its HMAC holds with the cookie that is due, its three
   boxes open to the sender's key, time and message, and sender, time and the receiver's state are in order.
   */
  lemma AcceptedIff(c: Suite, sk: bytes, r: Receiver, content: bytes, chainKey: Option<bytes>, got: Received)
    requires |content| >= HeaderSize(c.scheme) && r.now >= 0
    ensures Parse(c, sk, r, content, chainKey) == Good(got) <==>
              && MacHolds(c, sk, r, content)
              && Opens(c, sk, content, if chainKey.None? then FirstChainKey(c) else chainKey.value, got)
              && Admissible(r, TypeAndSize(content).0, got)
              && got.trxId == Counter(content) && got.headerType == TypeAndSize(content).0
  {
    hide Parse, ValidatePeer, DecryptBody, CheckHmac, ExpectedTail, TypeAndSize, INITIAL_HASH, FirstChainKey, AllowedAtOverload;
    hide Counter, Opens, Checked, KnownPeer, TooEarly, TooOld, ShortOfConnections, MacHolds, NotTurnedAway;
    ParseGoodWhen(c, sk, r, content, chainKey, got);
    MacMeans(c, sk, r, content);
    TurnedAwayMeans(r, TypeAndSize(content).0);
    OpensMeans(c, sk, r, content, if chainKey.None? then FirstChainKey(c) else chainKey.value,
               Zeros(SYMMETRIC_KEY_SIZE), got);
  }

  // ---- Genuine packets: every refusal and its reason ----

  /** The order in which the reasons to refuse a genuine packet are looked at. */
  function GenuineVerdict(c: Suite, m: Outgoing, r: Receiver, sameMac: bool): Result<Received> {
    var t, pk := m.headerType, c.pub(m.deviceSk);
    if ShortOfConnections(r) && t !in {1, 4, 8, 10, 16, 27} then Bad(ServerOverload)
    else if !sameMac then Bad(HmacCheckFailed)
    else if Checked(r.options, t) && pk !in r.peers then Bad(PeerNotFound)
    else if Checked(r.options, t) && Expired(r, pk) then Bad(PeerExpired)
    else if Checked(r.options, t) && !AtItsAddress(r, pk) then Bad(PeerAddressMismatch)
    else if TooEarly(r, t, m.initTime) then (if m.initTime < r.guard.last then Bad(ReplayPacket) else Bad(FloodPacket))
    else if TooOld(r, m.initTime) then Bad(StalePacket)
    else if ShortOfConnections(r) && (t == 1 || t == 27) then Bad(RejectedWithCookie)
    else Good(Received(pk, m.initTime, m.trxId, t, m.message))
  }

  lemma OverloadMeans(r: Receiver, t: nat)
    ensures r.deviceType.Server? && r.overload && !AllowedAtOverload(t) <==> ShortOfConnections(r) && t !in {1, 4, 8, 10, 16, 27}
  {
  }

  lemma VerdictIsGenuine(c: Suite, m: Outgoing, sk: bytes, r: Receiver, content: bytes)
    requires |content| >= HeaderSize(c.scheme) && r.now >= 0
    ensures VerdictOn(c, m, sk, r, content) == GenuineVerdict(c, m, r, SameMac(c, m, sk, r, content))
  {
    hide SameMac, AllowedAtOverload, Validates, PeerError, Admission, Checked, Expired, AtItsAddress, TooEarly, TooOld;
    OverloadMeans(r, m.headerType);
    ValidatesIff(r.options, m.headerType);
    PeerErrorIs(r, c.pub(m.deviceSk));
    AdmissionIs(r, m.headerType, m.initTime);
  }

  /** Whatever a genuine packet and its receiver: the exact verdict, over the packet, the clock and the peer pool. */
  lemma GenuinePacketGets(c: Suite, m: Outgoing, buf: bytes, chainKey: Option<bytes>, sk: bytes, r: Receiver)
    requires WellFormed(c, m, buf) && Agrees(c, m, c.pub(sk)) && Send(c, m, buf, chainKey).Ok? && r.now >= 0
    ensures var content := Send(c, m, buf, chainKey).value;
            && |content| >= HeaderSize(c.scheme)
            && Parse(c, sk, r, content, chainKey) == GenuineVerdict(c, m, r, SameMac(c, m, sk, r, content))
  {
    hide WellFormed, Agrees, Send, Parse, VerdictOn, GenuineVerdict, SameMac;
    ParseRecovers(c, m, buf, chainKey, sk, r);
    VerdictIsGenuine(c, m, sk, r, Send(c, m, buf, chainKey).value);
  }

  /** The packet is from a peer that may send it, and in time. */
  predicate InOrder(c: Suite, m: Outgoing, r: Receiver) {
    && (Checked(r.options, m.headerType) ==> KnownPeer(r, c.pub(m.deviceSk)))
    && !TooEarly(r, m.headerType, m.initTime) && !TooOld(r, m.initTime)
  }

  lemma SameTails(c: Suite, m: Outgoing, sk: bytes, r: Receiver, content: bytes)
    requires |content| >= HeaderSize(c.scheme)
    requires m.headerType == 8 ==> ShortOfConnections(r) && m.cookie == Connection.Expected(r.cookies, r.now)
    ensures SameMac(c, m, sk, r, content)
  {
  }

  /**
   A server short of connections answers a knock that is in order with a cookie, accepts the reknock that carries the
   cookie it expects, and turns away everything but exits and the traffic of its controllers.
   */
  lemma UnderOverload(c: Suite, m: Outgoing, buf: bytes, sk: bytes, r: Receiver)
    requires WellFormed(c, m, buf) && Agrees(c, m, c.pub(sk)) && Send(c, m, buf, None).Ok? && r.now >= 0
    requires r.deviceType.Server? && r.overload && InOrder(c, m, r)
    ensures |Send(c, m, buf, None).value| >= HeaderSize(c.scheme)
    ensures var verdict := Parse(c, sk, r, Send(c, m, buf, None).value, None);
            && (m.headerType == 1 || m.headerType == 27 ==> verdict == Bad(RejectedWithCookie))
            && (m.headerType == 8 && m.cookie == Connection.Expected(r.cookies, r.now) ==>
                  verdict == Good(Received(c.pub(m.deviceSk), m.initTime, m.trxId, 8, m.message)))
            && (m.headerType in {4, 10, 16} ==>
                  verdict == Good(Received(c.pub(m.deviceSk), m.initTime, m.trxId, m.headerType, m.message)))
            && (m.headerType !in {1, 4, 8, 10, 16, 27} ==> verdict == Bad(ServerOverload))
  {
    hide WellFormed, Agrees, Send, Parse, SameMac, Checked, Expired, AtItsAddress, TooEarly, TooOld;
    GenuinePacketGets(c, m, buf, None, sk, r);
    if m.headerType == 8 ==> m.cookie == Connection.Expected(r.cookies, r.now) {
      SameTails(c, m, sk, r, Send(c, m, buf, None).value);
    }
  }

  // ---- The header's fixed parts ----

  /** The types that each kind of device hears, in the order of their numbers. */
  predicate Hears(d: DeviceType, t: nat) {
    || (d.Agent? && t in {2, 6, 7, 14, 20, 21})
    || (d.Server? && (t in {1, 4, 5, 8, 9, 10, 12, 13, 16, 17, 19, 22, 24, 25, 27}))
    || (d.Ac? && t in {3, 6, 11})
    || (d.Relay? && t in {1, 2, 5, 6, 7, 8, 13, 16})
    || (d.Db? && t in {17, 18, 20, 23, 26})
  }

  /** The headers have 240 and 304 bytes; a packet passes the precheck if its length is its header's and its body's. */
  lemma PrecheckIff(d: DeviceType, content: bytes)
    ensures HeaderSize(Curve) == 240 && HeaderSize(Gmsm) == 304
    ensures Precheck(d, content).Good? <==>
              |content| >= 240 &&
              (var (t, s) := TypeAndSize(content);
               if t == 0 then s == 0 else Hears(d, t) && |content| == (if Flag(content) % 2 == 1 then 304 else 240) + s)
  {
    hide TypeAndSize, Flag;
  }

  /** The flag word: the scheme in the lowest bit, compression and certificateless keys in the next two. */
  lemma FlagsAre(c: Suite, m: Outgoing)
    ensures FlagWord(c.scheme, SentFlag(m))
         == (if c.scheme.Gmsm? then 1 else 0) + (if m.compress then 2 else 0) + (if m.clPkc then 4 else 0)
  {
  }

  lemma BeginHasVersion(c: Suite, m: Outgoing, buf: bytes)
    requires WellFormed(c, m, buf)
    ensures Has(Begin(c, m, buf, None).buf, 8, [1, 0])
  {
    hide BigEndian, Lawful;
    var n, e := BigEndian(m.trxId, 8), c.pub(m.ephemeralSk);
    assert |n| == 8 && |e| == PublicKeySize(c.scheme) by { EphemeralSize(c, m.ephemeralSk); }
    var b1 := Splice(buf, 8, [1, 0]);
    HasSpliced(buf, 8, [1, 0]);
    HasKept(b1, 16, n, 8, [1, 0]);
    HasKept(Splice(b1, 16, n), HEADER_COMMON_SIZE, e, 8, [1, 0]);
  }

  /** Every packet of a new exchange carries the protocol version 1.0. */
  lemma VersionIsWritten(c: Suite, m: Outgoing, buf: bytes, pk: bytes)
    requires WellFormed(c, m, buf) && Agrees(c, m, pk) && Send(c, m, buf, None).Ok?
    ensures Has(Send(c, m, buf, None).value, 8, [1, 0])
  {
    hide BigEndian, KeyGen1Value, KeyGen2Value, Splice, MaskedWords, INITIAL_HASH, Begin, ExchangeOf, SealingHolds, AgreementHolds;
    var v, begun := [1, 0], Begin(c, m, buf, None);
    BeginHasVersion(c, m, buf);
    ExchangeSizes(c, m, pk, None);
    BeginPutsFields(c, m, buf, None);
    SetPeerPutsFields(c, m, buf, None, pk);
    assert |BigEndian(AsUint64(m.initTime), TIMESTAMP_SIZE)| == TIMESTAMP_SIZE;
    var x := SetPeerPublicKey(c, m, begun).value;
    PeerKeyKeepsVersion(c, m, begun);
    FinishKeepsVersion(c, m, x);
  }

  lemma PeerKeyKeepsVersion(c: Suite, m: Outgoing, x: Assembly)
    requires WellFormed(c, m, x.buf) && Has(x.buf, 8, [1, 0]) && SetPeerPublicKey(c, m, x).Ok?
    ensures Has(SetPeerPublicKey(c, m, x).value.buf, 8, [1, 0])
  {
    hide BigEndian, KeyGen1Value, KeyGen2Value, Splice, AgreementHolds, CompressionHolds, INITIAL_HASH;
    var pk, e, nonce := m.remotePk.value, c.pub(m.ephemeralSk), Nonce(x.buf);
    var chain1 := x.chainIn + pk + e;
    var (key2, staticKey) := KeyGen2Value(c, KeyGen1Value(c, x.chainKey, e), c.dh(m.ephemeralSk, pk).value);
    var sealedPk := c.seal(staticKey, nonce, c.pub(m.deviceSk), c.hash(chain1));
    var timeKey := KeyGen2Value(c, key2, c.dh(m.deviceSk, pk).value).1;
    var tsBytes := BigEndian(AsUint64(m.initTime), TIMESTAMP_SIZE);
    assert |tsBytes| == TIMESTAMP_SIZE;
    var time := c.seal(timeKey, nonce, tsBytes, c.hash(chain1 + sealedPk));
    HasKept(x.buf, StaticAt(c.scheme), sealedPk, 8, [1, 0]);
    HasKept(Splice(x.buf, StaticAt(c.scheme), sealedPk), TimestampAt(c.scheme), time, 8, [1, 0]);
  }

  lemma FinishKeepsVersion(c: Suite, m: Outgoing, x: Assembly)
    requires WellFormed(c, m, x.buf) && Has(x.buf, 8, [1, 0]) && EncryptBody(c, m, x).Ok?
    ensures Has(EncryptBody(c, m, x).value, 8, [1, 0])
  {
    hide BigEndian, Splice, MaskedWords, AgreementHolds, CompressionHolds, SealingHolds, INITIAL_HASH, SentTail, FlagWord;
    forall b: bytes, s: bytes, off: nat | |b| == |x.buf| && Has(b, 8, [1, 0]) && off + |s| <= |b|
                                          && (off + |s| <= 8 || 10 <= off)
      ensures Has(Splice(b, off, s), 8, [1, 0])
    {
      HasKept(b, off, s, 8, [1, 0]);
    }
  }

  // ---- Tables ----

  /** Agents and access controllers hear from servers only, and a server hears from everybody else. */
  lemma WhoHearsWhom(d: DeviceType, t: nat)
    requires MayReceive(d, t)
    ensures d.Agent? || d.Ac? ==> SenderType(t).Server?
    ensures d.Server? ==> SenderType(t) in {Agent, Ac, Relay, Db, DhpAgent}
    ensures d.Db? ==> SenderType(t) in {Server, Db}
    ensures d.Relay? ==> SenderType(t) in {Agent, Server}
    ensures d != NoDevice && d != DhpAgent
  {
  }

  /** The chain hash that seals a message names both keys, and what was sealed before. */
  lemma ChainNamesKeys(c: Suite, m: Outgoing, m': Outgoing, pk: bytes, pk': bytes, ck: Option<bytes>, ck': Option<bytes>)
    requires Lawful(c) && Agrees(c, m, pk) && Agrees(c, m', pk')
    requires ExchangeOf(c, m, pk, ck).chainIn == ExchangeOf(c, m', pk', ck').chainIn
    ensures pk == pk' && c.pub(m.ephemeralSk) == c.pub(m'.ephemeralSk)
    ensures ExchangeOf(c, m, pk, ck).sealedPk == ExchangeOf(c, m', pk', ck').sealedPk
    ensures ExchangeOf(c, m, pk, ck).time == ExchangeOf(c, m', pk', ck').time
  {
    hide KeyGen1Value, KeyGen2Value, INITIAL_HASH, FirstChainKey, BigEndian, NonceOf;
    var x, y := ExchangeOf(c, m, pk, ck), ExchangeOf(c, m', pk', ck');
    ExchangeSizes(c, m, pk, ck);
    ExchangeSizes(c, m', pk', ck');
    EphemeralSize(c, m.ephemeralSk);
    EphemeralSize(c, m'.ephemeralSk);
    SameParts(INITIAL_HASH, pk, c.pub(m.ephemeralSk), x.sealedPk, x.time,
              pk', c.pub(m'.ephemeralSk), y.sealedPk, y.time);
  }

  lemma SameParts(h: bytes, a: bytes, b: bytes, d: bytes, e: bytes, a': bytes, b': bytes, d': bytes, e': bytes)
    requires |a| == |a'| && |b| == |b'| && |d| == |d'| && |e| == |e'|
    requires h + a + b + d + e == h + a' + b' + d' + e'
    ensures a == a' && b == b' && d == d' && e == e'
  {
    var x, y := h + a + b + d + e, h + a' + b' + d' + e';
    var i, j, k := |h| + |a|, |h| + |a| + |b|, |h| + |a| + |b| + |d|;
    assert a == x[|h|..i] && a' == y[|h|..i];
    assert b == x[i..j] && b' == y[i..j];
    assert d == x[j..k] && d' == y[j..k];
    assert e == x[k..] && e' == y[k..];
  }
}
