/** The receiver recovers what the sender sealed, for requests and for replies. */
module HandshakeProofs {
  import opened Bytes
  import opened Primitives
  import opened PacketLayout
  import opened Handshake
  import Connection

  // ---- Where the fields of a sent packet are ----

  ghost predicate Has(buf: bytes, lo: nat, f: bytes) {
    lo + |f| <= |buf| && buf[lo..lo + |f|] == f
  }

  lemma HasSpliced(buf: bytes, off: nat, s: bytes)
    requires off + |s| <= |buf|
    ensures Has(Splice(buf, off, s), off, s)
  {
    SpliceInside(buf, off, s);
  }

  lemma HasKept(buf: bytes, off: nat, s: bytes, lo: nat, f: bytes)
    requires off + |s| <= |buf| && Has(buf, lo, f)
    requires lo + |f| <= off || off + |s| <= lo
    ensures Has(Splice(buf, off, s), lo, f)
  {
    SpliceOutside(buf, off, s, lo, lo + |f|);
  }

  /** The fields that are in place before the header is finished. */
  ghost predicate Begun(c: Suite, m: Outgoing, buf: bytes) {
    && |buf| == PACKET_BUFFER_SIZE
    && Has(buf, 16, BigEndian(m.trxId, 8))
    && Has(buf, HEADER_COMMON_SIZE, c.pub(m.ephemeralSk))
  }

  lemma BeginPutsFields(c: Suite, m: Outgoing, buf: bytes, chainKey: Option<bytes>)
    requires WellFormed(c, m, buf)
    ensures var b := Begin(c, m, buf, chainKey).buf;
            Begun(c, m, b) && Has(b, 10, buf[10..12])
  {
    hide BigEndian, Lawful;
    var v := [1, 0];
    var b1 := if chainKey.None? then SetVersion(buf) else buf;
    var n, e := BigEndian(m.trxId, 8), c.pub(m.ephemeralSk);
    assert |n| == 8 && |e| == PublicKeySize(c.scheme) by { EphemeralSize(c, m.ephemeralSk); }
    var b2 := Splice(b1, 16, n);
    assert Has(b1, 10, buf[10..12]) by {
      HasKept(buf, 8, v, 10, buf[10..12]);
    }
    HasSpliced(b1, 16, n);
    HasKept(b1, 16, n, 10, buf[10..12]);
    HasSpliced(b2, HEADER_COMMON_SIZE, e);
    HasKept(b2, HEADER_COMMON_SIZE, e, 16, n);
    HasKept(b2, HEADER_COMMON_SIZE, e, 10, buf[10..12]);
  }

  lemma EphemeralSize(c: Suite, sk: bytes)
    requires Lawful(c)
    ensures |c.pub(sk)| == PublicKeySize(c.scheme)
  {
  }

  /** The nonce is the transaction id, whatever else is in the buffer. */
  function NonceOf(m: Outgoing): bytes {
    Zeros(GCM_NONCE_SIZE - 8) + BigEndian(m.trxId, 8)
  }

  /** The values that both sides derive, starting from one chain key. */
  datatype Exchange = Exchange(chainIn: bytes, key2: bytes, sealedPk: bytes, chain2: bytes,
                               key4: bytes, bodyKey: bytes, time: bytes)

  function Derive(c: Suite, m: Outgoing, pk: bytes, ess: bytes, ss: bytes, chainKey: bytes): Exchange {
    var chain1 := INITIAL_HASH + pk + c.pub(m.ephemeralSk);
    var (key2, staticKey) := KeyGen2Value(c, KeyGen1Value(c, chainKey, c.pub(m.ephemeralSk)), ess);
    var sealedPk := c.seal(staticKey, NonceOf(m), c.pub(m.deviceSk), c.hash(chain1));
    var chain2 := chain1 + sealedPk;
    var (key3, timeKey) := KeyGen2Value(c, key2, ss);
    var time := c.seal(timeKey, NonceOf(m), BigEndian(AsUint64(m.initTime), TIMESTAMP_SIZE), c.hash(chain2));
    var (key4, bodyKey) := KeyGen2Value(c, key3, time);
    Exchange(chain2 + time, key2, sealedPk, chain2, key4, bodyKey, time)
  }

  /** The keys exist on the sender's side: otherwise setPeerPublicKey reports an error. */
  ghost predicate Agrees(c: Suite, m: Outgoing, pk: bytes) {
    && m.remotePk == Some(pk) && |pk| == PublicKeySize(c.scheme)
    && c.dh(m.ephemeralSk, pk).Some? && c.dh(m.deviceSk, pk).Some?
  }

  function ExchangeOf(c: Suite, m: Outgoing, pk: bytes, chainKey: Option<bytes>): Exchange
    requires c.dh(m.ephemeralSk, pk).Some? && c.dh(m.deviceSk, pk).Some?
  {
    Derive(c, m, pk, c.dh(m.ephemeralSk, pk).value, c.dh(m.deviceSk, pk).value,
           if chainKey.None? then FirstChainKey(c) else chainKey.value)
  }

  lemma ExchangeSizes(c: Suite, m: Outgoing, pk: bytes, chainKey: Option<bytes>)
    requires Lawful(c) && Agrees(c, m, pk)
    ensures var x := ExchangeOf(c, m, pk, chainKey);
            |x.sealedPk| == PublicKeySize(c.scheme) + GCM_TAG_SIZE && |x.time| == TIMESTAMP_SIZE + GCM_TAG_SIZE
  {
    assert |BigEndian(AsUint64(m.initTime), TIMESTAMP_SIZE)| == TIMESTAMP_SIZE;
    EphemeralSize(c, m.deviceSk);
    hide KeyGen1Value, KeyGen2Value, BigEndian, INITIAL_HASH;
  }

  /** The sealed fields are in place as well. */
  ghost predicate Keyed(c: Suite, m: Outgoing, x: Exchange, buf: bytes) {
    && Begun(c, m, buf)
    && Has(buf, StaticAt(c.scheme), x.sealedPk)
    && Has(buf, TimestampAt(c.scheme), x.time)
  }

  lemma SetPeerPutsFields(c: Suite, m: Outgoing, buf: bytes, chainKey: Option<bytes>, pk: bytes)
    requires WellFormed(c, m, buf) && Agrees(c, m, pk)
    ensures var r := SetPeerPublicKey(c, m, Begin(c, m, buf, chainKey));
            var x := ExchangeOf(c, m, pk, chainKey);
            && r.Ok? && Keyed(c, m, x, r.value.buf) && Has(r.value.buf, 10, buf[10..12])
            && r.value == Assembly(r.value.buf, INITIAL_HASH + pk, x.chainIn, x.key4, x.bodyKey)
  {
    hide BigEndian, KeyGen1Value, KeyGen2Value, Splice, INITIAL_HASH, FirstChainKey, SizesHold, AgreementHolds, SealingHolds;
    BeginPutsFields(c, m, buf, chainKey);
    ExchangeSizes(c, m, pk, chainKey);
    EphemeralSize(c, m.ephemeralSk);
    var b, x := Begin(c, m, buf, chainKey).buf, ExchangeOf(c, m, pk, chainKey);
    assert Nonce(b) == NonceOf(m);
    var b1 := Splice(b, StaticAt(c.scheme), x.sealedPk);
    var n, e := BigEndian(m.trxId, 8), c.pub(m.ephemeralSk);
    assert |n| == 8;
    HasSpliced(b, StaticAt(c.scheme), x.sealedPk);
    HasKept(b, StaticAt(c.scheme), x.sealedPk, 16, n);
    HasKept(b, StaticAt(c.scheme), x.sealedPk, HEADER_COMMON_SIZE, e);
    HasKept(b, StaticAt(c.scheme), x.sealedPk, 10, buf[10..12]);
    HasSpliced(b1, TimestampAt(c.scheme), x.time);
    HasKept(b1, TimestampAt(c.scheme), x.time, 16, n);
    HasKept(b1, TimestampAt(c.scheme), x.time, HEADER_COMMON_SIZE, e);
    HasKept(b1, TimestampAt(c.scheme), x.time, StaticAt(c.scheme), x.sealedPk);
    HasKept(b1, TimestampAt(c.scheme), x.time, 10, buf[10..12]);
  }

  lemma HasPrefix(buf: bytes, n: nat, t: bytes, lo: nat, f: bytes)
    requires Has(buf, lo, f) && lo + |f| <= n <= |buf|
    ensures Has(buf[..n] + t, lo, f)
  {
    assert (buf[..n] + t)[lo..lo + |f|] == buf[lo..lo + |f|];
  }

  /** The flag bytes on the wire: written with a body, left over from the buffer without one. */
  function WireFlags(c: Suite, m: Outgoing, buf: bytes): (r: bytes)
    requires |buf| == PACKET_BUFFER_SIZE
    ensures |r| == 2
  {
    if m.message == [] then buf[10..12] else BigEndian(FlagWord(c.scheme, SentFlag(m)), 2)
  }

  function WireBody(c: Suite, m: Outgoing, x: Exchange): bytes {
    if m.message == [] then [] else c.seal(x.bodyKey, NonceOf(m), BodyOf(c, m), c.hash(x.chainIn))
  }

  /** A packet as it leaves the sender: every field of the header, and the body. */
  ghost predicate OnWire(c: Suite, m: Outgoing, x: Exchange, pk: bytes, flags: bytes, content: bytes) {
    && |content| == HeaderSize(c.scheme) + |WireBody(c, m, x)| && |content| <= PACKET_BUFFER_SIZE && |flags| == 2
    && m.preamble < U32
    && Has(content, 0, MaskedWords(m.headerType, |WireBody(c, m, x)|, m.preamble))
    && Has(content, 10, flags)
    && Has(content, 16, BigEndian(m.trxId, 8))
    && Has(content, HEADER_COMMON_SIZE, c.pub(m.ephemeralSk))
    && Has(content, StaticAt(c.scheme), x.sealedPk)
    && Has(content, TimestampAt(c.scheme), x.time)
    && HmacField(c.scheme, content) == c.hash(INITIAL_HASH + pk + content[..HmacAt(c.scheme)] + SentTail(m))
    && content[HeaderSize(c.scheme)..] == WireBody(c, m, x)
  }

  /** Writing the words at the front, then the HMAC, and cutting the header out of the buffer. */
  lemma FinishPutsFields(c: Suite, m: Outgoing, x: Exchange, pk: bytes, a: Assembly, b: bytes, flags: bytes, body: bytes)
    requires Lawful(c) && m.preamble < U32 && |x.time| == TIMESTAMP_SIZE + GCM_TAG_SIZE
    requires |x.sealedPk| == PublicKeySize(c.scheme) + GCM_TAG_SIZE
    requires Keyed(c, m, x, b) && Has(b, 10, flags) && |flags| == 2 && a.hmacIn == INITIAL_HASH + pk
    requires body == WireBody(c, m, x) && HeaderSize(c.scheme) + |body| <= PACKET_BUFFER_SIZE
    ensures var h := AddHmac(c, m, a.hmacIn, SetTypeAndSize(b, m.headerType, |body|, m.preamble));
            Nonce(h) == NonceOf(m) && OnWire(c, m, x, pk, flags, h[..HeaderSize(c.scheme)] + body)
  {
    hide BigEndian, MaskedWords, Splice, INITIAL_HASH, SealingHolds, AgreementHolds, SentTail, WireBody;
    var words := MaskedWords(m.headerType, |body|, m.preamble);
    var b1 := Splice(b, 0, words);
    var at, size := HmacAt(c.scheme), HeaderSize(c.scheme);
    var mac := c.hash(a.hmacIn + b1[..at] + SentTail(m));
    assert |mac| == HASH_SIZE;
    var h := Splice(b1, at, mac);
    var n, e := BigEndian(m.trxId, 8), c.pub(m.ephemeralSk);
    EphemeralSize(c, m.ephemeralSk);
    assert |n| == 8;
    HasSpliced(b, 0, words);
    HasSpliced(b1, at, mac);
    HasKept(b1, at, mac, 0, words);
    KeepBoth(b, words, at, mac, 10, flags);
    KeepBoth(b, words, at, mac, 16, n);
    KeepBoth(b, words, at, mac, HEADER_COMMON_SIZE, e);
    KeepBoth(b, words, at, mac, StaticAt(c.scheme), x.sealedPk);
    KeepBoth(b, words, at, mac, TimestampAt(c.scheme), x.time);
    SpliceOutside(b1, at, mac, 0, at);
    var content := h[..size] + body;
    assert content[..at] == h[0..at] == b1[0..at] == b1[..at];
    HasPrefix(h, size, body, 0, words);
    HasPrefix(h, size, body, 10, flags);
    HasPrefix(h, size, body, 16, n);
    HasPrefix(h, size, body, HEADER_COMMON_SIZE, e);
    HasPrefix(h, size, body, StaticAt(c.scheme), x.sealedPk);
    HasPrefix(h, size, body, TimestampAt(c.scheme), x.time);
    HasPrefix(h, size, body, at, mac);
  }

  lemma KeepBoth(b: bytes, words: bytes, at: nat, mac: bytes, lo: nat, f: bytes)
    requires |words| == 8 <= lo && |b| == PACKET_BUFFER_SIZE && at + |mac| <= PACKET_BUFFER_SIZE
    requires Has(b, lo, f) && lo + |f| <= at
    ensures Has(Splice(Splice(b, 0, words), at, mac), lo, f)
  {
    HasKept(b, 0, words, lo, f);
    HasKept(Splice(b, 0, words), at, mac, lo, f);
  }

  /** Everything a sent packet contains. It is sent exactly if the keys exist and the body fits the buffer. */
  lemma SendPutsFields(c: Suite, m: Outgoing, buf: bytes, chainKey: Option<bytes>, pk: bytes)
    requires WellFormed(c, m, buf) && Agrees(c, m, pk)
    ensures var r, x := Send(c, m, buf, chainKey), ExchangeOf(c, m, pk, chainKey);
            && (r.Ok? <==> HeaderSize(c.scheme) + |WireBody(c, m, x)| <= PACKET_BUFFER_SIZE)
            && (r.Ok? ==> OnWire(c, m, x, pk, WireFlags(c, m, buf), r.value))
  {
    hide BigEndian, KeyGen1Value, KeyGen2Value, Splice, MaskedWords, INITIAL_HASH, Begin, SetPeerPublicKey, ExchangeOf;
    hide AgreementHolds, OnWire, AddHmac;
    var x := ExchangeOf(c, m, pk, chainKey);
    SetPeerPutsFields(c, m, buf, chainKey, pk);
    ExchangeSizes(c, m, pk, chainKey);
    var a := SetPeerPublicKey(c, m, Begin(c, m, buf, chainKey)).value;
    var flags, body := WireFlags(c, m, buf), WireBody(c, m, x);
    if m.message == [] {
      FinishPutsFields(c, m, x, pk, a, a.buf, flags, body);
      var h := AddHmac(c, m, a.hmacIn, SetTypeAndSize(a.buf, m.headerType, 0, m.preamble));
      assert h[..HeaderSize(c.scheme)] + body == h[..HeaderSize(c.scheme)];
    } else if HeaderSize(c.scheme) + |body| <= PACKET_BUFFER_SIZE {
      assert |flags| == 2;
      var b := Splice(a.buf, 10, flags);
      EphemeralSize(c, m.ephemeralSk);
      assert |BigEndian(m.trxId, 8)| == 8;
      HasSpliced(a.buf, 10, flags);
      HasKept(a.buf, 10, flags, 16, BigEndian(m.trxId, 8));
      HasKept(a.buf, 10, flags, HEADER_COMMON_SIZE, c.pub(m.ephemeralSk));
      HasKept(a.buf, 10, flags, StaticAt(c.scheme), x.sealedPk);
      HasKept(a.buf, 10, flags, TimestampAt(c.scheme), x.time);
      FinishPutsFields(c, m, x, pk, a, b, flags, body);
    }
  }

  // ---- What the receiver reads ----

  lemma WireReads(c: Suite, m: Outgoing, x: Exchange, pk: bytes, flags: bytes, content: bytes)
    requires OnWire(c, m, x, pk, flags, content) && Lawful(c) && m.headerType < U16
    requires |x.sealedPk| == PublicKeySize(c.scheme) + GCM_TAG_SIZE && |x.time| == TIMESTAMP_SIZE + GCM_TAG_SIZE
    ensures |content| >= HeaderSize(c.scheme) && Nonce(content) == NonceOf(m) && Counter(content) == m.trxId
    ensures TypeAndSize(content) == (m.headerType, |WireBody(c, m, x)|) && Flag(content) == FromBigEndian(flags)
    ensures Ephemeral(c.scheme, content) == c.pub(m.ephemeralSk)
    ensures Static(c.scheme, content) == x.sealedPk && Timestamp(c.scheme, content) == x.time
  {
    hide MaskedWords, WireBody, INITIAL_HASH, FromBigEndian, BigEndian, SealingHolds, AgreementHolds, SentTail;
    EphemeralSize(c, m.ephemeralSk);
    assert |BigEndian(m.trxId, 8)| == 8;
    PowersOfWords();
    BigEndianRoundTrip(m.trxId, 8);
    TypeAndSizeRoundTrip(content, m.headerType, |WireBody(c, m, x)|, m.preamble);
  }

  lemma OpensStatic(c: Suite, m: Outgoing, sk: bytes, chainKey: Option<bytes>, flags: bytes, content: bytes)
    requires Lawful(c) && Agrees(c, m, c.pub(sk)) && m.headerType < U16
    requires OnWire(c, m, ExchangeOf(c, m, c.pub(sk), chainKey), c.pub(sk), flags, content)
    ensures var x := ExchangeOf(c, m, c.pub(sk), chainKey);
            var start := Parser(INITIAL_HASH, if chainKey.None? then FirstChainKey(c) else chainKey.value,
                                Zeros(SYMMETRIC_KEY_SIZE));
            OpenStatic(c, sk, content, start) == Good((c.pub(m.deviceSk), Parser(x.chain2, x.key2, Zeros(SYMMETRIC_KEY_SIZE))))
  {
    hide KeyGen1Value, KeyGen2Value, INITIAL_HASH, FirstChainKey, NonceOf, Nonce, Ephemeral, Static, Timestamp, OnWire, BigEndian;
    var x := ExchangeOf(c, m, c.pub(sk), chainKey);
    ExchangeSizes(c, m, c.pub(sk), chainKey);
    WireReads(c, m, x, c.pub(sk), flags, content);
    EphemeralSize(c, m.deviceSk);
    assert Fit(c.pub(m.deviceSk), PublicKeySize(c.scheme)) == c.pub(m.deviceSk);
    assert c.dh(sk, c.pub(m.ephemeralSk)) == c.dh(m.ephemeralSk, c.pub(sk));
    var key1 := KeyGen1Value(c, if chainKey.None? then FirstChainKey(c) else chainKey.value, c.pub(m.ephemeralSk));
    var staticKey := KeyGen2Value(c, key1, c.dh(m.ephemeralSk, c.pub(sk)).value).1;
    var chain1 := INITIAL_HASH + c.pub(sk) + c.pub(m.ephemeralSk);
    assert c.open(staticKey, Nonce(content), x.sealedPk, c.hash(chain1)) == Some(c.pub(m.deviceSk));
  }

  lemma SignRoundTrip(t: int64)
    ensures AsInt64(AsUint64(t)) == t
  {
  }

  lemma OpensTime(c: Suite, m: Outgoing, sk: bytes, chainKey: Option<bytes>, flags: bytes, content: bytes)
    requires Lawful(c) && Agrees(c, m, c.pub(sk)) && m.headerType < U16
    requires OnWire(c, m, ExchangeOf(c, m, c.pub(sk), chainKey), c.pub(sk), flags, content)
    ensures var x := ExchangeOf(c, m, c.pub(sk), chainKey);
            OpenTime(c, sk, c.pub(m.deviceSk), content, Parser(x.chain2, x.key2, Zeros(SYMMETRIC_KEY_SIZE)))
            == Good((m.initTime, Parser(x.chainIn, x.key4, x.bodyKey)))
  {
    hide KeyGen1Value, KeyGen2Value, INITIAL_HASH, FirstChainKey, NonceOf, Nonce, Ephemeral, Static, Timestamp, OnWire;
    hide BigEndian, FromBigEndian, AsInt64, AsUint64, Pow256;
    var x := ExchangeOf(c, m, c.pub(sk), chainKey);
    ExchangeSizes(c, m, c.pub(sk), chainKey);
    WireReads(c, m, x, c.pub(sk), flags, content);
    var ts := BigEndian(AsUint64(m.initTime), TIMESTAMP_SIZE);
    assert |ts| == TIMESTAMP_SIZE;
    PowersOfWords();
    BigEndianRoundTrip(AsUint64(m.initTime), TIMESTAMP_SIZE);
    SignRoundTrip(m.initTime);
    assert Fit(ts, TIMESTAMP_SIZE) == ts;
    assert c.dh(sk, c.pub(m.deviceSk)) == c.dh(m.deviceSk, c.pub(sk));
    var timeKey := KeyGen2Value(c, x.key2, c.dh(m.deviceSk, c.pub(sk)).value).1;
    assert c.open(timeKey, Nonce(content), x.time, c.hash(x.chain2)) == Some(ts);
  }

  /** validatePeer on a genuine packet: only the peer pool, the clock and the overload rule can refuse it. */
  function Refusal(r: Receiver, t: nat, pk: bytes, sendTime: int64): Option<ReceiveError> {
    if r.deviceType.Server? && r.overload && !AllowedAtOverload(t) then Some(ServerOverload)
    else
      var peer := if Validates(r.options, t) then PeerError(r.peers, pk, r.wallMs, r.now, r.addr) else None;
      if peer.Some? then peer else Admission(r, t, sendTime)
  }

  lemma BodyDecrypts(c: Suite, m: Outgoing, sk: bytes, chainKey: Option<bytes>, flags: bytes, content: bytes)
    requires Lawful(c) && Agrees(c, m, c.pub(sk)) && m.headerType < U16
    requires OnWire(c, m, ExchangeOf(c, m, c.pub(sk), chainKey), c.pub(sk), flags, content)
    requires m.message != [] ==> flags == BigEndian(FlagWord(c.scheme, SentFlag(m)), 2)
    ensures var x := ExchangeOf(c, m, c.pub(sk), chainKey);
            DecryptBody(c, content, Parser(x.chainIn, x.key4, x.bodyKey)) == Good(m.message)
  {
    hide KeyGen1Value, KeyGen2Value, INITIAL_HASH, FirstChainKey, NonceOf, Nonce, BigEndian, FromBigEndian, Derive;
    hide MaskedWords, AgreementHolds, SizesHold, SentTail;
    var x := ExchangeOf(c, m, c.pub(sk), chainKey);
    ExchangeSizes(c, m, c.pub(sk), chainKey);
    WireReads(c, m, x, c.pub(sk), flags, content);
    if m.message != [] {
      FlagRoundTrip(content, c.scheme, SentFlag(m));
    }
  }

  /** The receiver's HMAC check on a genuine packet, for any tail the receiver sums. */
  lemma HmacMatches(c: Suite, m: Outgoing, sk: bytes, x: Exchange, flags: bytes, content: bytes, tail: bytes)
    requires OnWire(c, m, x, c.pub(sk), flags, content)
    ensures var header := INITIAL_HASH + c.pub(sk) + content[..HmacAt(c.scheme)];
            CheckHmac(c, sk, content, tail) <==> c.hash(header + tail) == c.hash(header + SentTail(m))
  {
    hide INITIAL_HASH, MaskedWords, WireBody, BigEndian;
  }

  /** The hash cannot tell the cookie that the receiver sums from the one that the sender summed. */
  predicate SameMac(c: Suite, m: Outgoing, sk: bytes, r: Receiver, content: bytes)
    requires |content| >= HeaderSize(c.scheme)
  {
    var header := INITIAL_HASH + c.pub(sk) + content[..HmacAt(c.scheme)];
    c.hash(header + ExpectedTail(r, m.headerType)) == c.hash(header + SentTail(m))
  }

  /** What a receiver is to make of a genuine packet: refuse it, or recover what the sender put in. */
  function VerdictOn(c: Suite, m: Outgoing, sk: bytes, r: Receiver, content: bytes): Result<Received>
    requires |content| >= HeaderSize(c.scheme)
  {
    if r.deviceType.Server? && r.overload && !AllowedAtOverload(m.headerType) then Bad(ServerOverload)
    else if !SameMac(c, m, sk, r, content) then Bad(HmacCheckFailed)
    else
      match Refusal(r, m.headerType, c.pub(m.deviceSk), m.initTime)
      case Some(e) => Bad(e)
      case None => Good(Received(c.pub(m.deviceSk), m.initTime, m.trxId, m.headerType, m.message))
  }

  /** Parsing a genuine packet from the sender's own chain key. */
  lemma ParseRecovers(c: Suite, m: Outgoing, buf: bytes, chainKey: Option<bytes>, sk: bytes, r: Receiver)
    requires WellFormed(c, m, buf) && Agrees(c, m, c.pub(sk)) && Send(c, m, buf, chainKey).Ok?
    ensures var content := Send(c, m, buf, chainKey).value;
            |content| >= HeaderSize(c.scheme) && Parse(c, sk, r, content, chainKey) == VerdictOn(c, m, sk, r, content)
  {
    hide KeyGen1Value, KeyGen2Value, INITIAL_HASH, FirstChainKey, NonceOf, Nonce, BigEndian, FromBigEndian, ExchangeOf;
    hide MaskedWords, Send, OnWire, OpenStatic, OpenTime, DecryptBody, Admission, PeerError, Validates, Lawful, SentTail, CheckHmac;
    hide AllowedAtOverload, WireBody, ExpectedTail;
    var pk, content := c.pub(sk), Send(c, m, buf, chainKey).value;
    var flags := WireFlags(c, m, buf);
    SendPutsFields(c, m, buf, chainKey, pk);
    var x := ExchangeOf(c, m, pk, chainKey);
    ExchangeSizes(c, m, pk, chainKey);
    WireReads(c, m, x, pk, flags, content);
    HmacMatches(c, m, sk, x, flags, content, ExpectedTail(r, m.headerType));
    OpensStatic(c, m, sk, chainKey, flags, content);
    OpensTime(c, m, sk, chainKey, flags, content);
    BodyDecrypts(c, m, sk, chainKey, flags, content);
  }

  // ---- Main results ----

  /** The scheme that a receiver will read off the packet. */
  function WireScheme(c: Suite, m: Outgoing, buf: bytes): Scheme
    requires |buf| == PACKET_BUFFER_SIZE
  {
    SchemeOf(FromBigEndian(WireFlags(c, m, buf)))
  }

  /**
   RecvPrecheck accepts a genuine packet of a type the device may receive if and only if the scheme can be
   read off its flags. With a body it always can; without one, that is up to the flags that an earlier use
   left in the packet buffer.
   */
  lemma PrecheckIffSchemeShows(c: Suite, m: Outgoing, buf: bytes, chainKey: Option<bytes>, pk: bytes, d: DeviceType)
    requires WellFormed(c, m, buf) && Agrees(c, m, pk) && Send(c, m, buf, chainKey).Ok?
    requires MayReceive(d, m.headerType)
    ensures var content := Send(c, m, buf, chainKey).value;
            && |content| >= MINIMAL_LENGTH
            && SchemeOf(Flag(content)) == WireScheme(c, m, buf)
            && Precheck(d, content) == (
              if WireScheme(c, m, buf) == c.scheme then Good((m.headerType, |content| - HeaderSize(c.scheme)))
              else Bad(BadTotalSize))
    ensures m.message != [] ==> WireScheme(c, m, buf) == c.scheme
  {
    hide BigEndian, FromBigEndian, Send, OnWire, TypeAndSize, ExchangeOf, Derive, MaskedWords, WireBody, Lawful;
    var content := Send(c, m, buf, chainKey).value;
    var flags := WireFlags(c, m, buf);
    SendPutsFields(c, m, buf, chainKey, pk);
    var x := ExchangeOf(c, m, pk, chainKey);
    ExchangeSizes(c, m, pk, chainKey);
    WireReads(c, m, x, pk, flags, content);
    WireLength(c, m, x, pk, flags, content);
    if m.message != [] {
      FlagRoundTrip(content, c.scheme, SentFlag(m));
    } else {
      assert WireBody(c, m, x) == [] by { EmptyWireBody(c, m, x); }
    }
  }

  /** For instance: an SM2 knock without a body from a new buffer, which is all zeros, looks like the other scheme's. */
  lemma EmptyBodyFromNewBufferIsRefused()
    ensures var c := TransparentSuite(Gmsm);
            var m := Outgoing([], [], Some(Zeros(PublicKeySize(Gmsm))), 0, 0, NHP_KNK, 1, [], false, false, []);
            var buf := Zeros(PACKET_BUFFER_SIZE);
            && WellFormed(c, m, buf) && Send(c, m, buf, None).Ok?
            && Precheck(Server, Send(c, m, buf, None).value) == Bad(BadTotalSize)
  {
    hide Send, Precheck, ExchangeOf, WireBody, OnWire;
    var c := TransparentSuite(Gmsm);
    var pk := Zeros(PublicKeySize(Gmsm));
    var m := Outgoing([], [], Some(pk), 0, 0, NHP_KNK, 1, [], false, false, []);
    var buf := Zeros(PACKET_BUFFER_SIZE);
    LawfulSuiteExists(Gmsm);
    hide TransparentSuite;
    assert Agrees(c, m, pk) by { TransparentSecrets(pk); }
    SendPutsFields(c, m, buf, None, pk);
    EmptyWireBody(c, m, ExchangeOf(c, m, pk, None));
    PrecheckIffSchemeShows(c, m, buf, None, pk, Server);
    ZeroFlags(buf[10..12]);
  }

  lemma TransparentSecrets(pk: bytes)
    ensures TransparentSuite(Gmsm).dh([], pk).Some?
  {
  }

  lemma ZeroFlags(flags: bytes)
    requires flags == [0, 0]
    ensures FromBigEndian(flags) == 0
  {
    assert flags[..1] == [0] && flags[..1][..0] == [];
  }

  lemma EmptyWireBody(c: Suite, m: Outgoing, x: Exchange)
    requires m.message == []
    ensures WireBody(c, m, x) == []
  {
  }

  lemma WireLength(c: Suite, m: Outgoing, x: Exchange, pk: bytes, flags: bytes, content: bytes)
    requires OnWire(c, m, x, pk, flags, content)
    ensures |content| == HeaderSize(c.scheme) + |WireBody(c, m, x)|
    ensures content[10..12] == flags
  {
  }

  /**
   Requests: whatever the keys, the scheme, the buffer and the message, a receiver of the packet's type refuses a
   genuine packet if its flags do not show its scheme, if the receiver sums another cookie, or for a reason outside
   the packet; otherwise it recovers exactly the sender's public key, time, transaction id, type and message.
   */
  lemma RequestRoundTrip(suites: Scheme -> Suite, c: Suite, m: Outgoing, buf: bytes, sk: bytes, r: Receiver)
    requires forall s :: suites(s).scheme == s
    requires suites(c.scheme) == c && WellFormed(c, m, buf) && Agrees(c, m, c.pub(sk)) && Send(c, m, buf, None).Ok?
    requires MayReceive(r.deviceType, m.headerType)
    ensures var content := Send(c, m, buf, None).value;
            && |content| >= HeaderSize(c.scheme)
            && Receive(suites, sk, r, content)
            == if WireScheme(c, m, buf) == c.scheme then VerdictOn(c, m, sk, r, content) else Bad(BadTotalSize)
  {
    hide BigEndian, FromBigEndian, Send, Parse, Precheck, WireScheme, Refusal, Lawful, ExpectedTail, SentTail, VerdictOn;
    PrecheckIffSchemeShows(c, m, buf, None, c.pub(sk), r.deviceType);
    ParseRecovers(c, m, buf, None, sk, r);
  }

  /**
   The reply: encryptBody and decryptBody have both cleared their chain keys, so the responder's next packet
   and the initiator's parser start from the same zero key, and the initiator recovers the reply under the
   transaction id of its own request.
   */
  lemma TransactionRoundTrip(c: Suite, m: Outgoing, got: Received, sk: bytes, reply: Outgoing, buf: bytes, i: Receiver)
    requires WellFormed(c, reply, buf) && m.remotePk == Some(c.pub(sk))
    requires got.remotePk == c.pub(m.deviceSk) && got.trxId == m.trxId
    requires reply.deviceSk == sk && reply.remotePk == Some(got.remotePk) && reply.trxId == got.trxId
    requires Send(c, reply, buf, Some(Zeros(SYMMETRIC_KEY_SIZE))).Ok? && MayReceive(i.deviceType, reply.headerType)
    ensures var content := Send(c, reply, buf, Some(Zeros(SYMMETRIC_KEY_SIZE))).value;
            && |content| >= HeaderSize(c.scheme)
            && ReceiveReply(c, m.deviceSk, i, content, Zeros(SYMMETRIC_KEY_SIZE)) == (
              if WireScheme(c, reply, buf) != c.scheme then Bad(BadTotalSize)
              else if i.deviceType.Server? && i.overload && !AllowedAtOverload(reply.headerType) then Bad(ServerOverload)
              else if !SameMac(c, reply, m.deviceSk, i, content) then Bad(HmacCheckFailed)
              else
                match Refusal(i, reply.headerType, m.remotePk.value, reply.initTime)
                case Some(e) => Bad(e)
                case None => Good(Received(m.remotePk.value, reply.initTime, m.trxId, reply.headerType, reply.message)))
  {
    hide BigEndian, FromBigEndian, Parse, Lawful, ExpectedTail, SentTail, Begin, EncryptBody, Refusal, SameMac, Precheck;
    hide MayReceive, WireScheme;
    SendAgrees(c, reply, buf, Some(Zeros(SYMMETRIC_KEY_SIZE)), c.pub(m.deviceSk));
    PrecheckIffSchemeShows(c, reply, buf, Some(Zeros(SYMMETRIC_KEY_SIZE)), c.pub(m.deviceSk), i.deviceType);
    ParseRecovers(c, reply, buf, Some(Zeros(SYMMETRIC_KEY_SIZE)), m.deviceSk, i);
  }

  // ---- Cookies that one side sums and the other does not ----

  /** The hash does not collide on the packet's header with the sender's cookie and with the receiver's. */
  ghost predicate NoCollision(c: Suite, m: Outgoing, sk: bytes, r: Receiver, content: bytes)
    requires |content| >= HeaderSize(c.scheme)
  {
    var header := INITIAL_HASH + c.pub(sk) + content[..HmacAt(c.scheme)];
    var expected, sent := header + ExpectedTail(r, m.headerType), header + SentTail(m);
    c.hash(expected) == c.hash(sent) ==> expected == sent
  }

  lemma SameMacIffSameCookie(c: Suite, m: Outgoing, sk: bytes, r: Receiver, content: bytes)
    requires |content| >= HeaderSize(c.scheme) && NoCollision(c, m, sk, r, content)
    ensures SameMac(c, m, sk, r, content) <==> ExpectedTail(r, m.headerType) == SentTail(m)
  {
    hide INITIAL_HASH, ExpectedTail, SentTail;
    var header := INITIAL_HASH + c.pub(sk) + content[..HmacAt(c.scheme)];
    if header + ExpectedTail(r, m.headerType) == header + SentTail(m) {
      assert (header + ExpectedTail(r, m.headerType))[|header|..] == (header + SentTail(m))[|header|..];
    }
  }

  /**
   If nothing else speaks against a genuine packet, it is accepted exactly if the receiver sums what the sender
   summed: so a reknock is accepted only under overload, with the cookie expected there, or with an empty one.
   */
  lemma AcceptedIffSameCookie(suites: Scheme -> Suite, c: Suite, m: Outgoing, buf: bytes, sk: bytes, r: Receiver)
    requires forall s :: suites(s).scheme == s
    requires suites(c.scheme) == c && WellFormed(c, m, buf) && Agrees(c, m, c.pub(sk)) && Send(c, m, buf, None).Ok?
    requires |Send(c, m, buf, None).value| >= HeaderSize(c.scheme)
    requires MayReceive(r.deviceType, m.headerType) && WireScheme(c, m, buf) == c.scheme
    requires Refusal(r, m.headerType, c.pub(m.deviceSk), m.initTime) == None
    requires NoCollision(c, m, sk, r, Send(c, m, buf, None).value)
    ensures Receive(suites, sk, r, Send(c, m, buf, None).value)
         == if ExpectedTail(r, m.headerType) == SentTail(m)
            then Good(Received(c.pub(m.deviceSk), m.initTime, m.trxId, m.headerType, m.message))
            else Bad(HmacCheckFailed)
  {
    hide Send, Receive, SameMac, NoCollision, WellFormed, Agrees, WireScheme, MayReceive, ExpectedTail, SentTail;
    hide PeerError, Validates, Admission, AllowedAtOverload;
    RequestRoundTrip(suites, c, m, buf, sk, r);
    SameMacIffSameCookie(c, m, sk, r, Send(c, m, buf, None).value);
  }

  /** A suite without secrecy whose hash is the end of its input. */
  function TailSuite(s: Scheme): Suite {
    TransparentSuite(s).(hash := m => Fit(if |m| < HASH_SIZE then m else m[|m| - HASH_SIZE..], HASH_SIZE))
  }

  lemma LawfulTailSuite(s: Scheme)
    ensures Lawful(TailSuite(s)) && TailSuite(s).scheme == s
  {
    hide Fit;
    LawfulSuiteExists(s);
  }

  /** For instance: a server that is not short of connections refuses a reknock, whoever knocks. */
  lemma ReknockWithoutOverloadIsRefused(r: Receiver)
    requires r.deviceType.Server? && !r.overload
    ensures var m := Outgoing([], [], Some(Zeros(PublicKeySize(Curve))), 0, 0, NHP_RKN, 1, [1], false, false,
                              seq(Connection.COOKIE_SIZE, i => 1));
            var buf := Zeros(PACKET_BUFFER_SIZE);
            && WellFormed(TailSuite(Curve), m, buf) && Send(TailSuite(Curve), m, buf, None).Ok?
            && Receive(s => TailSuite(s), [], r, Send(TailSuite(Curve), m, buf, None).value) == Bad(HmacCheckFailed)
  {
    hide Send, Receive, Precheck, ExchangeOf, OnWire, SameMac;
    var c, pk := TailSuite(Curve), Zeros(PublicKeySize(Curve));
    var m := Outgoing([], [], Some(pk), 0, 0, NHP_RKN, 1, [1], false, false, seq(Connection.COOKIE_SIZE, i => 1));
    var buf := Zeros(PACKET_BUFFER_SIZE);
    forall s ensures TailSuite(s).scheme == s {
    }
    LawfulTailSuite(Curve);
    assert c.pub([]) == pk && Agrees(c, m, pk);
    var x := ExchangeOf(c, m, pk, None);
    assert |WireBody(c, m, x)| == 1 + GCM_TAG_SIZE;
    SendPutsFields(c, m, buf, None, pk);
    var content := Send(c, m, buf, None).value;
    hide TailSuite, Lawful, Fit, WireBody;
    PrecheckIffSchemeShows(c, m, buf, None, pk, Server);
    RequestRoundTrip(s => TailSuite(s), c, m, buf, [], r);
    HeaderEndsInTag(c, m, x, pk, WireFlags(c, m, buf), content);
    TailsDiffer(m, r, content);
  }

  lemma HeaderEndsInTag(c: Suite, m: Outgoing, x: Exchange, pk: bytes, flags: bytes, content: bytes)
    requires c == TailSuite(Curve) && m.remotePk == Some(pk) && Agrees(c, m, pk) && x == ExchangeOf(c, m, pk, None)
    requires OnWire(c, m, x, pk, flags, content) && |content| >= HeaderSize(Curve)
    ensures content[HmacAt(Curve) - 1] == 0
  {
    hide KeyGen1Value, KeyGen2Value, INITIAL_HASH, FirstChainKey, BigEndian, WireBody, MaskedWords, NonceOf, SentTail, Fit;
    LawfulTailSuite(Curve);
    ExchangeSizes(c, m, pk, None);
    assert content[TimestampAt(Curve)..TimestampAt(Curve) + |x.time|] == x.time;
    assert x.time[|x.time| - 1] == 0;
  }

  lemma TailHash(s: bytes)
    requires |s| >= HASH_SIZE
    ensures TailSuite(Curve).hash(s) == s[|s| - HASH_SIZE..]
  {
  }

  lemma TailsDiffer(m: Outgoing, r: Receiver, content: bytes)
    requires r.deviceType.Server? && !r.overload && m.headerType == NHP_RKN
    requires m.cookie == seq(Connection.COOKIE_SIZE, i => 1)
    requires |content| >= HeaderSize(Curve) && content[HmacAt(Curve) - 1] == 0
    ensures !SameMac(TailSuite(Curve), m, [], r, content)
  {
    hide INITIAL_HASH, TailSuite, Lawful;
    LawfulTailSuite(Curve);
    var c := TailSuite(Curve);
    var header := INITIAL_HASH + c.pub([]) + content[..HmacAt(Curve)];
    TailHash(header);
    TailHash(header + m.cookie);
    assert header + [] == header && header[|header| - 1] == 0;
    assert (header + m.cookie)[|header + m.cookie| - HASH_SIZE..] == m.cookie;
    assert c.hash(header)[HASH_SIZE - 1] == 0 && c.hash(header + m.cookie)[HASH_SIZE - 1] == 1;
  }

  /** Sending succeeds only with usable keys. */
  lemma SendAgrees(c: Suite, m: Outgoing, buf: bytes, chainKey: Option<bytes>, pk: bytes)
    requires WellFormed(c, m, buf) && Send(c, m, buf, chainKey).Ok? && m.remotePk == Some(pk)
    ensures Agrees(c, m, pk)
  {
    hide BigEndian, Begin, EncryptBody, KeyGen1Value, KeyGen2Value, Splice, Lawful;
  }

  /**
   Once a packet has passed a connection's time checks, the same bytes are refused there for ever after, whatever
   else the connection receives, wherever they come from, and whatever cookie is summed, unless an exempt packet
   has set the connection's time back. ReplayIsAcceptedIff says exactly when that helps.
   */
  lemma AcceptedPacketIsRefusedAgain(c: Suite, m: Outgoing, buf: bytes, chainKey: Option<bytes>, sk: bytes, r: Receiver,
                                     g: Connection.Guard, closed: bool, run: seq<Connection.Arrival>, i: nat)
    requires WellFormed(c, m, buf) && Agrees(c, m, c.pub(sk)) && Send(c, m, buf, chainKey).Ok?
    requires i < |run| && Connection.Passes(g, closed, run, i) && run[i].sendTime == m.initTime
    requires Connection.NoRewind(g, closed, run, i, |run|)
    requires r.guard == Connection.After(g, closed, run) && !Exempt(r.deviceType, m.headerType)
    requires m.initTime <= I64_MAX - Connection.MINIMAL_RECV_INTERVAL
    ensures |Send(c, m, buf, chainKey).value| >= HeaderSize(c.scheme)
    ensures Parse(c, sk, r, Send(c, m, buf, chainKey).value, chainKey).Bad?
  {
    hide Parse, Send, Agrees, WellFormed, ExpectedTail, SentTail, PeerError, Validates, AllowedAtOverload, SameMac;
    hide Connection.After, Connection.Passes, Connection.Judge, Connection.NoRewind, Exempt;
    ParseRecovers(c, m, buf, chainKey, sk, r);
    Connection.LastAfterPass(g, closed, run, i);
    SpacedIsRefused(r.guard.last, Connection.Arrival(m.initTime, r.now, Exempt(r.deviceType, m.headerType)));
  }

  /**
   After any run, a receiver that would accept the packet under some guard f accepts it under its own if and only
   if the packet was sent an interval after the last one that passed: replay or not.
   */
  lemma ReplayIsAcceptedIff(c: Suite, m: Outgoing, buf: bytes, chainKey: Option<bytes>, sk: bytes, r: Receiver,
                            f: Connection.Guard, g: Connection.Guard, closed: bool, run: seq<Connection.Arrival>, p: nat)
    requires WellFormed(c, m, buf) && Agrees(c, m, c.pub(sk)) && Send(c, m, buf, chainKey).Ok?
    requires |Send(c, m, buf, chainKey).value| >= HeaderSize(c.scheme)
    requires VerdictOn(c, m, sk, r.(guard := f), Send(c, m, buf, chainKey).value).Good?
    requires Connection.LastPass(g, closed, run, p)
    requires r.guard == Connection.After(g, closed, run) && !Exempt(r.deviceType, m.headerType)
    ensures Parse(c, sk, r, Send(c, m, buf, chainKey).value, chainKey).Good?
       <==> m.initTime >= Connection.NextAllowed(run[p].sendTime)
  {
    hide Parse, Send, Agrees, WellFormed, PeerError, Validates, AllowedAtOverload, SameMac;
    hide Connection.After, Connection.Passes, Exempt;
    ParseRecovers(c, m, buf, chainKey, sk, r);
    Connection.StoredTimeIsLastPass(g, closed, run, p);
    OtherGuardSameMac(c, m, sk, r, f, Send(c, m, buf, chainKey).value);
  }

  lemma OtherGuardSameMac(c: Suite, m: Outgoing, sk: bytes, r: Receiver, f: Connection.Guard, content: bytes)
    requires |content| >= HeaderSize(c.scheme)
    ensures SameMac(c, m, sk, r.(guard := f), content) <==> SameMac(c, m, sk, r, content)
  {
  }

  lemma SpacedIsRefused(last: int64, a: Connection.Arrival)
    requires Connection.Spaced(last, a.sendTime) && a.sendTime <= I64_MAX - Connection.MINIMAL_RECV_INTERVAL && !a.exempt
    ensures !Connection.Judge(last, a).Pass?
  {
  }

  /**
   RKN under overload: a server that is short of connections accepts the packet's HMAC if the cookie the agent
   summed is the one the store expects at the time of arrival. With HandedOutCookieExpected this says which
   handed-out cookies still work.
   */
  lemma ReknockAcceptedWithExpectedCookie(c: Suite, m: Outgoing, buf: bytes, sk: bytes, r: Receiver)
    requires WellFormed(c, m, buf) && Agrees(c, m, c.pub(sk)) && Send(c, m, buf, None).Ok?
    requires m.headerType == NHP_RKN && r.deviceType.Server? && r.overload
    requires m.cookie == Connection.Expected(r.cookies, r.now)
    ensures var content := Send(c, m, buf, None).value;
            |content| >= HeaderSize(c.scheme) && CheckHmac(c, sk, content, ExpectedTail(r, NHP_RKN))
  {
    hide OnWire, Send, Derive, Lawful, CheckHmac;
    SendPutsFields(c, m, buf, None, c.pub(sk));
    var x, flags, content := ExchangeOf(c, m, c.pub(sk), None), WireFlags(c, m, buf), Send(c, m, buf, None).value;
    WireLength(c, m, x, c.pub(sk), flags, content);
    HmacMatches(c, m, sk, x, flags, content, ExpectedTail(r, NHP_RKN));
  }

  /** The same with the server's cookie store after a run of knocks: which handed-out cookies still work. */
  lemma ReknockWithHandedOutCookie(c: Suite, m: Outgoing, buf: bytes, sk: bytes, r: Receiver,
                                   s: Connection.CookieStore, knocks: seq<Connection.Knock>, n: nat)
    requires WellFormed(c, m, buf) && Agrees(c, m, c.pub(sk)) && Send(c, m, buf, None).Ok?
    requires m.headerType == NHP_RKN && r.deviceType.Server? && r.overload
    requires 0 < n <= |knocks| && r.cookies == Connection.StoreAfter(s, knocks)
    requires m.cookie == Connection.StoreAfter(s, knocks[..n]).curr && Connection.StillWorks(s, knocks, n, r.now)
    ensures var content := Send(c, m, buf, None).value;
            |content| >= HeaderSize(c.scheme) && CheckHmac(c, sk, content, ExpectedTail(r, NHP_RKN))
  {
    hide Send, CheckHmac, WellFormed, Agrees;
    Connection.HandedOutCookieExpected(s, knocks, n, r.now);
    ReknockAcceptedWithExpectedCookie(c, m, buf, sk, r);
  }

  // ---- One address per peer ----

  /** A packet under a peer's key: the time of its arrival, the wall clock that expiry is checked by, and its address. */
  datatype Contact = Contact(now: int, wallMs: int, addr: string)

  /** The peer's entry after a run of contacts: only an accepted one changes it. */
  function PeerAfter(pk: bytes, p: Peer, run: seq<Contact>): Peer {
    if run == [] then p
    else
      var before, last := PeerAfter(pk, p, run[..|run| - 1]), run[|run| - 1];
      if PeerError(map[pk := before], pk, last.wallMs, last.now, last.addr) == None
      then Peer(before.expireTime, last.now, last.addr) else before
  }

  predicate Accepted(pk: bytes, p: Peer, run: seq<Contact>, i: nat)
    requires i < |run|
  {
    PeerError(map[pk := PeerAfter(pk, p, run[..i])], pk, run[i].wallMs, run[i].now, run[i].addr) == None
  }

  lemma {:induction false} PeerRemembers(pk: bytes, p: Peer, run: seq<Contact>, i: nat)
    requires i < |run| && Accepted(pk, p, run, i)
    requires forall k, l :: i <= k <= l < |run| ==> run[k].now <= run[l].now
    ensures var q := PeerAfter(pk, p, run);
            q.lastRecvTime >= run[i].now
            && (q.recvAddr == run[i].addr || q.lastRecvTime > run[i].now + MINIMAL_PEER_ADDRESS_HOLD_TIME)
    decreases |run|
  {
    var n := |run| - 1;
    if i < n {
      assert run[..n][..i] == run[..i];
      PeerRemembers(pk, p, run[..n], i);
      PeerTimeIsOfContact(pk, p, run[..n], i, run[n].now);
    }
  }

  /** A peer is never accepted from two addresses within its hold time, if the clock does not run backwards. */
  lemma PeerHoldsItsAddress(pk: bytes, p: Peer, run: seq<Contact>, i: nat, j: nat)
    requires i < j < |run| && Accepted(pk, p, run, i) && Accepted(pk, p, run, j)
    requires run[i].addr != run[j].addr
    requires forall k, l :: i <= k <= l <= j ==> run[k].now <= run[l].now
    ensures run[j].now > run[i].now + MINIMAL_PEER_ADDRESS_HOLD_TIME
  {
    var before := run[..j];
    assert before[..i] == run[..i];
    PeerRemembers(pk, p, before, i);
    if PeerAfter(pk, p, before).recvAddr != run[i].addr {
      PeerTimeIsOfContact(pk, p, before, i, run[j].now);
    }
  }

  lemma {:induction false} PeerTimeIsOfContact(pk: bytes, p: Peer, run: seq<Contact>, i: nat, now: int)
    requires i < |run| && Accepted(pk, p, run, i) && forall k :: i <= k < |run| ==> run[k].now <= now
    ensures PeerAfter(pk, p, run).lastRecvTime <= now
    decreases |run|
  {
    var n := |run| - 1;
    if i < n {
      assert run[..n][..i] == run[..i];
      PeerTimeIsOfContact(pk, p, run[..n], i, now);
    }
  }
}
