/** The ZTDO file of nhp/core/ztdo/ztdo.go: its header, its chunked payloads and its chained signature. */
module Ztdo {
  import opened Bytes
  import opened TagCodec

  const MAGIC_NUMBER_SIZE: nat := 4
  const OBJECT_ID_SIZE: nat := 16
  const VERSION_SIZE: nat := 2
  const NHP_SERVER_MAX_SIZE: nat := 255
  const METADATA_CHUNK_MAX_SIZE: nat := 32767
  const PAYLOAD_LENGTH_SIZE: nat := 3
  const IV_SIZE: nat := 12
  const SIGNATURE_SIZE: nat := 32
  const DATA_CHUNK_SIZE: nat := 16777187

  // ---- The struct types with their tags ----

  const MetadataType: Fields :=
    Field("MetadataLen", Array(2, "Metadata", true, ""), Field("Metadata", ByteSlice, End))

  const HeaderType: Fields :=
    Field("MagicNumber", Array(MAGIC_NUMBER_SIZE, "", false, ""),
    Field("ObjectID", Array(OBJECT_ID_SIZE, "", false, ""),
    Field("Version", Array(VERSION_SIZE, "", false, ""), ServerType)))

  const ServerType: Fields :=
    Field("NhpServerLen", Array(1, "NhpServer", false, ""),
    Field("NhpServer", ByteSlice,
    Field("CipherConfig", Array(1, "", false, ""),
    Field("Metadata", StructSlice(MetadataType), End))))

  const ContentType: Fields :=
    Field("Iv", Array(IV_SIZE, "", false, "CipherText"), Field("CipherText", ByteSlice, End))

  const PayloadType: Fields :=
    Field("Length", Array(PAYLOAD_LENGTH_SIZE, "CipherText", false, ""),
    Field("Content", Nested(ContentType), End))

  const SignatureType: Fields := Field("Signature", Array(SIGNATURE_SIZE, "", false, ""), End)

  datatype Chunk = Chunk(length: bytes, data: bytes)

  datatype Header = Header(
    magic: bytes, objectId: bytes, version: bytes, serverLen: bytes, server: bytes,
    cipherConfig: byte, metadata: seq<Chunk>)

  datatype Payload = Payload(length: bytes, iv: bytes, cipherText: bytes)

  function ChunkValue(c: Chunk): Values {
    Values(Raw(c.length), Values(Raw(c.data), NoValues))
  }

  function ChunkOf(vs: Values): Chunk {
    match vs
    case Values(Raw(length), Values(Raw(data), NoValues)) => Chunk(length, data)
    case _ => Chunk([], [])
  }

  function ChunkValues(cs: seq<Chunk>): (r: seq<Values>)
    ensures |r| == |cs|
  {
    seq(|cs|, i requires 0 <= i < |cs| => ChunkValue(cs[i]))
  }

  function ServerValue(h: Header): Values {
    Values(Raw(h.serverLen), Values(Raw(h.server), Values(Raw([h.cipherConfig]),
      Values(Slice(ChunkValues(h.metadata)), NoValues))))
  }

  function HeaderValue(h: Header): Values {
    Values(Raw(h.magic), Values(Raw(h.objectId), Values(Raw(h.version), ServerValue(h))))
  }

  function HeaderOf(vs: Values): Header {
    match vs
    case Values(Raw(magic), Values(Raw(id), Values(Raw(version), Values(Raw(len), Values(Raw(server),
         Values(Raw(config), Values(Slice(es), NoValues))))))) =>
      Header(magic, id, version, len, server, if |config| == 1 then config[0] else 0,
             seq(|es|, i requires 0 <= i < |es| => ChunkOf(es[i])))
    case _ => Header([], [], [], [], [], 0, [])
  }

  function PayloadValue(p: Payload): Values {
    Values(Raw(p.length), Values(Struct(Values(Raw(p.iv), Values(Raw(p.cipherText), NoValues))), NoValues))
  }

  function PayloadOf(vs: Values): Payload {
    match vs
    case Values(Raw(length), Values(Struct(Values(Raw(iv), Values(Raw(ct), NoValues))), NoValues)) =>
      Payload(length, iv, ct)
    case _ => Payload([], [], [])
  }

  // ---- Metadata: SetMetadata, GetMetadata, encodeMetadataLength ----

  /** The little-endian length with the continuation flag in its top bit. */
  function EncodeMetadataLength(length: nat, continuation: bool): (r: bytes)
    requires length <= METADATA_CHUNK_MAX_SIZE
    ensures |r| == 2
  {
    [length % 256, length / 256 % 128 + (if continuation then 128 else 0)]
  }

  function FullChunk(data: bytes): Chunk
    requires |data| == METADATA_CHUNK_MAX_SIZE
  {
    Chunk(EncodeMetadataLength(|data|, true), data)
  }

  function LastChunk(data: bytes): Chunk
    requires |data| <= METADATA_CHUNK_MAX_SIZE
  {
    Chunk(EncodeMetadataLength(|data|, false), data)
  }

  function Chunks(metadata: bytes): seq<Chunk> {
    if |metadata| < METADATA_CHUNK_MAX_SIZE then [LastChunk(metadata)]
    else [FullChunk(metadata[..METADATA_CHUNK_MAX_SIZE])] + Chunks(metadata[METADATA_CHUNK_MAX_SIZE..])
  }

  function GetMetadata(cs: seq<Chunk>): bytes {
    if cs == [] then [] else cs[0].data + GetMetadata(cs[1..])
  }

  /** GetMetadata after SetMetadata returns the original string, whatever its length. */
  lemma {:induction false} MetadataRoundTrip(metadata: bytes)
    ensures GetMetadata(Chunks(metadata)) == metadata
  {
    if |metadata| < METADATA_CHUNK_MAX_SIZE {
      assert GetMetadata([LastChunk(metadata)]) == metadata + GetMetadata([]);
    } else {
      MetadataRoundTrip(metadata[METADATA_CHUNK_MAX_SIZE..]);
      assert Chunks(metadata)[1..] == Chunks(metadata[METADATA_CHUNK_MAX_SIZE..]);
    }
  }

  /** What the parser's two globals hold after a chunk's length field. */
  lemma MetadataLengthDecodes(length: nat, continuation: bool, ctl: Control)
    requires length <= METADATA_CHUNK_MAX_SIZE
    ensures AfterArray(Array(2, "Metadata", true, ""), EncodeMetadataLength(length, continuation), ctl)
         == Some(Control(ctl.lengths["Metadata" := length], continuation))
  {
    var counted := CountedBytes(EncodeMetadataLength(length, continuation), true);
    assert counted == [length % 256, length / 256];
    assert FromLittleEndian(counted[1..]) == counted[1] + 256 * FromLittleEndian(counted[1..][1..]);
  }

  lemma ChunkChecks(c: Chunk, length: nat, continuation: bool, ctl: Control)
    requires length <= METADATA_CHUNK_MAX_SIZE && |c.data| == length
    requires c.length == EncodeMetadataLength(length, continuation)
    ensures Check(MetadataType, ChunkValue(c), ctl)
         == Some(Control(ctl.lengths["Metadata" := length], continuation))
    ensures Marshal(ChunkValue(c)) != []
  {
    MetadataLengthDecodes(length, continuation, ctl);
    var c1 := Control(ctl.lengths["Metadata" := length], continuation);
    var tail := Values(Raw(c.data), NoValues);
    assert Check(Field("Metadata", ByteSlice, End), tail, c1) == Some(c1);
    assert CheckValue("MetadataLen", MetadataType.ty, Raw(c.length), ctl) == Some(c1);
    assert |Marshal(ChunkValue(c))| == |c.length| + |Marshal(tail)|;
  }

  lemma {:induction false} ChunksCheck(metadata: bytes, ctl: Control)
    ensures CheckElements(MetadataType, ChunkValues(Chunks(metadata)), ctl).Some?
  {
    var es := ChunkValues(Chunks(metadata));
    if |metadata| < METADATA_CHUNK_MAX_SIZE {
      ChunkChecks(LastChunk(metadata), |metadata|, false, ctl);
    } else {
      var c := FullChunk(metadata[..METADATA_CHUNK_MAX_SIZE]);
      var rest := metadata[METADATA_CHUNK_MAX_SIZE..];
      ChunkChecks(c, METADATA_CHUNK_MAX_SIZE, true, ctl);
      ChunksCheck(rest, Check(MetadataType, ChunkValue(c), ctl).value);
      assert es[0] == ChunkValue(c) && es[1..] == ChunkValues(Chunks(rest));
    }
  }

  // ---- The cipher configuration byte ----

  function SetConfig(config: byte, hasSignature: bool, mode: byte, eccMode: byte): byte {
    OrByte(OrByte(OrByte(config, if hasSignature then 128 else 0), mode), eccMode * 16 % 256)
  }

  predicate HasSignature(config: byte) { config / 128 % 2 == 1 }

  function CipherMode(config: byte): byte { config % 16 }

  function EccMode(config: byte): byte { config % 128 / 16 }

  lemma OrNibbles(a: byte, b: byte)
    ensures Or(a, b) % 16 == Or(a % 16, b % 16) && Or(a, b) / 16 == Or(a / 16, b / 16)
  {
    OrSplits(a, b, 4);
    FourBits(a);
    FourBits(b);
    FourBits(Or(a, b));
  }

  lemma OrHighNibble(h: nat, t: nat, sign: nat, eccMode: nat, zero: nat)
    requires sign <= 1 && t == 8 * sign && eccMode < 8 && zero == 0
    ensures var x := Or(Or(h, t), eccMode);
            x % 8 == Or(h % 8, eccMode) && x / 8 == Or(h / 8, sign)
  {
    var y := Or(h, t);
    assert y % 8 == Or(h % 8, zero) && y / 8 == Or(h / 8, sign) by {
      OrSplits(h, t, 3);
      ThreeBits(h);
      ThreeBits(t);
      ThreeBits(y);
    }
    OrZero(h % 8, zero);
    assert Or(y, eccMode) / 8 == Or(y / 8, zero) && Or(y, eccMode) % 8 == Or(y % 8, eccMode) by {
      OrSplits(y, eccMode, 3);
      ThreeBits(y);
      ThreeBits(eccMode);
      ThreeBits(Or(y, eccMode));
    }
    OrZero(y / 8, zero);
  }

  lemma OrNibblesOf(a: byte, b: byte, low: nat, high: nat)
    requires b % 16 == low && b / 16 == high
    ensures OrByte(a, b) % 16 == Or(a % 16, low) && OrByte(a, b) / 16 == Or(a / 16, high)
  {
    OrNibbles(a, b);
  }

  lemma ConfigNibbles(config: byte, s: byte, sign: nat, mode: byte, e: byte, eccMode: nat, zero: nat)
    requires s % 16 == zero && s / 16 == 8 * sign && mode < 16 && e % 16 == zero && e / 16 == eccMode && zero == 0
    ensures var c := OrByte(OrByte(OrByte(config, s), mode), e);
            c % 16 == Or(config % 16, mode) && c / 16 == Or(Or(config / 16, 8 * sign), eccMode)
  {
    var c1 := OrByte(config, s);
    var c2 := OrByte(c1, mode);
    OrNibblesOf(config, s, zero, 8 * sign);
    OrZero(config % 16, zero);
    OrNibblesOf(c1, mode, mode, zero);
    OrZero(c1 / 16, zero);
    OrNibblesOf(c2, e, zero, eccMode);
    OrZero(c2 % 16, zero);
  }

  lemma ConfigReads(c: byte, low: nat, high: nat, eccMode: nat, sign: nat)
    requires c % 16 == low && c / 16 == high && high % 8 == eccMode && high / 8 == sign
    ensures CipherMode(c) == low && EccMode(c) == eccMode && (HasSignature(c) <==> sign == 1)
  {
    assert c == 128 * sign + 16 * eccMode + low && sign <= 1;
    assert c / 128 == sign && c % 128 == 16 * eccMode + low;
  }

  lemma OrFlags(a: nat, b: nat)
    requires a <= 1 && b <= 1
    ensures Or(a, b) == if a == 1 || b == 1 then 1 else 0
  {
  }

  lemma ConfigAccumulatesBits(config: byte, s: byte, sign: nat, mode: byte, e: byte, eccMode: nat, zero: nat)
    requires s % 16 == zero && s / 16 == 8 * sign && mode < 16 && e % 16 == zero && e / 16 == eccMode
    requires zero == 0 && sign <= 1 && eccMode < 8
    ensures var c := OrByte(OrByte(OrByte(config, s), mode), e);
            && (HasSignature(c) <==> HasSignature(config) || sign == 1)
            && CipherMode(c) == Or(CipherMode(config), mode)
            && EccMode(c) == Or(EccMode(config), eccMode)
  {
    var h := config / 16;
    ConfigNibbles(config, s, sign, mode, e, eccMode, zero);
    OrHighNibble(h, 8 * sign, sign, eccMode, zero);
    ConfigReads(OrByte(OrByte(OrByte(config, s), mode), e), Or(config % 16, mode),
                Or(Or(h, 8 * sign), eccMode), Or(h % 8, eccMode), Or(h / 8, sign));
    ConfigReads(config, config % 16, h, h % 8, h / 8);
    OrFlags(h / 8, sign);
  }

  /** SetCipherConfig only ever adds bits: a second call reads back as the union of both settings. */
  lemma ConfigAccumulates(config: byte, hasSignature: bool, mode: byte, eccMode: byte)
    requires mode < 16 && eccMode < 8
    ensures var c := SetConfig(config, hasSignature, mode, eccMode);
            && (HasSignature(c) <==> HasSignature(config) || hasSignature)
            && CipherMode(c) == Or(CipherMode(config), mode)
            && EccMode(c) == Or(EccMode(config), eccMode)
  {
    ConfigAccumulatesBits(config, if hasSignature then 128 else 0, if hasSignature then 1 else 0,
                          mode, eccMode * 16 % 256, eccMode, 0);
  }

  // ---- AEAD modes ----

  /** The AEAD behind each cipher mode, and the hash of the signature chain. */
  datatype Ciphers = Ciphers(
    seal: (byte, bytes, bytes, bytes, bytes) -> bytes,   // mode, block key, iv, plaintext, ad
    open: (byte, bytes, bytes, bytes, bytes) -> Option<bytes>,
    sha256: bytes -> bytes,
    hmacSha256: (bytes, bytes) -> bytes)

  ghost predicate SealingHolds(c: Ciphers) {
    forall m, k, iv, p, ad {:trigger c.seal(m, k, iv, p, ad)} ::
      && c.open(m, k, iv, c.seal(m, k, iv, p, ad), ad) == Some(p)
      && |c.seal(m, k, iv, p, ad)| == |p| + TagSize(m)
  }

  ghost predicate OpeningHolds(c: Ciphers) {
    forall m, k, iv, ct, ad {:trigger c.open(m, k, iv, ct, ad)} ::
      c.open(m, k, iv, ct, ad).Some? ==> |ct| == |c.open(m, k, iv, ct, ad).value| + TagSize(m)
  }

  ghost predicate SizesHold(c: Ciphers) {
    && (forall m :: |c.sha256(m)| == SIGNATURE_SIZE)
    && (forall k, m :: |c.hmacSha256(k, m)| == SIGNATURE_SIZE)
  }

  ghost predicate Lawful(c: Ciphers) {
    SealingHolds(c) && OpeningHolds(c) && SizesHold(c)
  }

  /** The modes are numbered as in noise.go: six tag sizes of AES-256-GCM, then two of SM4-GCM. */
  function TagSize(mode: byte): nat {
    match mode
    case 0 => 8
    case 1 => 12
    case 2 => 13
    case 3 => 14
    case 4 => 15
    case 5 => 16
    case 6 => 8
    case 7 => 16
    case _ => 0
  }

  /** Key length fits, and the tag is one that NewGCMWithTagSize accepts. */
  predicate Usable(mode: byte, key: bytes) {
    && (mode <= 5 ==> |key| == 32)
    && (mode == 6 || mode == 7 ==> |key| >= 16)
    && mode <= 7
    && 12 <= TagSize(mode) <= 16
  }

  function BlockKey(mode: byte, key: bytes): bytes
    requires Usable(mode, key)
  {
    if mode <= 5 then key else key[..16]
  }

  function EncryptMode(c: Ciphers, mode: byte, key: bytes, iv: bytes, plaintext: bytes, ad: bytes): Option<bytes> {
    if Usable(mode, key) then Some(c.seal(mode, BlockKey(mode, key), iv, plaintext, ad)) else None
  }

  function DecryptMode(c: Ciphers, mode: byte, key: bytes, iv: bytes, cipherText: bytes, ad: bytes): Option<bytes> {
    if Usable(mode, key) then c.open(mode, BlockKey(mode, key), iv, cipherText, ad) else None
  }

  // ---- Signature chain ----

  function MixHash(c: Ciphers, signature: bytes, buf: bytes): bytes {
    c.sha256(signature + buf)
  }

  function MixAll(c: Ciphers, signature: bytes, ps: seq<Payload>): bytes
    decreases ps
  {
    if ps == [] then signature
    else MixAll(c, MixHash(c, signature, Marshal(PayloadValue(ps[0]))), ps[1..])
  }

  function Sign(c: Ciphers, key: bytes, signature: bytes): bytes {
    c.hmacSha256(key, signature)
  }

  /** The signature of a file whose chain starts from the given value. */
  function FileSignature(c: Ciphers, key: bytes, start: bytes, h: Header, ps: seq<Payload>): bytes {
    Sign(c, key, MixAll(c, MixHash(c, start, Marshal(HeaderValue(h))), ps))
  }

  // ---- Encryption ----

  /** SetIV, SetCipherText and SetLength. A cipher error is ignored, and leaves the ciphertext empty. */
  function SealedPayload(c: Ciphers, mode: byte, key: bytes, ad: bytes, iv: bytes, plaintext: bytes): Payload {
    var sealed := EncryptMode(c, mode, key, iv, plaintext, ad);
    var cipherText := if sealed.Some? then sealed.value else [];
    Payload(LittleEndian((IV_SIZE + |cipherText|) % U32, 4)[..PAYLOAD_LENGTH_SIZE], iv, cipherText)
  }

  /** What a file read is asked for, cut to what is left of the file. */
  function ReadSize(sizes: nat -> nat, i: nat, left: nat): nat {
    if sizes(i) < left then sizes(i) else left
  }

  /** The i-th and later payloads: sizes bounds each read of the plaintext, ivs supplies the nonces. */
  function Payloads(c: Ciphers, mode: byte, key: bytes, ad: bytes, plaintext: bytes,
                    sizes: nat -> nat, ivs: nat -> bytes, i: nat): seq<Payload>
    requires forall j :: sizes(j) > 0
  {
    if plaintext == [] then []
    else
      var n := ReadSize(sizes, i, |plaintext|);
      [SealedPayload(c, mode, key, ad, ivs(i), plaintext[..n])]
        + Payloads(c, mode, key, ad, plaintext[n..], sizes, ivs, i + 1)
  }

  function PayloadBytes(ps: seq<Payload>): bytes {
    if ps == [] then [] else Marshal(PayloadValue(ps[0])) + PayloadBytes(ps[1..])
  }

  /** The header that is written: an empty metadata list is replaced by one empty chunk. */
  function WrittenHeader(h: Header): Header {
    if GetMetadata(h.metadata) == [] then h.(metadata := Chunks([])) else h
  }

  function FileBytes(h: Header, ps: seq<Payload>, signature: bytes): bytes {
    Marshal(HeaderValue(h)) + PayloadBytes(ps) + signature
  }

  // ---- Decryption ----

  datatype Outcome = Plain(plaintext: bytes, pos: nat, more: bool, signature: bytes) | Rejected

  /** An IV and a length field are at least read for every payload, so the loop makes progress. */
  lemma PayloadAdvances(file: bytes, pos: nat, ctl: Control)
    requires pos <= |file|
    ensures var r := Parse(PayloadType, file, pos, ctl);
            r.Parsed? ==>
              r.pos > pos && |Marshal(r.value)| == PAYLOAD_LENGTH_SIZE + IV_SIZE + |PayloadOf(r.value).cipherText|
  {
    var v := ParseValue("Length", PayloadType.ty, file, pos, ctl);
    var rest := Field("Content", Nested(ContentType), End);
    if v.Parsed? {
      var r := Parse(rest, file, v.pos, v.control);
      if r.Parsed? {
        ContentSize(file, v.pos, v.control);
        assert |MarshalValue(v.value)| == PAYLOAD_LENGTH_SIZE;
        assert Parse(PayloadType, file, pos, ctl).value == Values(v.value, r.value);
        assert |Marshal(Values(v.value, r.value))| == |MarshalValue(v.value)| + |Marshal(r.value)|;
      }
    }
  }

  lemma ContentSize(file: bytes, pos: nat, ctl: Control)
    requires pos <= |file|
    ensures var r := Parse(Field("Content", Nested(ContentType), End), file, pos, ctl);
            r.Parsed? ==>
              && r.value.Values? && r.value.head.Struct? && r.value.tail.NoValues?
              && |Marshal(r.value)| == IV_SIZE + |PayloadOf(Values(Raw([]), r.value)).cipherText|
  {
    var c := Parse(ContentType, file, pos, ctl);
    if c.Parsed? {
      var iv := ParseValue("Iv", ContentType.ty, file, pos, ctl);
      assert c.value.head == iv.value && |MarshalValue(iv.value)| == IV_SIZE;
      var tail := Parse(ContentType.rest, file, iv.pos, iv.control);
      assert c.value.tail == tail.value && tail.value.head.Raw? && tail.value.tail == NoValues;
      assert Marshal(tail.value) == tail.value.head.data + Marshal(NoValues);
      assert |Marshal(c.value)| == |MarshalValue(c.value.head)| + |Marshal(c.value.tail)|;
      var vs := Values(Struct(c.value), NoValues);
      assert Marshal(vs) == MarshalValue(vs.head) + Marshal(NoValues);
    }
  }

  /** The payload loop: remaining is the file size less what has been re-serialized so far. */
  function DecryptPayloads(c: Ciphers, config: byte, key: bytes, ad: bytes, file: bytes, pos: nat, more: bool,
                           remaining: int, signature: bytes, plaintext: bytes): (r: Outcome)
    requires pos <= |file|
    ensures r.Plain? ==> r.pos <= |file|
    decreases |file| - pos
  {
    match Parse(PayloadType, file, pos, Control(map[], more))
    case Failed => Rejected
    case Parsed(vs, p, ctl) =>
      PayloadAdvances(file, pos, Control(map[], more));
      var payload := PayloadOf(vs);
      var buf := Marshal(vs);
      var left := remaining - |buf|;
      var sig := MixHash(c, signature, buf);
      match DecryptMode(c, CipherMode(config), key, payload.iv, payload.cipherText, ad)
      case None => Rejected
      case Some(text) =>
        if left == (if HasSignature(config) then SIGNATURE_SIZE else 0) then Plain(plaintext + text, p, ctl.more, sig)
        else if left == 0 then Rejected
        else DecryptPayloads(c, config, key, ad, file, p, ctl.more, left, sig, plaintext + text)
  }

  /** What follows the payload loop: with the flag set, the stored signature has to match. */
  function VerifyFile(c: Ciphers, config: byte, key: bytes, file: bytes, outcome: Outcome): Option<bytes>
    requires outcome.Plain? ==> outcome.pos <= |file|
  {
    if outcome.Rejected? then None
    else if !HasSignature(config) then Some(outcome.plaintext)
    else
      match Parse(SignatureType, file, outcome.pos, Control(map[], outcome.more))
      case Failed => None
      case Parsed(vs, _, _) =>
        if Marshal(vs) == Sign(c, key, outcome.signature) then Some(outcome.plaintext) else None
  }

  /** DecryptZtdoFile: the plaintext, or None for any of its errors. */
  function DecryptFile(c: Ciphers, key: bytes, ad: bytes, file: bytes, more: bool): Option<bytes> {
    match Parse(HeaderType, file, 0, Control(map[], more))
    case Failed => None
    case Parsed(vs, p, ctl) =>
      var config := HeaderOf(vs).cipherConfig;
      var buf := Marshal(vs);
      var start := MixHash(c, Zeros(SIGNATURE_SIZE), buf);
      VerifyFile(c, config, key, file,
                 DecryptPayloads(c, config, key, ad, file, p, ctl.more, |file| - |buf|, start, []))
  }

  /** The object's signature field afterwards: it is overwritten once a stored signature has been read. */
  function SignatureAfter(c: Ciphers, key: bytes, ad: bytes, file: bytes, more: bool, signature: bytes): bytes {
    match Parse(HeaderType, file, 0, Control(map[], more))
    case Failed => signature
    case Parsed(vs, p, ctl) =>
      var config, buf := HeaderOf(vs).cipherConfig, Marshal(vs);
      StoredSignature(config, file,
        DecryptPayloads(c, config, key, ad, file, p, ctl.more, |file| - |buf|,
                        MixHash(c, Zeros(SIGNATURE_SIZE), buf), []), signature)
  }

  function StoredSignature(config: byte, file: bytes, outcome: Outcome, signature: bytes): bytes
    requires outcome.Plain? ==> outcome.pos <= |file|
  {
    if outcome.Rejected? || !HasSignature(config) then signature
    else
      match Parse(SignatureType, file, outcome.pos, Control(map[], outcome.more))
      case Failed => signature
      case Parsed(vs, _, _) => Marshal(vs)
  }

  // ---- Round trip ----

  /** A header as NewZtdoHeader, SetNhpServer and SetMetadata leave it. */
  ghost predicate Prepared(h: Header, metadata: bytes) {
    && |h.magic| == MAGIC_NUMBER_SIZE && |h.objectId| == OBJECT_ID_SIZE && |h.version| == VERSION_SIZE
    && |h.server| <= NHP_SERVER_MAX_SIZE && h.serverLen == [|h.server|]
    && h.metadata == Chunks(metadata)
  }

  lemma ServerChecks(h: Header, metadata: bytes, ctl: Control)
    requires Prepared(h, metadata)
    ensures Check(ServerType, ServerValue(h), ctl).Some?
  {
    var c1 := Control(ctl.lengths["NhpServer" := |h.server|], ctl.more);
    assert FromLittleEndian(h.serverLen) == h.serverLen[0] + 256 * FromLittleEndian(h.serverLen[1..]);
    assert CheckValue("NhpServerLen", ServerType.ty, Raw(h.serverLen), ctl) == Some(c1);
    ChunksCheck(metadata, c1);
    var chunks := Values(Slice(ChunkValues(h.metadata)), NoValues);
    var chunksType := Field("Metadata", StructSlice(MetadataType), End);
    assert Check(chunksType, chunks, c1).Some?;
    var configType := ServerType.rest.rest;
    assert Check(configType, Values(Raw([h.cipherConfig]), chunks), c1) == Check(chunksType, chunks, c1);
    assert Check(ServerType.rest, ServerValue(h).tail, c1) == Check(configType, ServerValue(h).tail.tail, c1);
  }

  lemma HeaderChecks(h: Header, metadata: bytes, ctl: Control)
    requires Prepared(h, metadata)
    ensures Check(HeaderType, HeaderValue(h), ctl).Some?
  {
    ServerChecks(h, metadata, ctl);
    var t1, t2 := HeaderType.rest, HeaderType.rest.rest;
    var v1, v2 := HeaderValue(h).tail, HeaderValue(h).tail.tail;
    assert Check(t2, v2, ctl) == Check(ServerType, ServerValue(h), ctl);
    assert Check(t1, v1, ctl) == Check(t2, v2, ctl);
  }

  lemma HeaderOfValue(h: Header)
    ensures HeaderOf(HeaderValue(h)) == h
  {
    var cs := HeaderOf(HeaderValue(h)).metadata;
    assert forall i :: 0 <= i < |h.metadata| ==> cs[i] == h.metadata[i];
  }

  ghost predicate FitsLength(p: Payload) {
    && |p.iv| == IV_SIZE && IV_SIZE + |p.cipherText| < Pow256(PAYLOAD_LENGTH_SIZE)
    && p.length == LittleEndian(IV_SIZE + |p.cipherText|, PAYLOAD_LENGTH_SIZE)
  }

  lemma ContentChecks(p: Payload, ctl: Control)
    requires |p.iv| == IV_SIZE && IV_SIZE + |p.cipherText| < U32 && LengthOf(ctl, "CipherText") == IV_SIZE + |p.cipherText|
    ensures var content := Values(Raw(p.iv), Values(Raw(p.cipherText), NoValues));
            Check(ContentType, content, ctl) == Some(Control(ctl.lengths["CipherText" := |p.cipherText|], ctl.more))
  {
    var c := Control(ctl.lengths["CipherText" := |p.cipherText|], ctl.more);
    var ct := Values(Raw(p.cipherText), NoValues);
    assert CheckValue("Iv", ContentType.ty, Raw(p.iv), ctl) == Some(c);
    assert CheckValue("CipherText", ByteSlice, Raw(p.cipherText), c) == Some(c);
    assert Check(End, NoValues, c) == Some(c);
    hide Check, CheckValue;
    CheckField("Iv", ContentType.ty, ContentType.rest, Raw(p.iv), ct, ctl, c);
    CheckField("CipherText", ByteSlice, End, Raw(p.cipherText), NoValues, c, c);
  }

  lemma PayloadSize(p: Payload)
    ensures |Marshal(PayloadValue(p))| == |p.length| + |p.iv| + |p.cipherText|
  {
    var ct := Values(Raw(p.cipherText), NoValues);
    var content := Values(Raw(p.iv), ct);
    var nested := Values(Struct(content), NoValues);
    assert Marshal(ct) == p.cipherText + Marshal(NoValues);
    assert Marshal(content) == p.iv + Marshal(ct);
    assert Marshal(nested) == Marshal(content) + Marshal(NoValues);
  }

  lemma PayloadChecks(p: Payload, ctl: Control)
    requires FitsLength(p)
    ensures Check(PayloadType, PayloadValue(p), ctl).Some? && Check(PayloadType, PayloadValue(p), ctl).value.more == ctl.more
    ensures |Marshal(PayloadValue(p))| == PAYLOAD_LENGTH_SIZE + IV_SIZE + |p.cipherText|
  {
    PayloadSize(p);
    hide Marshal, MarshalValue;
    var n := IV_SIZE + |p.cipherText|;
    LittleEndianRoundTrip(n, PAYLOAD_LENGTH_SIZE);
    PowersOfWords();
    var c1 := Control(ctl.lengths["CipherText" := n], ctl.more);
    assert CheckValue("Length", PayloadType.ty, Raw(p.length), ctl) == Some(c1);
    ContentChecks(p, c1);
    var content := Values(Raw(p.iv), Values(Raw(p.cipherText), NoValues));
    assert CheckValue("Content", Nested(ContentType), Struct(content), c1) == Check(ContentType, content, c1);
    var c2 := Control(c1.lengths["CipherText" := |p.cipherText|], c1.more);
    assert Check(End, NoValues, c2) == Some(c2);
    hide Check, CheckValue;
    CheckField("Content", Nested(ContentType), End, Struct(content), NoValues, c1, c2);
    CheckField("Length", PayloadType.ty, PayloadType.rest, Raw(p.length), Values(Struct(content), NoValues), ctl, c1);
  }

  /** A chunk of at most DATA_CHUNK_SIZE bytes always fits the 24-bit length, with every usable tag. */
  lemma SealedPayloadFits(c: Ciphers, mode: byte, key: bytes, ad: bytes, iv: bytes, plaintext: bytes)
    requires Lawful(c) && |iv| == IV_SIZE && |plaintext| <= DATA_CHUNK_SIZE
    ensures FitsLength(SealedPayload(c, mode, key, ad, iv, plaintext))
  {
    hide LittleEndian;
    var p := SealedPayload(c, mode, key, ad, iv, plaintext);
    assert |p.cipherText| <= DATA_CHUNK_SIZE + 16;
    LittleEndianPrefix(IV_SIZE + |p.cipherText|, PAYLOAD_LENGTH_SIZE);
    PowersOfWords();
  }

  lemma SealedPayloadOpens(c: Ciphers, mode: byte, key: bytes, ad: bytes, iv: bytes, plaintext: bytes)
    requires Lawful(c)
    ensures var p := SealedPayload(c, mode, key, ad, iv, plaintext);
            DecryptMode(c, mode, key, p.iv, p.cipherText, ad) == if Usable(mode, key) then Some(plaintext) else None
  {
  }

  lemma PayloadsStep(c: Ciphers, mode: byte, key: bytes, ad: bytes, plaintext: bytes,
                     sizes: nat -> nat, ivs: nat -> bytes, i: nat, signature: bytes)
    requires Supplied(sizes, ivs) && plaintext != []
    ensures var n := ReadSize(sizes, i, |plaintext|);
            var p := SealedPayload(c, mode, key, ad, ivs(i), plaintext[..n]);
            var rest := Payloads(c, mode, key, ad, plaintext[n..], sizes, ivs, i + 1);
            var ps := Payloads(c, mode, key, ad, plaintext, sizes, ivs, i);
            var buf := Marshal(PayloadValue(p));
            && PayloadBytes(ps) == buf + PayloadBytes(rest)
            && MixAll(c, signature, ps) == MixAll(c, MixHash(c, signature, buf), rest)
  {
    hide Marshal, SealedPayload;
    var n := ReadSize(sizes, i, |plaintext|);
    var rest := Payloads(c, mode, key, ad, plaintext[n..], sizes, ivs, i + 1);
    assert Payloads(c, mode, key, ad, plaintext, sizes, ivs, i)[1..] == rest;
  }

  /** The sizes of the plaintext reads and the nonces, as the file system and the random source give them. */
  ghost predicate Supplied(sizes: nat -> nat, ivs: nat -> bytes) {
    && (forall j :: 0 < sizes(j) <= DATA_CHUNK_SIZE)
    && (forall j :: |ivs(j)| == IV_SIZE)
  }

  /** One turn of the loop over a payload that is present in full. */
  lemma DecryptOnePayload(c: Ciphers, config: byte, key: bytes, ad: bytes, p: Payload, file: bytes, pos: nat,
                          more: bool, remaining: int, signature: bytes, done: bytes)
    requires FitsLength(p) && Holds(file, pos, Marshal(PayloadValue(p)))
    ensures pos + |Marshal(PayloadValue(p))| <= |file|
    ensures DecryptPayloads(c, config, key, ad, file, pos, more, remaining, signature, done) == (
              var buf := Marshal(PayloadValue(p));
              var sig := MixHash(c, signature, buf);
              match DecryptMode(c, CipherMode(config), key, p.iv, p.cipherText, ad)
              case None => Rejected
              case Some(text) =>
                if remaining - |buf| == (if HasSignature(config) then SIGNATURE_SIZE else 0)
                then Plain(done + text, pos + |buf|, more, sig)
                else if remaining - |buf| == 0 then Rejected
                else DecryptPayloads(c, config, key, ad, file, pos + |buf|, more, remaining - |buf|, sig, done + text))
  {
    hide Parse, ParseValue, Marshal, MarshalValue, Check, CheckValue;
    var ctl := Control(map[], more);
    PayloadChecks(p, ctl);
    CheckedParses(PayloadType, PayloadValue(p), ctl, file, pos);
    assert PayloadOf(PayloadValue(p)) == p;
  }

  /** The loop over a file that holds the payloads of a plaintext and then a signature. */
  lemma {:induction false} DecryptPayloadsOf(
    c: Ciphers, config: byte, key: bytes, ad: bytes, plaintext: bytes, sizes: nat -> nat, ivs: nat -> bytes, i: nat,
    file: bytes, pos: nat, more: bool, signature: bytes, done: bytes, trailer: bytes, ps: seq<Payload>)
    requires Lawful(c) && Supplied(sizes, ivs) && HasSignature(config) && Usable(CipherMode(config), key)
    requires plaintext != [] && |trailer| == SIGNATURE_SIZE
    requires ps == Payloads(c, CipherMode(config), key, ad, plaintext, sizes, ivs, i)
    requires Holds(file, pos, PayloadBytes(ps) + trailer)
    ensures DecryptPayloads(c, config, key, ad, file, pos, more, |PayloadBytes(ps)| + SIGNATURE_SIZE, signature, done)
         == Plain(done + plaintext, pos + |PayloadBytes(ps)|, more, MixAll(c, signature, ps))
    decreases |plaintext|
  {
    hide Parse, ParseValue, Marshal, MarshalValue, Check, CheckValue;
    hide DecryptPayloads, Payloads, PayloadBytes, MixAll, SealedPayload, DecryptMode;
    var mode := CipherMode(config);
    var n := ReadSize(sizes, i, |plaintext|);
    var text, left := plaintext[..n], plaintext[n..];
    var p := SealedPayload(c, mode, key, ad, ivs(i), text);
    var rest := Payloads(c, mode, key, ad, left, sizes, ivs, i + 1);
    var buf := Marshal(PayloadValue(p));
    PayloadsStep(c, mode, key, ad, plaintext, sizes, ivs, i, signature);
    assert PayloadBytes(ps) + trailer == buf + (PayloadBytes(rest) + trailer);
    HoldsConcat(file, pos, buf, PayloadBytes(rest) + trailer);
    SealedPayloadFits(c, mode, key, ad, ivs(i), text);
    SealedPayloadOpens(c, mode, key, ad, ivs(i), text);
    DecryptOnePayload(c, config, key, ad, p, file, pos, more, |PayloadBytes(ps)| + SIGNATURE_SIZE, signature, done);
    if left == [] {
      NoPayloads(c, mode, key, ad, sizes, ivs, i + 1, MixHash(c, signature, buf));
      assert text == plaintext;
    } else {
      PayloadBytesNonempty(c, mode, key, ad, left, sizes, ivs, i + 1);
      DecryptPayloadsOf(c, config, key, ad, left, sizes, ivs, i + 1, file, pos + |buf|, more,
                        MixHash(c, signature, buf), done + text, trailer, rest);
      assert done + plaintext == done + text + left;
    }
  }

  lemma NoPayloads(c: Ciphers, mode: byte, key: bytes, ad: bytes, sizes: nat -> nat, ivs: nat -> bytes, i: nat,
                   signature: bytes)
    requires Supplied(sizes, ivs)
    ensures var ps := Payloads(c, mode, key, ad, [], sizes, ivs, i);
            PayloadBytes(ps) == [] && MixAll(c, signature, ps) == signature
  {
  }

  lemma PayloadBytesNonempty(c: Ciphers, mode: byte, key: bytes, ad: bytes, plaintext: bytes,
                             sizes: nat -> nat, ivs: nat -> bytes, i: nat)
    requires Lawful(c) && Supplied(sizes, ivs) && plaintext != []
    ensures PayloadBytes(Payloads(c, mode, key, ad, plaintext, sizes, ivs, i)) != []
  {
    var n := ReadSize(sizes, i, |plaintext|);
    var p := SealedPayload(c, mode, key, ad, ivs(i), plaintext[..n]);
    SealedPayloadFits(c, mode, key, ad, ivs(i), plaintext[..n]);
    PayloadChecks(p, Control(map[], false));
  }

  /**
   Once fewer bytes than one payload and a signature are left, the loop can only end in an error: every
   payload takes more than that, and the counter never comes to rest on the size of a signature.
   */
  lemma {:induction false} DecryptPayloadsRejects(
    c: Ciphers, config: byte, key: bytes, ad: bytes, file: bytes, pos: nat, more: bool,
    remaining: int, signature: bytes, done: bytes)
    requires pos <= |file| && HasSignature(config) && remaining <= SIGNATURE_SIZE
    ensures DecryptPayloads(c, config, key, ad, file, pos, more, remaining, signature, done) == Rejected
    decreases |file| - pos
  {
    hide Parse, ParseValue, Marshal, MarshalValue, Check, CheckValue;
    var ctl := Control(map[], more);
    PayloadAdvances(file, pos, ctl);
    match Parse(PayloadType, file, pos, ctl)
    case Failed =>
    case Parsed(vs, p, ctl') =>
      var buf, payload := Marshal(vs), PayloadOf(vs);
      match DecryptMode(c, CipherMode(config), key, payload.iv, payload.cipherText, ad)
      case None =>
      case Some(text) =>
        DecryptPayloadsRejects(c, config, key, ad, file, p, ctl'.more, remaining - |buf|,
                               MixHash(c, signature, buf), done + text);
  }

  /** What EncryptZtdoFile writes when the object's signature field starts at the given value. */
  function EncryptFile(c: Ciphers, h: Header, start: bytes, key: bytes, ad: bytes, plaintext: bytes,
                       sizes: nat -> nat, ivs: nat -> bytes): bytes
    requires forall j :: sizes(j) > 0
  {
    var written := WrittenHeader(h);
    var ps := Payloads(c, CipherMode(h.cipherConfig), key, ad, plaintext, sizes, ivs, 0);
    FileBytes(written, ps, FileSignature(c, key, start, written, ps))
  }

  /**
   Decrypting what was encrypted. With the signature flag set, DecryptZtdoFile returns exactly the
   plaintext if there is any, the mode and key are usable, and the signature chain of the object
   that encrypted was fresh (or happens to agree with a fresh one); otherwise it reports an error.
   */
  lemma EncryptThenDecrypt(c: Ciphers, h: Header, metadata: bytes, start: bytes, key: bytes, ad: bytes,
                           plaintext: bytes, sizes: nat -> nat, ivs: nat -> bytes, more: bool)
    requires Lawful(c) && Supplied(sizes, ivs) && Prepared(WrittenHeader(h), metadata) && HasSignature(h.cipherConfig)
    ensures var ps := Payloads(c, CipherMode(h.cipherConfig), key, ad, plaintext, sizes, ivs, 0);
            var decryptable :=
              && plaintext != []
              && Usable(CipherMode(h.cipherConfig), key)
              && FileSignature(c, key, start, WrittenHeader(h), ps)
                   == FileSignature(c, key, Zeros(SIGNATURE_SIZE), WrittenHeader(h), ps);
            DecryptFile(c, key, ad, EncryptFile(c, h, start, key, ad, plaintext, sizes, ivs), more)
              == if decryptable then Some(plaintext) else None
  {
    hide Parse, Marshal, HeaderValue, Prepared, WrittenHeader, MixHash, Sign;
    hide DecryptPayloads, DecryptFile, Payloads, PayloadBytes, MixAll, Usable;
    var w, config := WrittenHeader(h), h.cipherConfig;
    WrittenConfig(h);
    var mode := CipherMode(config);
    var ps := Payloads(c, mode, key, ad, plaintext, sizes, ivs, 0);
    var head, body, sig := Marshal(HeaderValue(w)), PayloadBytes(ps), FileSignature(c, key, start, w, ps);
    var file := head + (body + sig);
    assert EncryptFile(c, h, start, key, ad, plaintext, sizes, ivs) == file by {
      assert head + body + sig == head + (body + sig);
    }
    SignatureSize(c, key, start, w, ps);
    var more' := HeaderStep(c, w, metadata, key, ad, body + sig, more);
    var sig0 := MixHash(c, Zeros(SIGNATURE_SIZE), head);
    if plaintext == [] {
      NoPayloads(c, mode, key, ad, sizes, ivs, 0, sig0);
      DecryptPayloadsRejects(c, config, key, ad, file, |head|, more', SIGNATURE_SIZE, sig0, []);
    } else if !Usable(mode, key) {
      UnusableRejects(c, config, key, ad, file, |head|, more', |body| + SIGNATURE_SIZE, sig0);
    } else {
      DecryptPayloadsOf(c, config, key, ad, plaintext, sizes, ivs, 0, file, |head|, more', sig0, [], sig, ps);
      assert [] + plaintext == plaintext;
      HoldsConcat(file, |head|, body, sig);
      SignatureParses(sig, file, |head| + |body|, more');
    }
  }

  lemma SignatureSize(c: Ciphers, key: bytes, start: bytes, h: Header, ps: seq<Payload>)
    requires Lawful(c)
    ensures |FileSignature(c, key, start, h, ps)| == SIGNATURE_SIZE
  {
  }

  /** The file as its header and a tail, with the payload loop entered right behind the header. */
  lemma HeaderStep(c: Ciphers, w: Header, metadata: bytes, key: bytes, ad: bytes, tail: bytes, more: bool)
    returns (more': bool)
    requires Prepared(w, metadata)
    ensures var head := Marshal(HeaderValue(w));
            var sig := MixHash(c, Zeros(SIGNATURE_SIZE), head);
            && Holds(head + tail, |head|, tail)
            && DecryptFile(c, key, ad, head + tail, more)
            == VerifyFile(c, w.cipherConfig, key, head + tail,
                 DecryptPayloads(c, w.cipherConfig, key, ad, head + tail, |head|, more', |tail|, sig, []))
  {
    hide Parse, Marshal, Check, HeaderOf, HeaderValue, DecryptPayloads, VerifyFile, MixHash;
    var head, ctl := Marshal(HeaderValue(w)), Control(map[], more);
    assert Holds(head + tail, 0, head + tail);
    HoldsConcat(head + tail, 0, head, tail);
    HeaderChecks(w, metadata, ctl);
    CheckedParses(HeaderType, HeaderValue(w), ctl, head + tail, 0);
    HeaderOfValue(w);
    more' := Check(HeaderType, HeaderValue(w), ctl).value.more;
  }

  lemma WrittenConfig(h: Header)
    ensures WrittenHeader(h).cipherConfig == h.cipherConfig
  {
  }

  // ---- Files without the signature flag ----

  /** With fewer bytes left than an empty chunk takes, a file without the flag only ends in an error. */
  lemma {:induction false} ShortTailRejects(
    c: Ciphers, config: byte, key: bytes, ad: bytes, file: bytes, pos: nat, more: bool,
    remaining: int, signature: bytes, done: bytes)
    requires Lawful(c) && pos <= |file| && !HasSignature(config)
    requires remaining < PAYLOAD_LENGTH_SIZE + IV_SIZE + 12
    ensures DecryptPayloads(c, config, key, ad, file, pos, more, remaining, signature, done) == Rejected
    decreases |file| - pos
  {
    hide Parse, Marshal, PayloadOf;
    var ctl := Control(map[], more);
    PayloadAdvances(file, pos, ctl);
    match Parse(PayloadType, file, pos, ctl)
    case Failed =>
    case Parsed(vs, p, ctl') =>
      var buf, payload := Marshal(vs), PayloadOf(vs);
      OpenedLength(c, CipherMode(config), key, payload.iv, payload.cipherText, ad);
      hide DecryptMode, Lawful;
      match DecryptMode(c, CipherMode(config), key, payload.iv, payload.cipherText, ad)
      case None =>
      case Some(text) =>
        ShortTailRejects(c, config, key, ad, file, p, ctl'.more, remaining - |buf|,
                         MixHash(c, signature, buf), done + text);
  }

  lemma OpenedLength(c: Ciphers, mode: byte, key: bytes, iv: bytes, cipherText: bytes, ad: bytes)
    requires Lawful(c)
    ensures var r := DecryptMode(c, mode, key, iv, cipherText, ad);
            r.Some? ==> |cipherText| >= 12 && |cipherText| - 16 <= |r.value|
  {
  }

  /** Taking the signature for a payload either fails or adds at least one byte. */
  lemma TrailerIsNoPayload(c: Ciphers, config: byte, key: bytes, ad: bytes, file: bytes, pos: nat, more: bool,
                           signature: bytes, done: bytes)
    requires Lawful(c) && pos <= |file| && !HasSignature(config)
    ensures var r := DecryptPayloads(c, config, key, ad, file, pos, more, SIGNATURE_SIZE, signature, done);
            r.Rejected? || |r.plaintext| > |done|
  {
    hide Parse, Marshal, PayloadOf;
    var ctl := Control(map[], more);
    PayloadAdvances(file, pos, ctl);
    match Parse(PayloadType, file, pos, ctl)
    case Failed =>
    case Parsed(vs, p, ctl') =>
      var buf, payload := Marshal(vs), PayloadOf(vs);
      OpenedLength(c, CipherMode(config), key, payload.iv, payload.cipherText, ad);
      hide DecryptMode, Lawful;
      match DecryptMode(c, CipherMode(config), key, payload.iv, payload.cipherText, ad)
      case None =>
      case Some(text) =>
        if |buf| != SIGNATURE_SIZE {
          ShortTailRejects(c, config, key, ad, file, p, ctl'.more, SIGNATURE_SIZE - |buf|,
                           MixHash(c, signature, buf), done + text);
        }
  }

  /** The loop runs past the payloads into the signature. */
  lemma {:induction false} LoopPassesPayloads(
    c: Ciphers, config: byte, key: bytes, ad: bytes, plaintext: bytes, sizes: nat -> nat, ivs: nat -> bytes, i: nat,
    file: bytes, pos: nat, more: bool, signature: bytes, done: bytes, trailer: bytes, ps: seq<Payload>)
    requires Lawful(c) && Supplied(sizes, ivs) && !HasSignature(config) && Usable(CipherMode(config), key)
    requires |trailer| == SIGNATURE_SIZE
    requires ps == Payloads(c, CipherMode(config), key, ad, plaintext, sizes, ivs, i)
    requires Holds(file, pos, PayloadBytes(ps) + trailer)
    ensures pos + |PayloadBytes(ps)| <= |file|
    ensures DecryptPayloads(c, config, key, ad, file, pos, more, |PayloadBytes(ps)| + SIGNATURE_SIZE, signature, done)
         == DecryptPayloads(c, config, key, ad, file, pos + |PayloadBytes(ps)|, more, SIGNATURE_SIZE,
                            MixAll(c, signature, ps), done + plaintext)
    decreases |plaintext|
  {
    hide Parse, ParseValue, Marshal, MarshalValue, Check, CheckValue;
    hide DecryptPayloads, Payloads, PayloadBytes, MixAll, SealedPayload, DecryptMode;
    var mode := CipherMode(config);
    if plaintext == [] {
      NoPayloads(c, mode, key, ad, sizes, ivs, i, signature);
      assert done + plaintext == done;
    } else {
      var n := ReadSize(sizes, i, |plaintext|);
      var text, left := plaintext[..n], plaintext[n..];
      var p := SealedPayload(c, mode, key, ad, ivs(i), text);
      var rest := Payloads(c, mode, key, ad, left, sizes, ivs, i + 1);
      var buf := Marshal(PayloadValue(p));
      PayloadsStep(c, mode, key, ad, plaintext, sizes, ivs, i, signature);
      assert PayloadBytes(ps) + trailer == buf + (PayloadBytes(rest) + trailer);
      HoldsConcat(file, pos, buf, PayloadBytes(rest) + trailer);
      SealedPayloadFits(c, mode, key, ad, ivs(i), text);
      SealedPayloadOpens(c, mode, key, ad, ivs(i), text);
      DecryptOnePayload(c, config, key, ad, p, file, pos, more, |PayloadBytes(ps)| + SIGNATURE_SIZE, signature, done);
      LoopPassesPayloads(c, config, key, ad, left, sizes, ivs, i + 1, file, pos + |buf|, more,
                         MixHash(c, signature, buf), done + text, trailer, rest);
      assert done + plaintext == done + text + left;
    }
  }

  /**
   The exact condition for decrypting to the plaintext. The signature flag is part of it: EncryptZtdoFile writes
   the signature whether or not the flag is set, and without the flag DecryptZtdoFile reads on into it.
   */
  lemma DecryptsToPlaintextIff(c: Ciphers, h: Header, metadata: bytes, start: bytes, key: bytes, ad: bytes,
                               plaintext: bytes, sizes: nat -> nat, ivs: nat -> bytes, more: bool)
    requires Lawful(c) && Supplied(sizes, ivs) && Prepared(WrittenHeader(h), metadata)
    ensures var ps := Payloads(c, CipherMode(h.cipherConfig), key, ad, plaintext, sizes, ivs, 0);
            var decryptable :=
              && HasSignature(h.cipherConfig)
              && plaintext != []
              && Usable(CipherMode(h.cipherConfig), key)
              && FileSignature(c, key, start, WrittenHeader(h), ps)
                   == FileSignature(c, key, Zeros(SIGNATURE_SIZE), WrittenHeader(h), ps);
            var file := EncryptFile(c, h, start, key, ad, plaintext, sizes, ivs);
            DecryptFile(c, key, ad, file, more) == Some(plaintext) <==> decryptable
  {
    hide Parse, Marshal, HeaderValue, Prepared, WrittenHeader, MixHash, Sign;
    hide DecryptPayloads, DecryptFile, Payloads, PayloadBytes, MixAll, Usable;
    if HasSignature(h.cipherConfig) {
      EncryptThenDecrypt(c, h, metadata, start, key, ad, plaintext, sizes, ivs, more);
    } else {
      var w, config := WrittenHeader(h), h.cipherConfig;
      WrittenConfig(h);
      var mode := CipherMode(config);
      var ps := Payloads(c, mode, key, ad, plaintext, sizes, ivs, 0);
      var head, body, sig := Marshal(HeaderValue(w)), PayloadBytes(ps), FileSignature(c, key, start, w, ps);
      var file := head + (body + sig);
      assert EncryptFile(c, h, start, key, ad, plaintext, sizes, ivs) == file by {
        assert head + body + sig == head + (body + sig);
      }
      SignatureSize(c, key, start, w, ps);
      var more' := HeaderStep(c, w, metadata, key, ad, body + sig, more);
      var sig0 := MixHash(c, Zeros(SIGNATURE_SIZE), head);
      if Usable(mode, key) {
        LoopPassesPayloads(c, config, key, ad, plaintext, sizes, ivs, 0, file, |head|, more', sig0, [], sig, ps);
        assert [] + plaintext == plaintext;
        TrailerIsNoPayload(c, config, key, ad, file, |head| + |body|, more', MixAll(c, sig0, ps), plaintext);
      } else {
        UnusableRejects(c, config, key, ad, file, |head|, more', |body| + SIGNATURE_SIZE, sig0);
      }
    }
  }

  // ---- What a reused object does, if the hashes do not collide ----

  /** The hash tells two running chains apart wherever they differ, over the same payloads. */
  ghost predicate ChainsStayApart(c: Ciphers, a: bytes, b: bytes, ps: seq<Payload>)
    decreases ps
  {
    ps == [] ||
    (var buf := Marshal(PayloadValue(ps[0]));
     && (MixHash(c, a, buf) == MixHash(c, b, buf) ==> a == b)
     && ChainsStayApart(c, MixHash(c, a, buf), MixHash(c, b, buf), ps[1..]))
  }

  /** The same for two whole files that differ in the value their chains start from. */
  ghost predicate NoCollision(c: Ciphers, key: bytes, a: bytes, b: bytes, h: Header, ps: seq<Payload>) {
    var head := Marshal(HeaderValue(h));
    var x, y := MixHash(c, a, head), MixHash(c, b, head);
    && (x == y ==> a == b)
    && ChainsStayApart(c, x, y, ps)
    && (Sign(c, key, MixAll(c, x, ps)) == Sign(c, key, MixAll(c, y, ps)) ==> MixAll(c, x, ps) == MixAll(c, y, ps))
  }

  lemma {:induction false} ChainsDiffer(c: Ciphers, a: bytes, b: bytes, ps: seq<Payload>)
    requires ChainsStayApart(c, a, b, ps)
    ensures MixAll(c, a, ps) == MixAll(c, b, ps) ==> a == b
    decreases ps
  {
    hide Marshal, MixHash;
    if ps != [] {
      var buf := Marshal(PayloadValue(ps[0]));
      ChainsDiffer(c, MixHash(c, a, buf), MixHash(c, b, buf), ps[1..]);
    }
  }

  /**
   With hashes that do not collide on the two chains, a file decrypts to its plaintext if and only if the flag is
   set, there is a plaintext, mode and key are usable, and the object's signature field was zero.
   */
  lemma DecryptsIffFieldIsZero(c: Ciphers, h: Header, metadata: bytes, start: bytes, key: bytes, ad: bytes,
                               plaintext: bytes, sizes: nat -> nat, ivs: nat -> bytes, more: bool)
    requires Lawful(c) && Supplied(sizes, ivs) && Prepared(WrittenHeader(h), metadata)
    requires NoCollision(c, key, start, Zeros(SIGNATURE_SIZE), WrittenHeader(h),
                         Payloads(c, CipherMode(h.cipherConfig), key, ad, plaintext, sizes, ivs, 0))
    ensures var file := EncryptFile(c, h, start, key, ad, plaintext, sizes, ivs);
            DecryptFile(c, key, ad, file, more) == Some(plaintext)
            <==> && HasSignature(h.cipherConfig)
                 && plaintext != []
                 && Usable(CipherMode(h.cipherConfig), key)
                 && start == Zeros(SIGNATURE_SIZE)
  {
    hide Lawful, Prepared, EncryptFile, DecryptFile, Payloads, Marshal, MixHash, MixAll, ChainsStayApart, Sign, HeaderValue;
    hide Usable, HasSignature, WrittenHeader;
    DecryptsToPlaintextIff(c, h, metadata, start, key, ad, plaintext, sizes, ivs, more);
    var w, ps := WrittenHeader(h), Payloads(c, CipherMode(h.cipherConfig), key, ad, plaintext, sizes, ivs, 0);
    var head := Marshal(HeaderValue(w));
    ChainsDiffer(c, MixHash(c, start, head), MixHash(c, Zeros(SIGNATURE_SIZE), head), ps);
  }

  lemma UnusableRejects(c: Ciphers, config: byte, key: bytes, ad: bytes, file: bytes, pos: nat, more: bool,
                        remaining: int, signature: bytes)
    requires pos <= |file| && !Usable(CipherMode(config), key)
    ensures DecryptPayloads(c, config, key, ad, file, pos, more, remaining, signature, []) == Rejected
  {
    hide Parse, Marshal, PayloadOf, Usable;
  }

  lemma SignatureParses(signature: bytes, file: bytes, pos: nat, more: bool)
    requires |signature| == SIGNATURE_SIZE && Holds(file, pos, signature)
    ensures var r := Parse(SignatureType, file, pos, Control(map[], more));
            r.Parsed? && Marshal(r.value) == signature
  {
    var vs := Values(Raw(signature), NoValues);
    assert Marshal(vs) == signature + Marshal(NoValues);
    CheckedParses(SignatureType, vs, Control(map[], more), file, pos);
  }

  /** A new object starts its chain from zeros, so only the plaintext, the mode and the key matter. */
  lemma FreshObjectRoundTrip(c: Ciphers, h: Header, metadata: bytes, key: bytes, ad: bytes, plaintext: bytes,
                             sizes: nat -> nat, ivs: nat -> bytes, more: bool)
    requires Lawful(c) && Supplied(sizes, ivs) && Prepared(WrittenHeader(h), metadata) && HasSignature(h.cipherConfig)
    ensures DecryptFile(c, key, ad, EncryptFile(c, h, Zeros(SIGNATURE_SIZE), key, ad, plaintext, sizes, ivs), more)
         == if plaintext != [] && Usable(CipherMode(h.cipherConfig), key) then Some(plaintext) else None
  {
    hide *;
    EncryptThenDecrypt(c, h, metadata, Zeros(SIGNATURE_SIZE), key, ad, plaintext, sizes, ivs, more);
  }

  /** Ciphers without secrecy that meet every law. */
  const Transparent: Ciphers := Ciphers(
    (m, k, iv, p, ad) => p + Zeros(TagSize(m)),
    (m, k, iv, ct, ad) => if |ct| < TagSize(m) then None else Some(ct[..|ct| - TagSize(m)]),
    m => Padded(m),
    (k, m) => Padded(m))

  function Padded(m: bytes): (r: bytes)
    ensures |r| == SIGNATURE_SIZE
  {
    if |m| < SIGNATURE_SIZE then m + Zeros(SIGNATURE_SIZE - |m|) else m[..SIGNATURE_SIZE]
  }

  lemma TransparentSealing()
    ensures SealingHolds(Transparent)
  {
    hide TagSize;
    forall m, k, iv, p, ad
      ensures Transparent.open(m, k, iv, Transparent.seal(m, k, iv, p, ad), ad) == Some(p)
           && |Transparent.seal(m, k, iv, p, ad)| == |p| + TagSize(m)
    {
      assert (p + Zeros(TagSize(m)))[..|p|] == p;
    }
  }

  lemma TransparentOpening()
    ensures OpeningHolds(Transparent)
  {
    hide TagSize;
  }

  lemma TransparentSizes()
    ensures SizesHold(Transparent)
  {
    hide Padded, TagSize;
  }

  lemma LawfulCiphersExist()
    ensures Lawful(Transparent)
  {
    hide SealingHolds, OpeningHolds, SizesHold;
    TransparentSealing();
    TransparentOpening();
    TransparentSizes();
  }

  /**
   EncryptZtdoFile does not reset the signature field. An object whose field is not zero, because it has
   already written or read a file, can produce a file that does not verify.
   */
  lemma ReusedObjectCanFail(h: Header, metadata: bytes, start: bytes, key: bytes, ad: bytes, plaintext: bytes,
                            sizes: nat -> nat, ivs: nat -> bytes, more: bool)
    requires Supplied(sizes, ivs) && Prepared(WrittenHeader(h), metadata) && HasSignature(h.cipherConfig)
    requires |start| == SIGNATURE_SIZE && start != Zeros(SIGNATURE_SIZE)
    ensures DecryptFile(Transparent, key, ad, EncryptFile(Transparent, h, start, key, ad, plaintext, sizes, ivs), more)
         == None
  {
    hide DecryptFile, EncryptFile, Payloads, Marshal, DecryptPayloads, Lawful;
    LawfulCiphersExist();
    EncryptThenDecrypt(Transparent, h, metadata, start, key, ad, plaintext, sizes, ivs, more);
    var ps := Payloads(Transparent, CipherMode(h.cipherConfig), key, ad, plaintext, sizes, ivs, 0);
    TransparentChain(key, start, WrittenHeader(h), ps);
    TransparentChain(key, Zeros(SIGNATURE_SIZE), WrittenHeader(h), ps);
  }

  lemma TransparentChain(key: bytes, start: bytes, h: Header, ps: seq<Payload>)
    requires |start| == SIGNATURE_SIZE
    ensures FileSignature(Transparent, key, start, h, ps) == start
  {
    hide Marshal;
    var m := Marshal(HeaderValue(h));
    assert (start + m)[..SIGNATURE_SIZE] == start;
    TransparentMixAll(start, ps);
  }

  lemma {:induction false} TransparentMixAll(start: bytes, ps: seq<Payload>)
    requires |start| == SIGNATURE_SIZE
    ensures MixAll(Transparent, start, ps) == start
    decreases ps
  {
    hide Marshal;
    if ps != [] {
      var m := Marshal(PayloadValue(ps[0]));
      assert (start + m)[..SIGNATURE_SIZE] == start;
      TransparentMixAll(start, ps[1..]);
    }
  }

  // ---- The object ----

  /** Ztdo: a header and the running signature. Files are byte strings here. */
  class ZtdoObject {
    const ciphers: Ciphers
    var header: Header
    var signature: bytes

    /** NewZtdo; the object id is random, and its first bytes serve as the magic number. */
    constructor (ciphers: Ciphers, objectId: bytes)
      requires |objectId| == OBJECT_ID_SIZE
      ensures this.ciphers == ciphers && signature == Zeros(SIGNATURE_SIZE)
      ensures header == Header(objectId[..MAGIC_NUMBER_SIZE], objectId, [0, 1], [0], [], 0, [])
    {
      this.ciphers, signature := ciphers, Zeros(SIGNATURE_SIZE);
      header := Header(objectId[..MAGIC_NUMBER_SIZE], objectId, [0, 1], [0], [], 0, []);
    }

    method SetNhpServer(nhpServer: bytes) returns (ok: bool)
      modifies this`header
      ensures ok <==> |nhpServer| <= NHP_SERVER_MAX_SIZE
      ensures header == if ok then old(header).(serverLen := [|nhpServer|], server := nhpServer) else old(header)
    {
      if |nhpServer| > NHP_SERVER_MAX_SIZE { return false; }
      header := header.(serverLen := [|nhpServer|], server := nhpServer);
      ok := true;
    }

    method SetMetadata(metadata: bytes)
      modifies this`header
      ensures header == old(header).(metadata := Chunks(metadata))
      ensures GetMetadata(header.metadata) == metadata
    {
      header := header.(metadata := []);
      var chunkNum := |metadata| / METADATA_CHUNK_MAX_SIZE;
      var i := 0;
      while i < chunkNum
        invariant i <= chunkNum
        invariant header == old(header).(metadata := header.metadata)
        invariant header.metadata + Chunks(metadata[i * METADATA_CHUNK_MAX_SIZE..]) == Chunks(metadata)
      {
        var left := metadata[i * METADATA_CHUNK_MAX_SIZE..];
        var chunk := left[..METADATA_CHUNK_MAX_SIZE];
        assert left[METADATA_CHUNK_MAX_SIZE..] == metadata[(i + 1) * METADATA_CHUNK_MAX_SIZE..];
        header := header.(metadata := header.metadata + [FullChunk(chunk)]);
        i := i + 1;
      }
      header := header.(metadata := header.metadata + [LastChunk(metadata[i * METADATA_CHUNK_MAX_SIZE..])]);
      MetadataRoundTrip(metadata);
    }

    method SetCipherConfig(hasSignature: bool, mode: byte, eccMode: byte)
      modifies this`header
      ensures header == old(header).(cipherConfig := SetConfig(old(header.cipherConfig), hasSignature, mode, eccMode))
    {
      header := header.(cipherConfig := SetConfig(header.cipherConfig, hasSignature, mode, eccMode));
    }

    /** sizes(i) is the most the i-th read of the plaintext returns, ivs(i) the i-th random nonce. */
    method EncryptZtdoFile(plaintext: bytes, key: bytes, ad: bytes, sizes: nat -> nat, ivs: nat -> bytes)
      returns (file: bytes)
      requires Supplied(sizes, ivs)
      modifies this
      ensures file == EncryptFile(ciphers, old(header), old(signature), key, ad, plaintext, sizes, ivs)
      ensures header == WrittenHeader(old(header))
      ensures signature == FileSignature(ciphers, key, old(signature), header,
                             Payloads(ciphers, CipherMode(header.cipherConfig), key, ad, plaintext, sizes, ivs, 0))
    {
      hide Marshal, SealedPayload, PayloadBytes, MixAll, Payloads;
      if GetMetadata(header.metadata) == [] {
        SetMetadata([]);
      }
      file := Marshal(HeaderValue(header));
      signature := MixHash(ciphers, signature, file);
      ghost var mode := CipherMode(header.cipherConfig);
      ghost var ps := Payloads(ciphers, mode, key, ad, plaintext, sizes, ivs, 0);
      ghost var headerBuf, chain := file, signature;
      var pos, i := 0, 0;
      assert plaintext[pos..] == plaintext;
      while pos < |plaintext|
        invariant pos <= |plaintext| && header == WrittenHeader(old(header))
        invariant var rest := Payloads(ciphers, mode, key, ad, plaintext[pos..], sizes, ivs, i);
                  && file + PayloadBytes(rest) == headerBuf + PayloadBytes(ps)
                  && MixAll(ciphers, signature, rest) == MixAll(ciphers, chain, ps)
      {
        var n := ReadSize(sizes, i, |plaintext| - pos);
        PayloadsStep(ciphers, mode, key, ad, plaintext[pos..], sizes, ivs, i, signature);
        assert plaintext[pos..][n..] == plaintext[pos + n..] && plaintext[pos..][..n] == plaintext[pos..pos + n];
        var payload := SealedPayload(ciphers, CipherMode(header.cipherConfig), key, ad, ivs(i), plaintext[pos..pos + n]);
        var payloadBuf := Marshal(PayloadValue(payload));
        signature := MixHash(ciphers, signature, payloadBuf);
        file := file + payloadBuf;
        pos, i := pos + n, i + 1;
      }
      assert plaintext[pos..] == [];
      NoPayloads(ciphers, mode, key, ad, sizes, ivs, i, signature);
      signature := Sign(ciphers, key, signature);
      file := file + signature;
    }

    /** Reads the stored signature and compares it with the recalculated one. */
    method VerifySignature(file: bytes, pos: nat, more: bool, recalculated: bytes) returns (ok: bool)
      requires pos <= |file|
      modifies this`signature
      ensures var r := Parse(SignatureType, file, pos, Control(map[], more));
              && (ok <==> r.Parsed? && Marshal(r.value) == recalculated)
              && signature == if r.Parsed? then Marshal(r.value) else old(signature)
    {
      hide Parse, Marshal;
      var decoder := new Decoder(file, pos, more);
      var values := decoder.Unmarshal(SignatureType);
      if values == None { return false; }
      signature := Marshal(values.value);
      ok := signature == recalculated;
    }

    /** One turn of the payload loop; the outcome so far, or a final one. */
    method DecryptPayload(config: byte, key: bytes, ad: bytes, file: bytes, pos: nat, more: bool,
                          remaining: int, recalculated: bytes, written: bytes)
      returns (done: Option<Outcome>, pos': nat, more': bool, remaining': int, recalculated': bytes, written': bytes)
      requires pos <= |file|
      ensures var whole := DecryptPayloads(ciphers, config, key, ad, file, pos, more, remaining, recalculated, written);
              match done
              case Some(outcome) => outcome == whole
              case None =>
                && pos < pos' <= |file|
                && whole == DecryptPayloads(ciphers, config, key, ad, file, pos', more', remaining', recalculated', written')
    {
      hide Parse, Marshal, DecryptMode, MixHash, PayloadOf;
      pos', more', remaining', recalculated', written' := pos, more, remaining, recalculated, written;
      PayloadAdvances(file, pos, Control(map[], more));
      var decoder := new Decoder(file, pos, more);
      var values := decoder.Unmarshal(PayloadType);
      if values == None { done := Some(Rejected); return; }
      var payload := PayloadOf(values.value);
      var payloadBuf := Marshal(values.value);
      recalculated' := MixHash(ciphers, recalculated, payloadBuf);
      remaining' := remaining - |payloadBuf|;
      pos', more' := decoder.pos, decoder.more;
      var text := DecryptMode(ciphers, CipherMode(config), key, payload.iv, payload.cipherText, ad);
      if text == None { done := Some(Rejected); return; }
      written' := written + text.value;
      if HasSignature(config) {
        if remaining' == SIGNATURE_SIZE { done := Some(Plain(written', pos', more', recalculated')); return; }
        if remaining' == 0 { done := Some(Rejected); return; }
      } else {
        if remaining' == 0 { done := Some(Plain(written', pos', more', recalculated')); return; }
      }
      done := None;
    }

    method DecryptAllPayloads(config: byte, key: bytes, ad: bytes, file: bytes, start: nat, indicator: bool,
                              size: int, hash: bytes) returns (outcome: Outcome)
      requires start <= |file|
      ensures outcome == DecryptPayloads(ciphers, config, key, ad, file, start, indicator, size, hash, [])
    {
      hide DecryptPayloads;
      var pos, more, remaining, recalculated, written := start, indicator, size, hash, [];
      ghost var whole := DecryptPayloads(ciphers, config, key, ad, file, pos, more, remaining, recalculated, written);
      while true
        invariant pos <= |file|
        invariant whole == DecryptPayloads(ciphers, config, key, ad, file, pos, more, remaining, recalculated, written)
        decreases |file| - pos
      {
        var done: Option<Outcome>;
        done, pos, more, remaining, recalculated, written :=
          DecryptPayload(config, key, ad, file, pos, more, remaining, recalculated, written);
        if done.Some? { return done.value; }
      }
    }

    /** more is whatever the continuation indicator was left at by an earlier parse. */
    method DecryptZtdoFile(file: bytes, key: bytes, ad: bytes, more: bool) returns (plaintext: Option<bytes>)
      modifies this
      ensures plaintext == DecryptFile(ciphers, key, ad, file, more)
      ensures var r := Parse(HeaderType, file, 0, Control(map[], more));
              r.Parsed? ==> header == HeaderOf(r.value)
      ensures signature == SignatureAfter(ciphers, key, ad, file, more, old(signature))
    {
      hide Parse, Marshal, DecryptPayloads, MixHash, Sign, HeaderOf, HasSignature;
      var decoder := new Decoder(file, 0, more);
      var headerValues := decoder.Unmarshal(HeaderType);
      if headerValues == None { return None; }
      header := HeaderOf(headerValues.value);
      var headerBuf := Marshal(headerValues.value);
      var recalculated := MixHash(ciphers, Zeros(SIGNATURE_SIZE), headerBuf);
      var config := header.cipherConfig;
      var outcome := DecryptAllPayloads(config, key, ad, file, decoder.pos, decoder.more, |file| - |headerBuf|, recalculated);
      if outcome.Rejected? { return None; }
      if HasSignature(config) {
        var ok := VerifySignature(file, outcome.pos, outcome.more, Sign(ciphers, key, outcome.signature));
        if !ok { return None; }
      }
      plaintext := Some(outcome.plaintext);
    }
  }

  /** One object packs a file and another one unpacks it, through the methods alone. */
  method PackAndUnpack(ciphers: Ciphers, objectId: bytes, otherId: bytes, nhpServer: bytes, metadata: bytes, mode: byte,
                       eccMode: byte, key: bytes, ad: bytes, plaintext: bytes, sizes: nat -> nat, ivs: nat -> bytes)
    returns (unpacked: Option<bytes>)
    requires Lawful(ciphers) && Supplied(sizes, ivs)
    requires |objectId| == |otherId| == OBJECT_ID_SIZE && mode < 16 && eccMode < 8
    ensures unpacked == if |nhpServer| <= NHP_SERVER_MAX_SIZE && plaintext != [] && Usable(mode, key)
                        then Some(plaintext) else None
  {
    hide Chunks, SetConfig, CipherMode, HasSignature, EncryptFile, DecryptFile, Usable, Or;
    var writer := new ZtdoObject(ciphers, objectId);
    var ok := writer.SetNhpServer(nhpServer);
    if !ok { return None; }
    writer.SetMetadata(metadata);
    writer.SetCipherConfig(true, mode, eccMode);
    ghost var h := writer.header;
    var file := writer.EncryptZtdoFile(plaintext, key, ad, sizes, ivs);
    var reader := new ZtdoObject(ciphers, otherId);
    unpacked := reader.DecryptZtdoFile(file, key, ad, false);
    FreshConfig(mode, eccMode);
    EmptyMetadata(metadata);
    FreshObjectRoundTrip(ciphers, h, metadata, key, ad, plaintext, sizes, ivs, false);
  }

  /** The same for an object that is never given a server name or metadata. */
  method PackBare(ciphers: Ciphers, objectId: bytes, otherId: bytes, mode: byte, eccMode: byte, key: bytes, ad: bytes,
                  plaintext: bytes, sizes: nat -> nat, ivs: nat -> bytes)
    returns (unpacked: Option<bytes>)
    requires Lawful(ciphers) && Supplied(sizes, ivs)
    requires |objectId| == |otherId| == OBJECT_ID_SIZE && mode < 16 && eccMode < 8
    ensures unpacked == if plaintext != [] && Usable(mode, key) then Some(plaintext) else None
  {
    hide Chunks, SetConfig, CipherMode, HasSignature, EncryptFile, DecryptFile, Usable, Or;
    var writer := new ZtdoObject(ciphers, objectId);
    writer.SetCipherConfig(true, mode, eccMode);
    ghost var h := writer.header;
    var file := writer.EncryptZtdoFile(plaintext, key, ad, sizes, ivs);
    var reader := new ZtdoObject(ciphers, otherId);
    unpacked := reader.DecryptZtdoFile(file, key, ad, false);
    FreshConfig(mode, eccMode);
    FreshObjectRoundTrip(ciphers, h, [], key, ad, plaintext, sizes, ivs, false);
  }

  lemma FreshConfig(mode: byte, eccMode: byte)
    requires mode < 16 && eccMode < 8
    ensures HasSignature(SetConfig(0, true, mode, eccMode)) && CipherMode(SetConfig(0, true, mode, eccMode)) == mode
  {
    hide SetConfig;
    ConfigAccumulates(0, true, mode, eccMode);
  }

  lemma EmptyMetadata(metadata: bytes)
    ensures GetMetadata(Chunks(metadata)) == [] ==> Chunks([]) == Chunks(metadata)
  {
    MetadataRoundTrip(metadata);
  }
}
