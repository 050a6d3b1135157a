/** The NHP packet header of nhp/core/packet.go and nhp/core/scheme, for both cipher schemes. */
module PacketLayout {
  import opened Bytes
  import opened Primitives

  const HEADER_COMMON_SIZE: nat := 24
  const TIMESTAMP_SIZE: nat := 8
  const MAXIMUM_IDENTITY_SIZE: nat := 64
  const PACKET_BUFFER_SIZE: nat := 4096

  // ---- Offsets ----

  function StaticAt(s: Scheme): nat {
    HEADER_COMMON_SIZE + PublicKeySize(s) + MAXIMUM_IDENTITY_SIZE + GCM_TAG_SIZE
  }

  function TimestampAt(s: Scheme): nat {
    StaticAt(s) + PublicKeySize(s) + GCM_TAG_SIZE
  }

  function HmacAt(s: Scheme): nat {
    TimestampAt(s) + TIMESTAMP_SIZE + GCM_TAG_SIZE
  }

  function HeaderSize(s: Scheme): nat {
    HmacAt(s) + HASH_SIZE
  }

  /** MinimalLength: the size of the smaller header. */
  const MINIMAL_LENGTH: nat := HeaderSize(Curve)

  // ---- Readers; a packet at least as long as the header is the caller's concern ----

  function Flag(buf: bytes): nat
    requires |buf| >= HEADER_COMMON_SIZE
  {
    FromBigEndian(buf[10..12])
  }

  /** Packet.Header: the extended-length flag tells the schemes apart. */
  function SchemeOf(flag: nat): Scheme {
    if flag % 2 == 0 then Curve else Gmsm
  }

  predicate Compressed(flag: nat) {
    flag / 2 % 2 == 1
  }

  function Counter(buf: bytes): nat
    requires |buf| >= HEADER_COMMON_SIZE
  {
    FromBigEndian(buf[16..24])
  }

  function Nonce(buf: bytes): bytes
    requires |buf| >= HEADER_COMMON_SIZE
  {
    Zeros(GCM_NONCE_SIZE - 8) + buf[16..24]
  }

  /** The type and size words are masked with a random preamble. */
  function TypeAndSize(buf: bytes): (nat, nat)
    requires |buf| >= HEADER_COMMON_SIZE
  {
    var tns := Xor(FromBigEndian(buf[0..4]), FromBigEndian(buf[4..8]));
    (tns / U16, tns % U16)
  }

  function Ephemeral(s: Scheme, buf: bytes): bytes
    requires |buf| >= HeaderSize(s)
  {
    buf[HEADER_COMMON_SIZE..HEADER_COMMON_SIZE + PublicKeySize(s)]
  }

  function Static(s: Scheme, buf: bytes): bytes
    requires |buf| >= HeaderSize(s)
  {
    buf[StaticAt(s)..TimestampAt(s)]
  }

  function Timestamp(s: Scheme, buf: bytes): bytes
    requires |buf| >= HeaderSize(s)
  {
    buf[TimestampAt(s)..HmacAt(s)]
  }

  function HmacField(s: Scheme, buf: bytes): bytes
    requires |buf| >= HeaderSize(s)
  {
    buf[HmacAt(s)..HeaderSize(s)]
  }

  // ---- Writers ----

  function MaskedWords(t: nat, size: nat, preamble: nat): (r: bytes)
    requires preamble < U32
    ensures |r| == 8
  {
    BigEndian(preamble, 4) + BigEndian(Xor(preamble, t % U16 * U16 + size % U16), 4)
  }

  function FlagWord(s: Scheme, flag: nat): (r: nat)
    ensures r < U16
  {
    match s
    case Gmsm => (flag - flag % 2 + 1) % 4096
    case Curve => (flag - flag % 2) % 4096
  }

  function SetTypeAndSize(buf: bytes, t: nat, size: nat, preamble: nat): (r: bytes)
    requires |buf| >= HEADER_COMMON_SIZE && preamble < U32
    ensures |r| == |buf|
  {
    Splice(buf, 0, MaskedWords(t, size, preamble))
  }

  function SetVersion(buf: bytes): (r: bytes)
    requires |buf| >= HEADER_COMMON_SIZE
    ensures |r| == |buf|
  {
    Splice(buf, 8, [1, 0])
  }

  function SetFlag(buf: bytes, s: Scheme, flag: nat): (r: bytes)
    requires |buf| >= HEADER_COMMON_SIZE
    ensures |r| == |buf|
  {
    Splice(buf, 10, BigEndian(FlagWord(s, flag), 2))
  }

  function SetCounter(buf: bytes, counter: nat): (r: bytes)
    requires |buf| >= HEADER_COMMON_SIZE
    ensures |r| == |buf|
  {
    Splice(buf, 16, BigEndian(counter, 8))
  }

  // ---- What is written is what is read ----

  /** Type and size survive the masking, for every preamble. */
  lemma TypeAndSizeRoundTrip(buf: bytes, t: nat, size: nat, preamble: nat)
    requires |buf| >= HEADER_COMMON_SIZE && preamble < U32 && t < U16 && size < U16
    requires buf[0..8] == MaskedWords(t, size, preamble)
    ensures TypeAndSize(buf) == (t, size)
  {
    hide Xor, BigEndian, FromBigEndian;
    var word := t * U16 + size;
    var masked := Xor(preamble, word);
    Pow2Values();
    XorBound(preamble, word, U32, 32);
    PowersOfWords();
    BigEndianRoundTrip(preamble, 4);
    BigEndianRoundTrip(masked, 4);
    assert buf[0..4] == buf[0..8][..4] && buf[4..8] == buf[0..8][4..];
    XorCancels(preamble, word);
  }

  /** The scheme and the compression flag are read back from the flag word. */
  lemma FlagRoundTrip(buf: bytes, s: Scheme, flag: nat)
    requires |buf| >= HEADER_COMMON_SIZE && flag < 8
    requires buf[10..12] == BigEndian(FlagWord(s, flag), 2)
    ensures SchemeOf(Flag(buf)) == s && (Compressed(Flag(buf)) <==> Compressed(flag))
  {
    hide BigEndian, FromBigEndian;
    PowersOfWords();
    BigEndianRoundTrip(FlagWord(s, flag), 2);
  }
}
