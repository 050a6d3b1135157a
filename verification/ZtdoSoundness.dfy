/** The converse for ZTDO files: what a file must be for DecryptZtdoFile to accept it, and what is written in one. */
module ZtdoSoundness {
  import opened Bytes
  import opened TagCodec
  import opened Ztdo

  // ---- What is accepted ----

  /** The running hash over the bytes of whole payloads. */
  function Chain(c: Ciphers, start: bytes, ps: seq<Values>): bytes
    decreases |ps|
  {
    if ps == [] then start else Chain(c, c.sha256(start + Marshal(ps[0])), ps[1..])
  }

  /** All payloads open, one after the other. */
  function OpenAll(c: Ciphers, mode: byte, key: bytes, ad: bytes, ps: seq<Values>): Option<bytes>
    decreases |ps|
  {
    if ps == [] then Some([])
    else
      var p := PayloadOf(ps[0]);
      var text, rest := DecryptMode(c, mode, key, p.iv, p.cipherText, ad), OpenAll(c, mode, key, ad, ps[1..]);
      if text == None || rest == None then None else Some(text.value + rest.value)
  }

  /** A parse that took as many bytes as it gives back has not run into the end of the file. */
  lemma FullyRead(fs: Fields, file: bytes, pos: nat, ctl: Control)
    requires pos <= |file| && Parse(fs, file, pos, ctl).Parsed?
    requires pos + |Marshal(Parse(fs, file, pos, ctl).value)| <= |file|
    ensures var r := Parse(fs, file, pos, ctl);
            r.pos == pos + |Marshal(r.value)| && Holds(file, pos, Marshal(r.value))
  {
    hide Parse, Marshal;
    ParseConsumes(fs, file, pos, ctl);
    var r := Parse(fs, file, pos, ctl);
    assert file[pos..r.pos] + Zeros(0) == file[pos..r.pos];
  }

  lemma HoldsBoth(file: bytes, pos: nat, a: bytes, b: bytes)
    requires Holds(file, pos, a) && Holds(file, pos + |a|, b)
    ensures Holds(file, pos, a + b)
  {
    assert file[pos..pos + |a + b|] == file[pos..pos + |a|] + file[pos + |a|..pos + |a| + |b|];
  }

  /** The loop comes to its end only over whole payloads that all open, with exactly a signature behind them. */
  lemma {:induction false} LoopEndsBeforeSignature(
    c: Ciphers, config: byte, key: bytes, ad: bytes, file: bytes, pos: nat, more: bool, signature: bytes, done: bytes)
    returns (ps: seq<Values>)
    requires pos <= |file| && HasSignature(config)
    requires DecryptPayloads(c, config, key, ad, file, pos, more, |file| - pos, signature, done).Plain?
    ensures var r := DecryptPayloads(c, config, key, ad, file, pos, more, |file| - pos, signature, done);
            var text := OpenAll(c, CipherMode(config), key, ad, ps);
            && ps != [] && Holds(file, pos, MarshalElements(ps)) && r.pos == pos + |MarshalElements(ps)|
            && r.pos + 32 == |file| && r.signature == Chain(c, signature, ps)
            && text.Some? && r.plaintext == done + text.value
    decreases |file| - pos
  {
    hide Parse, Marshal, PayloadOf, DecryptMode, HasSignature, CipherMode;
    var ctl := Control(map[], more);
    PayloadAdvances(file, pos, ctl);
    var r := Parse(PayloadType, file, pos, ctl);
    var buf, payload := Marshal(r.value), PayloadOf(r.value);
    var text := DecryptMode(c, CipherMode(config), key, payload.iv, payload.cipherText, ad).value;
    var left, sig := |file| - pos - |buf|, MixHash(c, signature, buf);
    if left < 0 {
      DecryptPayloadsRejects(c, config, key, ad, file, r.pos, r.control.more, left, sig, done + text);
    }
    FullyRead(PayloadType, file, pos, ctl);
    assert MarshalElements([r.value]) == buf + MarshalElements([]);
    if left == 32 {
      ps := [r.value];
      assert OpenAll(c, CipherMode(config), key, ad, ps[1..]) == Some([]);
      assert text + [] == text;
      assert Chain(c, signature, ps) == Chain(c, sig, ps[1..]);
    } else {
      var rest := LoopEndsBeforeSignature(c, config, key, ad, file, r.pos, r.control.more, sig, done + text);
      ps := [r.value] + rest;
      assert ps[1..] == rest;
      HoldsBoth(file, pos, buf, MarshalElements(rest));
      var tail := OpenAll(c, CipherMode(config), key, ad, rest).value;
      assert done + text + tail == done + (text + tail);
    }
  }

  /** The stored signature is the rest of the file. */
  lemma SignatureIsRest(file: bytes, pos: nat, more: bool, sig: bytes)
    requires pos + 32 == |file| && |sig| == 32
    requires var r := Parse(SignatureType, file, pos, Control(map[], more)); r.Parsed? && Marshal(r.value) == sig
    ensures file[pos..] == sig
  {
    hide Parse, Marshal;
    FullyRead(SignatureType, file, pos, Control(map[], more));
  }

  /**
   For every file that claims a signature: if it decrypts, then it consists of a header, whole payloads that all open,
   and the HMAC under the key of the hash chain over exactly these bytes, from zeros. Its plaintext is theirs.
   */
  lemma OnlySignedFilesDecrypt(c: Ciphers, key: bytes, ad: bytes, file: bytes, more: bool)
    returns (head: Values, ps: seq<Values>)
    requires SizesHold(c) && DecryptFile(c, key, ad, file, more).Some?
    requires var r := Parse(HeaderType, file, 0, Control(map[], more));
             r.Parsed? && HasSignature(HeaderOf(r.value).cipherConfig)
    ensures head == Parse(HeaderType, file, 0, Control(map[], more)).value && ps != []
    ensures file == Marshal(head) + MarshalElements(ps)
                    + c.hmacSha256(key, Chain(c, c.sha256(Zeros(32) + Marshal(head)), ps))
    ensures OpenAll(c, CipherMode(HeaderOf(head).cipherConfig), key, ad, ps) == DecryptFile(c, key, ad, file, more)
  {
    hide Parse, Marshal, HeaderOf, CipherMode, DecryptPayloads, HasSignature, OpenAll, Chain;
    var ctl := Control(map[], more);
    var r := Parse(HeaderType, file, 0, ctl);
    head := r.value;
    var config, buf := HeaderOf(head).cipherConfig, Marshal(head);
    var start := MixHash(c, Zeros(SIGNATURE_SIZE), buf);
    var left := |file| - |buf|;
    if left < 0 {
      DecryptPayloadsRejects(c, config, key, ad, file, r.pos, r.control.more, left, start, []);
    }
    FullyRead(HeaderType, file, 0, ctl);
    var o := DecryptPayloads(c, config, key, ad, file, r.pos, r.control.more, left, start, []);
    ps := LoopEndsBeforeSignature(c, config, key, ad, file, r.pos, r.control.more, start, []);
    SignatureIsRest(file, o.pos, o.more, Sign(c, key, o.signature));
    assert [] + OpenAll(c, CipherMode(config), key, ad, ps).value == OpenAll(c, CipherMode(config), key, ad, ps).value;
    assert file == file[..r.pos] + file[r.pos..o.pos] + file[o.pos..];
  }

  /** A trailer made with one key is accepted under it, and refused under another whose HMAC differs. */
  lemma OtherKeyIsRefused(c: Ciphers, config: byte, key: bytes, other: bytes, file: bytes, outcome: Outcome)
    requires SizesHold(c) && HasSignature(config) && outcome.Plain? && outcome.pos + 32 == |file|
    requires file[outcome.pos..] == c.hmacSha256(key, outcome.signature)
    ensures VerifyFile(c, config, key, file, outcome) == Some(outcome.plaintext)
    ensures c.hmacSha256(other, outcome.signature) != c.hmacSha256(key, outcome.signature) ==>
              VerifyFile(c, config, other, file, outcome) == None
  {
    hide Parse, Marshal, HasSignature;
    SignatureParses(c.hmacSha256(key, outcome.signature), file, outcome.pos, outcome.more);
  }

  // ---- What is written ----

  /** The order of the fields in a file. */
  lemma HeaderLayout(h: Header)
    ensures Marshal(HeaderValue(h))
         == h.magic + h.objectId + h.version + h.serverLen + h.server + [h.cipherConfig]
            + MarshalElements(ChunkValues(h.metadata))
  {
    var chunks := Values(Slice(ChunkValues(h.metadata)), NoValues);
    assert Marshal(chunks) == MarshalElements(ChunkValues(h.metadata)) + Marshal(NoValues);
    var config := Values(Raw([h.cipherConfig]), chunks);
    assert Marshal(config) == [h.cipherConfig] + Marshal(chunks);
    var server := Values(Raw(h.server), config);
    assert Marshal(server) == h.server + Marshal(config);
    assert Marshal(ServerValue(h)) == h.serverLen + Marshal(server);
    var version := Values(Raw(h.version), ServerValue(h));
    assert Marshal(version) == h.version + Marshal(ServerValue(h));
    var id := Values(Raw(h.objectId), version);
    assert Marshal(id) == h.objectId + Marshal(version);
    assert Marshal(HeaderValue(h)) == h.magic + Marshal(id);
  }

  /** A header is always written with a well-formed metadata list: an object without metadata gets one empty chunk. */
  lemma WrittenIsPrepared(h: Header, metadata: bytes)
    requires |h.magic| == 4 && |h.objectId| == 16 && |h.version| == 2 && |h.server| <= 255 && h.serverLen == [|h.server|]
    requires h.metadata == Chunks(metadata) || (h.metadata == [] && metadata == [])
    ensures Prepared(WrittenHeader(h), metadata) && GetMetadata(WrittenHeader(h).metadata) == metadata
  {
    MetadataRoundTrip(metadata);
    EmptyMetadata(metadata);
  }

  lemma PayloadLayout(p: Payload)
    ensures Marshal(PayloadValue(p)) == p.length + p.iv + p.cipherText
  {
    var ct := Values(Raw(p.cipherText), NoValues);
    var content := Values(Raw(p.iv), ct);
    var nested := Values(Struct(content), NoValues);
    assert Marshal(ct) == p.cipherText + Marshal(NoValues);
    assert Marshal(content) == p.iv + Marshal(ct);
    assert Marshal(nested) == Marshal(content) + Marshal(NoValues);
    assert Marshal(PayloadValue(p)) == p.length + Marshal(nested);
  }

  /** One read of the plaintext, sealed under its own nonce with the associated data. */
  ghost predicate SealsRead(c: Ciphers, mode: byte, key: bytes, ad: bytes, p: Payload, iv: bytes, read: bytes, size: nat) {
    && 0 < |read| <= size && p.iv == iv
    && p.cipherText == c.seal(mode, if mode <= 5 || |key| < 16 then key else key[..16], iv, read, ad)
  }

  /** Every payload is such a read, in the order of the plaintext; only the last may be shorter than was asked for. */
  lemma {:induction false} PayloadsAre(c: Ciphers, mode: byte, key: bytes, ad: bytes, plaintext: bytes,
                                       sizes: nat -> nat, ivs: nat -> bytes, i: nat, j: nat) returns (lo: nat, hi: nat)
    requires Supplied(sizes, ivs) && Usable(mode, key) && j < |Payloads(c, mode, key, ad, plaintext, sizes, ivs, i)|
    ensures lo <= hi <= |plaintext| && (hi == |plaintext| || hi - lo == sizes(i + j))
    ensures SealsRead(c, mode, key, ad, Payloads(c, mode, key, ad, plaintext, sizes, ivs, i)[j], ivs(i + j),
                      plaintext[lo..hi], sizes(i + j))
    decreases j
  {
    var n := ReadSize(sizes, i, |plaintext|);
    var rest := PayloadsSplit(c, mode, key, ad, plaintext, sizes, ivs, i);
    ReadSizeIs(sizes, i, |plaintext|);
    hide Payloads, SealedPayload, Usable, SealsRead, ReadSize;
    if j == 0 {
      lo, hi := 0, n;
      FirstIsSealed(c, mode, key, ad, ivs(i), plaintext[..n], sizes(i));
    } else {
      var l, h := PayloadsAre(c, mode, key, ad, plaintext[n..], sizes, ivs, i + 1, j - 1);
      lo, hi := n + l, n + h;
      SliceOfRest(plaintext, n, l, h);
      assert Payloads(c, mode, key, ad, plaintext, sizes, ivs, i)[j] == rest[j - 1] && i + 1 + (j - 1) == i + j;
    }
  }

  lemma SliceOfRest(s: bytes, n: nat, l: nat, h: nat)
    requires n <= |s| && l <= h <= |s| - n
    ensures s[n..][l..h] == s[n + l..n + h]
  {
  }

  lemma ReadSizeIs(sizes: nat -> nat, i: nat, left: nat)
    requires sizes(i) > 0 && left > 0
    ensures var n := ReadSize(sizes, i, left); 0 < n <= left && n <= sizes(i) && (n == left || n == sizes(i))
  {
  }

  lemma PayloadsSplit(c: Ciphers, mode: byte, key: bytes, ad: bytes, plaintext: bytes,
                      sizes: nat -> nat, ivs: nat -> bytes, i: nat) returns (rest: seq<Payload>)
    requires Supplied(sizes, ivs) && Payloads(c, mode, key, ad, plaintext, sizes, ivs, i) != []
    ensures plaintext != []
    ensures var n := ReadSize(sizes, i, |plaintext|);
            && rest == Payloads(c, mode, key, ad, plaintext[n..], sizes, ivs, i + 1)
            && Payloads(c, mode, key, ad, plaintext, sizes, ivs, i)
            == [SealedPayload(c, mode, key, ad, ivs(i), plaintext[..n])] + rest
  {
    hide SealedPayload;
    rest := Payloads(c, mode, key, ad, plaintext[ReadSize(sizes, i, |plaintext|)..], sizes, ivs, i + 1);
  }

  lemma FirstIsSealed(c: Ciphers, mode: byte, key: bytes, ad: bytes, iv: bytes, text: bytes, size: nat)
    requires Usable(mode, key) && 0 < |text| <= size
    ensures SealsRead(c, mode, key, ad, SealedPayload(c, mode, key, ad, iv, text), iv, text, size)
  {
    hide LittleEndian;
  }

  /** The modes that encrypt and decrypt at all: five tag sizes of AES-256-GCM, and SM4-GCM with the full tag. */
  lemma UsableIff(mode: byte, key: bytes)
    ensures Usable(mode, key) <==> (mode in {1, 2, 3, 4, 5} && |key| == 32) || (mode == 7 && |key| >= 16)
    ensures Usable(mode, key) ==> TagSize(mode) == if mode <= 5 then 11 + mode else 16
  {
  }
}
