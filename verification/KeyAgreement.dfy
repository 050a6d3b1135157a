/** DHP symmetric key agreement, nhp/core/ztdo/noise.go: two sides interpret mirrored token lists. */
module KeyAgreement {
  import opened Bytes
  import opened Primitives

  datatype Token = S | E | RS | RE | DHEE | DHES | DHSE | DHSS

  /** One party: its two private keys, the remote public keys, and the pre-shared key if it is used. */
  datatype Side = Side(s: bytes, e: bytes, rs: bytes, re: bytes, psk: Option<bytes>, provider: bool)

  /** ck, what has been written to adHash, and gcmKey. */
  datatype Progress = Progress(ck: bytes, transcript: bytes, gcmKey: bytes)

  /** A failed SharedSecret is a nil slice, which the code then hashes as an empty one. */
  function SharedSecret(c: Suite, sk: bytes, pk: bytes): bytes {
    var r := c.dh(sk, pk);
    if r.Some? then r.value else []
  }

  predicate IsDh(t: Token) {
    t.DHEE? || t.DHES? || t.DHSE? || t.DHSS?
  }

  /** The public key that a DH token mixes in: always one of the consumer's. */
  function MixedKey(c: Suite, side: Side, t: Token): bytes
    requires IsDh(t)
  {
    if side.provider then (if t.DHSS? || t.DHES? then side.rs else side.re)
    else (if t.DHSS? || t.DHSE? then c.pub(side.s) else c.pub(side.e))
  }

  function Secret(c: Suite, side: Side, t: Token): bytes
    requires IsDh(t)
  {
    SharedSecret(c, if t.DHSS? || t.DHSE? then side.s else side.e, if t.DHSS? || t.DHES? then side.rs else side.re)
  }

  function PlainKey(c: Suite, side: Side, t: Token): bytes
    requires !IsDh(t)
  {
    match t
    case S => c.pub(side.s)
    case E => c.pub(side.e)
    case RS => side.rs
    case RE => side.re
  }

  function Step(c: Suite, side: Side, t: Token, last: bool, p: Progress): Progress {
    if !IsDh(t) then p.(transcript := p.transcript + PlainKey(c, side, t))
    else
      var mixed := MixedKey(c, side, t);
      var ck := KeyGen1Value(c, p.ck, mixed);
      var transcript := p.transcript + mixed;
      if last then
        var (ck', key) := KeyGen2Value(c, ck, Secret(c, side, t));
        Progress(ck', transcript, key)
      else Progress(KeyGen1Value(c, ck, Secret(c, side, t)), transcript, p.gcmKey)
  }

  function Run(c: Suite, side: Side, tokens: seq<Token>, p: Progress): Progress
    decreases tokens
  {
    if tokens == [] then p else Run(c, side, tokens[1..], Step(c, side, tokens[0], |tokens| == 1, p))
  }

  function Start(c: Suite, psk: Option<bytes>): Progress {
    match psk
    case None => Progress(Zeros(SYMMETRIC_KEY_SIZE), [], Zeros(SYMMETRIC_KEY_SIZE))
    case Some(k) => Progress(KeyGen1Value(c, c.hash(k), k), k, Zeros(SYMMETRIC_KEY_SIZE))
  }

  /** The agreed key and associated data. */
  function Agree(c: Suite, side: Side, tokens: seq<Token>): (bytes, bytes) {
    var p := Run(c, side, tokens, Start(c, side.psk));
    (p.gcmKey, c.hash(p.transcript))
  }

  // ---- Mirrored patterns ----

  function Mirror(t: Token): Token {
    match t
    case S => RS
    case RS => S
    case E => RE
    case RE => E
    case DHSE => DHES
    case DHES => DHSE
    case DHSS => DHSS
    case DHEE => DHEE
  }

  function MirrorAll(ts: seq<Token>): (r: seq<Token>)
    ensures |r| == |ts|
    ensures forall i :: 0 <= i < |ts| ==> r[i] == Mirror(ts[i])
  {
    seq(|ts|, i requires 0 <= i < |ts| => Mirror(ts[i]))
  }

  /** The keys that the provider's token needs are known to both sides; the others may be anything. */
  ghost predicate KeysMatch(c: Suite, p: Side, q: Side, t: Token) {
    && (t.S? || t.DHSS? || t.DHSE? ==> q.rs == c.pub(p.s))
    && (t.E? || t.DHEE? || t.DHES? ==> q.re == c.pub(p.e))
    && (t.RS? || t.DHSS? || t.DHES? ==> p.rs == c.pub(q.s))
    && (t.RE? || t.DHEE? || t.DHSE? ==> p.re == c.pub(q.e))
  }

  lemma StepsAgree(c: Suite, p: Side, q: Side, t: Token, last: bool, x: Progress)
    requires AgreementHolds(c) && p.provider && !q.provider && KeysMatch(c, p, q, t)
    ensures Step(c, p, t, last, x) == Step(c, q, Mirror(t), last, x)
  {
  }

  lemma {:induction false} RunsAgree(c: Suite, p: Side, q: Side, tokens: seq<Token>, x: Progress)
    requires AgreementHolds(c) && p.provider && !q.provider
    requires forall t :: t in tokens ==> KeysMatch(c, p, q, t)
    ensures Run(c, p, tokens, x) == Run(c, q, MirrorAll(tokens), x)
    decreases tokens
  {
    hide Step, KeysMatch;
    if tokens != [] {
      StepsAgree(c, p, q, tokens[0], |tokens| == 1, x);
      assert MirrorAll(tokens)[1..] == MirrorAll(tokens[1..]);
      RunsAgree(c, p, q, tokens[1..], Step(c, p, tokens[0], |tokens| == 1, x));
    }
  }

  /** For patterns of any length that mirror each other, both sides get the same key and associated data. */
  lemma MirroredPatternsAgree(c: Suite, p: Side, q: Side, tokens: seq<Token>)
    requires AgreementHolds(c) && p.provider && !q.provider && p.psk == q.psk
    requires forall t :: t in tokens ==> KeysMatch(c, p, q, t)
    ensures Agree(c, p, tokens) == Agree(c, q, MirrorAll(tokens))
  {
    RunsAgree(c, p, q, tokens, Start(c, p.psk));
  }

  const WrappingProvider: seq<Token> := [DHSS, S, DHSE]
  const WrappingConsumer: seq<Token> := [DHSS, RS, DHES]

  /** The wrapping patterns need no ephemeral key of the provider's, and use every other one. */
  lemma WrappingPatternsAgree(c: Suite, p: Side, q: Side)
    requires AgreementHolds(c) && p.provider && !q.provider && p.psk == q.psk
    requires p.rs == c.pub(q.s) && p.re == c.pub(q.e) && q.rs == c.pub(p.s)
    ensures Agree(c, p, WrappingProvider) == Agree(c, q, WrappingConsumer)
  {
    assert MirrorAll(WrappingProvider) == WrappingConsumer;
    MirroredPatternsAgree(c, p, q, WrappingProvider);
  }

  /** The wrapping key and its associated data, written out over the three public keys and two secrets. */
  lemma WrappingKeyIs(c: Suite, p: Side, psk: bytes)
    requires p.provider && p.psk == Some(psk)
    ensures var consumerStatic, consumerEphemeral := p.rs, p.re;
            var ck0 := KeyGen1Value(c, c.hash(psk), psk);
            var ck1 := KeyGen1Value(c, KeyGen1Value(c, ck0, consumerStatic), SharedSecret(c, p.s, consumerStatic));
            var ck2 := KeyGen1Value(c, ck1, consumerEphemeral);
            Agree(c, p, WrappingProvider)
            == (KeyGen2Value(c, ck2, SharedSecret(c, p.s, consumerEphemeral)).1,
                c.hash(psk + consumerStatic + c.pub(p.s) + consumerEphemeral))
  {
    hide KeyGen1Value, KeyGen2Value, SharedSecret;
    var x0 := Start(c, p.psk);
    var x1 := Step(c, p, DHSS, false, x0);
    var x2 := Step(c, p, S, false, x1);
    var x3 := Step(c, p, DHSE, true, x2);
    assert Run(c, p, [DHSE], x2) == Run(c, p, [], x3);
    assert Run(c, p, [S, DHSE], x1) == Run(c, p, [DHSE], x2);
    assert Run(c, p, WrappingProvider, x0) == Run(c, p, [S, DHSE], x1);
  }

  const FileProvider: seq<Token> := [S, DHSS]
  const FileConsumer: seq<Token> := [RS, DHSS]

  /** The patterns that a file's own key is agreed by: the two static keys suffice, and no pre-shared key is used. */
  lemma FilePatternsAgree(c: Suite, p: Side, q: Side)
    requires AgreementHolds(c) && p.provider && !q.provider && p.psk == q.psk
    requires p.rs == c.pub(q.s) && q.rs == c.pub(p.s)
    ensures Agree(c, p, FileProvider) == Agree(c, q, FileConsumer)
  {
    assert MirrorAll(FileProvider) == FileConsumer;
    MirroredPatternsAgree(c, p, q, FileProvider);
  }

  lemma FileKeyIs(c: Suite, p: Side)
    requires p.provider && p.psk == None
    ensures var consumer, zero, secret := p.rs, Zeros(32), c.dh(p.s, p.rs);
            Agree(c, p, FileProvider)
            == (KeyGen2Value(c, KeyGen1Value(c, zero, consumer), if secret.Some? then secret.value else []).1,
                c.hash(c.pub(p.s) + consumer))
  {
    hide KeyGen1Value, KeyGen2Value;
    var x0 := Start(c, p.psk);
    var x1 := Step(c, p, S, false, x0);
    var x2 := Step(c, p, DHSS, true, x1);
    assert Run(c, p, [DHSS], x1) == Run(c, p, [], x2);
    assert Run(c, p, FileProvider, x0) == Run(c, p, [DHSS], x1);
    assert [] + c.pub(p.s) + p.rs == c.pub(p.s) + p.rs;
  }

  /** The key is only ever produced by the last token: a pattern that ends otherwise leaves it all zeros. */
  lemma {:induction false} NoKeyWithoutFinalDh(c: Suite, side: Side, tokens: seq<Token>, x: Progress)
    requires tokens == [] || !IsDh(tokens[|tokens| - 1])
    ensures Run(c, side, tokens, x).gcmKey == x.gcmKey
    decreases tokens
  {
    hide MixedKey, Secret, PlainKey, KeyGen1Value, KeyGen2Value;
    if tokens != [] {
      NoKeyWithoutFinalDh(c, side, tokens[1..], Step(c, side, tokens[0], |tokens| == 1, x));
    }
  }

  /** SymmetricAgreement with the key material that its setters stored. */
  class SymmetricAgreement {
    const suite: Suite
    const provider: bool
    var s: bytes
    var e: bytes
    var rs: bytes
    var re: bytes
    var psk: bytes
    var isPskUsed: bool
    var messagePatterns: (seq<Token>, seq<Token>)

    constructor (suite: Suite, provider: bool)
      ensures this.suite == suite && this.provider == provider && View() == Side([], [], [], [], None, provider)
    {
      this.suite, this.provider, psk, isPskUsed := suite, provider, [], false;
      s, e, rs, re, messagePatterns := [], [], [], [], ([], []);
    }

    method SetPsk(psk: bytes)
      modifies this`psk, this`isPskUsed
      ensures View() == old(View()).(psk := Some(psk))
    {
      this.psk, isPskUsed := psk, true;
    }

    method SetStaticKeyPair(s: bytes)
      modifies this`s
      ensures View() == old(View()).(s := s)
    {
      this.s := s;
    }

    method SetEphemeralKeyPair(e: bytes)
      modifies this`e
      ensures View() == old(View()).(e := e)
    {
      this.e := e;
    }

    method SetRemoteStaticPublicKey(rs: bytes)
      modifies this`rs
      ensures View() == old(View()).(rs := rs)
    {
      this.rs := rs;
    }

    method SetRemoteEphemeralPublicKey(re: bytes)
      modifies this`re
      ensures View() == old(View()).(re := re)
    {
      this.re := re;
    }

    method SetMessagePatterns(provider: seq<Token>, consumer: seq<Token>)
      modifies this`messagePatterns
      ensures messagePatterns == (provider, consumer)
    {
      messagePatterns := (provider, consumer);
    }

    function View(): Side
      reads this
    {
      Side(s, e, rs, re, if isPskUsed then Some(psk) else None, provider)
    }

    /** The case of one token in the loop. */
    method MixToken(t: Token, last: bool, ck: array<byte>, key: array<byte>, adHash: bytes) returns (adHash': bytes)
      requires SizesHold(suite) && ck.Length == key.Length == SYMMETRIC_KEY_SIZE && ck != key
      modifies ck, key
      ensures Progress(ck[..], adHash', key[..])
           == Step(suite, View(), t, last, old(Progress(ck[..], adHash, key[..])))
    {
      hide MixedKey, Secret, PlainKey, KeyGen1Value, KeyGen2Value;
      if !IsDh(t) {
        adHash' := adHash + PlainKey(suite, View(), t);
      } else {
        var mixed, secret := MixedKey(suite, View(), t), Secret(suite, View(), t);
        adHash' := adHash + mixed;
        KeyGen1(suite, ck, ck, mixed);
        if last {
          KeyGen2(suite, ck, key, ck, secret);
        } else {
          KeyGen1(suite, ck, ck, secret);
        }
      }
    }

    method AgreeSymmetricKey() returns (gcmKey: bytes, ad: bytes)
      requires SizesHold(suite)
      ensures (gcmKey, ad) == Agree(suite, View(), if provider then messagePatterns.0 else messagePatterns.1)
    {
      hide Step, KeyGen1Value;
      var ck := new byte[SYMMETRIC_KEY_SIZE](_ => 0);
      var key := new byte[SYMMETRIC_KEY_SIZE](_ => 0);
      assert ck[..] == Zeros(SYMMETRIC_KEY_SIZE) && key[..] == Zeros(SYMMETRIC_KEY_SIZE);
      var adHash: bytes := [];
      if isPskUsed {
        adHash := adHash + psk;
        assert adHash == psk;
        var salt := suite.hash(adHash);
        var saltArray := new byte[|salt|](i requires 0 <= i < |salt| => salt[i]);
        assert saltArray[..] == salt;
        KeyGen1(suite, ck, saltArray, psk);
      }
      ghost var side := View();
      var tokens := if provider then messagePatterns.0 else messagePatterns.1;
      ghost var whole := Run(suite, side, tokens, Start(suite, side.psk));
      assert Progress(ck[..], adHash, key[..]) == Start(suite, side.psk);
      var idx := 0;
      while idx < |tokens|
        invariant idx <= |tokens|
        invariant Run(suite, side, tokens[idx..], Progress(ck[..], adHash, key[..])) == whole
      {
        assert tokens[idx..][0] == tokens[idx] && tokens[idx..][1..] == tokens[idx + 1..];
        adHash := MixToken(tokens[idx], idx == |tokens| - 1, ck, key, adHash);
        idx := idx + 1;
      }
      gcmKey, ad := key[..], suite.hash(adHash);
    }
  }

  /** The data broker's side: it has no ephemeral key of its own. */
  method WrappingKey(suite: Suite, s: bytes, rs: bytes, re: bytes, psk: bytes) returns (key: bytes, ad: bytes)
    requires SizesHold(suite)
    ensures (key, ad) == Agree(suite, Side(s, [], rs, re, Some(psk), true), WrappingProvider)
  {
    hide Agree;
    var sa := new SymmetricAgreement(suite, true);
    sa.SetMessagePatterns(WrappingProvider, WrappingConsumer);
    sa.SetPsk(psk);
    sa.SetStaticKeyPair(s);
    sa.SetRemoteStaticPublicKey(rs);
    sa.SetRemoteEphemeralPublicKey(re);
    key, ad := sa.AgreeSymmetricKey();
  }

  /** The agent's side: it knows no ephemeral key of the provider's. */
  method UnwrappingKey(suite: Suite, s: bytes, e: bytes, rs: bytes, psk: bytes) returns (key: bytes, ad: bytes)
    requires SizesHold(suite)
    ensures (key, ad) == Agree(suite, Side(s, e, rs, [], Some(psk), false), WrappingConsumer)
  {
    hide Agree;
    var sa := new SymmetricAgreement(suite, false);
    sa.SetMessagePatterns(WrappingProvider, WrappingConsumer);
    sa.SetPsk(psk);
    sa.SetStaticKeyPair(s);
    sa.SetEphemeralKeyPair(e);
    sa.SetRemoteStaticPublicKey(rs);
    key, ad := sa.AgreeSymmetricKey();
  }

  /**
   The data broker wraps a data private key, and the agent unwraps it: with the keys that each of them has set,
   both end up with the same wrapping key and associated data.
   */
  method WrapAndUnwrap(suite: Suite, providerSk: bytes, consumerSk: bytes, consumerEphemeralSk: bytes, psk: bytes)
    returns (key: bytes, ad: bytes, key': bytes, ad': bytes)
    requires SizesHold(suite) && AgreementHolds(suite)
    ensures key == key' && ad == ad'
  {
    hide Agree;
    key, ad := WrappingKey(suite, providerSk, suite.pub(consumerSk), suite.pub(consumerEphemeralSk), psk);
    key', ad' := UnwrappingKey(suite, consumerSk, consumerEphemeralSk, suite.pub(providerSk), psk);
    WrappingPatternsAgree(suite, Side(providerSk, [], suite.pub(consumerSk), suite.pub(consumerEphemeralSk), Some(psk), true),
                          Side(consumerSk, consumerEphemeralSk, suite.pub(providerSk), [], Some(psk), false));
  }
}
