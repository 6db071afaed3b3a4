/** One hop's Noise transport: an ideal AEAD with an implicit counter for each direction. */
module Noise {
  import opened Bytes
  import opened Cells

  /** A handshake gives each hop two fresh keys, one per direction. */
  datatype Key = Key(hop: nat, toClient: bool)

  datatype Aead = Aead(
    seal: (Key, nat, seq<byte>) -> seq<byte>,
    open: (Key, nat, seq<byte>) -> Option<seq<byte>>)

  /** A tag of fixed length, opening undoes sealing, and opening only removes the tag. */
  ghost predicate Lawful(a: Aead) {
    && (forall k, n, p :: |a.seal(k, n, p)| == |p| + NOISE_TAG_LEN)
    && (forall k, n, p :: a.open(k, n, a.seal(k, n, p)) == Some(p))
    && (forall k, n, c :: a.open(k, n, c).Some? ==> |a.open(k, n, c).value| + NOISE_TAG_LEN == |c|)
  }

  ghost const PLAIN_SUITE: Aead := Aead(
    (k: Key, n: nat, p: seq<byte>) => p + Zeros(NOISE_TAG_LEN),
    (k: Key, n: nat, c: seq<byte>) =>
      if |c| < NOISE_TAG_LEN then None else Some(c[..|c| - NOISE_TAG_LEN]))

  lemma PlainSuiteIsLawful()
    ensures Lawful(PLAIN_SUITE)
  {
    forall k: Key, n: nat, p: seq<byte> ensures PLAIN_SUITE.open(k, n, PLAIN_SUITE.seal(k, n, p)) == Some(p) {
      assert (p + Zeros(NOISE_TAG_LEN))[..|p|] == p;
    }
  }

  type Suite = a: Aead | Lawful(a) ghost witness (PlainSuiteIsLawful(); PLAIN_SUITE)

  /** A tag that tells the first 255 counters apart, so a frame opens at its own counter and no other. */
  function Tag(n: nat): (t: seq<byte>)
    ensures |t| == NOISE_TAG_LEN
  {
    [if n < 255 then n else 255] + Zeros(NOISE_TAG_LEN - 1)
  }

  ghost const TAGGED_SUITE: Aead := Aead(
    (k: Key, n: nat, p: seq<byte>) => p + Tag(n),
    (k: Key, n: nat, c: seq<byte>) =>
      if |c| < NOISE_TAG_LEN || c[|c| - NOISE_TAG_LEN..] != Tag(n) then None else Some(c[..|c| - NOISE_TAG_LEN]))

  lemma TaggedSuiteIsLawful()
    ensures Lawful(TAGGED_SUITE)
  {
    forall k: Key, n: nat, p: seq<byte> ensures TAGGED_SUITE.open(k, n, TAGGED_SUITE.seal(k, n, p)) == Some(p) {
      assert (p + Tag(n))[..|p|] == p && (p + Tag(n))[|p|..] == Tag(n);
    }
  }

  lemma OpensAtItsOwnCounter(k: Key, n: nat, p: seq<byte>, m: nat)
    requires n < 255 && TAGGED_SUITE.open(k, m, TAGGED_SUITE.seal(k, n, p)).Some?
    ensures m == n
  {
    assert (p + Tag(n))[|p|..] == Tag(n);
    assert Tag(m)[0] == Tag(n)[0];
  }

  datatype NoiseError = TransportFailed | Length(got: nat, want: nat)

  class Transport {
    const suite: Suite
    const sendKey: Key
    const recvKey: Key
    var tx: nat
    var rx: nat

    constructor (suite: Suite, sendKey: Key, recvKey: Key)
      ensures this.suite == suite && this.sendKey == sendKey && this.recvKey == recvKey
      ensures tx == 0 && rx == 0
    {
      this.suite, this.sendKey, this.recvKey := suite, sendKey, recvKey;
      tx, rx := 0, 0;
    }

    /** Encrypt into a buffer of exactly the ciphertext's length; only then does the counter move. */
    method Encrypt(plaintext: seq<byte>, out: array<byte>) returns (r: Result<(), NoiseError>)
      modifies this`tx, out
      ensures r.Ok? <==> out.Length == |plaintext| + NOISE_TAG_LEN
      ensures r.Ok? ==> out[..] == suite.seal(sendKey, old(tx), plaintext) && tx == old(tx) + 1
      ensures r.Err? ==> out[..] == old(out[..]) && tx == old(tx)
    {
      var want := |plaintext| + NOISE_TAG_LEN;
      if out.Length != want {
        return Err(Length(out.Length, want));
      }
      var sealed := suite.seal(sendKey, tx, plaintext);
      forall i | 0 <= i < out.Length {
        out[i] := sealed[i];
      }
      tx := tx + 1;
      return Ok(());
    }

    /** The receive counter advances exactly when the ciphertext authenticates at that counter. */
    method Decrypt(ciphertext: seq<byte>, out: array<byte>) returns (r: Result<(), NoiseError>)
      modifies this`rx, out
      ensures r.Ok? <==> |ciphertext| == out.Length + NOISE_TAG_LEN
                         && suite.open(recvKey, old(rx), ciphertext).Some?
      ensures r.Ok? ==> Some(out[..]) == suite.open(recvKey, old(rx), ciphertext) && rx == old(rx) + 1
      ensures r.Err? ==> out[..] == old(out[..]) && rx == old(rx)
    {
      if |ciphertext| < NOISE_TAG_LEN {
        return Err(Length(|ciphertext|, NOISE_TAG_LEN));
      }
      var want := |ciphertext| - NOISE_TAG_LEN;
      if out.Length != want {
        return Err(Length(out.Length, want));
      }
      var plain := suite.open(recvKey, rx, ciphertext);
      if plain.None? {
        return Err(TransportFailed);
      }
      forall i | 0 <= i < out.Length {
        out[i] := plain.value[i];
      }
      rx := rx + 1;
      assert out[..] == plain.value;
      return Ok(());
    }
  }
}
