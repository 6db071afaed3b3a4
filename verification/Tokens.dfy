/** Access tokens on the wire: issuing through the authority, and the relay's two checks. */
module Tokens {
  import opened Arith
  import opened Bytes
  import opened NumberTheory
  import opened Blind

  // ---- Big-endian integers ----

  function FromBytes(s: seq<byte>): nat {
    if s == [] then 0 else FromBytes(s[..|s| - 1]) * 256 + s[|s| - 1] as int
  }

  /** The shortest big-endian spelling; zero is one zero byte. */
  function ToBytes(n: nat): (s: seq<byte>)
    ensures |s| >= 1
  {
    if n < 256 then [n] else ToBytes(n / 256) + [n % 256]
  }

  lemma {:induction false} FromInvertsTo(n: nat)
    ensures FromBytes(ToBytes(n)) == n
  {
    if n >= 256 {
      FromInvertsTo(n / 256);
      assert ToBytes(n)[..|ToBytes(n)| - 1] == ToBytes(n / 256);
    } else {
      assert ToBytes(n)[..0] == [];
    }
  }

  function Pow256(k: nat): nat {
    if k == 0 then 1 else 256 * Pow256(k - 1)
  }

  lemma {:induction false} FromBytesBound(s: seq<byte>)
    ensures FromBytes(s) < Pow256(|s|)
  {
    if s != [] {
      FromBytesBound(s[..|s| - 1]);
    }
  }

  lemma {:induction false} ToBytesShort(n: nat, k: nat)
    requires k >= 1
    ensures |ToBytes(n)| <= k <==> n < Pow256(k)
  {
    if n < 256 {
      Pow256Grows(k);
    } else if k == 1 {
      assert Pow256(1) == 256 * Pow256(0);
    } else {
      ToBytesShort(n / 256, k - 1);
    }
  }

  lemma {:induction false} Pow256Grows(k: nat)
    requires k >= 1
    ensures Pow256(k) >= 256
  {
    if k == 1 {
      assert Pow256(1) == 256 * Pow256(0);
    } else {
      Pow256Grows(k - 1);
    }
  }

  lemma {:induction false} LeadingZeros(k: nat, s: seq<byte>)
    ensures FromBytes(Zeros(k) + s) == FromBytes(s)
    decreases |s|, k
  {
    var z := Zeros(k) + s;
    if s != [] {
      assert z[..|z| - 1] == Zeros(k) + s[..|s| - 1];
      LeadingZeros(k, s[..|s| - 1]);
    } else if k > 0 {
      assert z[..|z| - 1] == Zeros(k - 1) + [];
      LeadingZeros(k - 1, []);
    }
  }

  /** Byte strings of one length are determined by the integer they spell. */
  lemma {:induction false} SameLengthSameBytes(s: seq<byte>, t: seq<byte>)
    requires |s| == |t| && FromBytes(s) == FromBytes(t)
    ensures s == t
  {
    if s != [] {
      var x, y := s[|s| - 1] as int, t[|t| - 1] as int;
      assert FromBytes(s[..|s| - 1]) * 256 + x == FromBytes(t[..|t| - 1]) * 256 + y;
      SameLengthSameBytes(s[..|s| - 1], t[..|t| - 1]);
      assert s == s[..|s| - 1] + [s[|s| - 1]];
      assert t == t[..|t| - 1] + [t[|t| - 1]];
    }
  }

  // ---- Modulus size ----

  function BitLen(n: nat): nat {
    if n == 0 then 0 else 1 + BitLen(n / 2)
  }

  function ModulusSize(n: nat): nat {
    (BitLen(n) + 7) / 8
  }

  lemma {:induction false} BitLenByte(n: nat)
    requires n >= 256
    ensures BitLen(n) == BitLen(n / 256) + 8
  {
    assert n / 2 / 2 / 2 / 2 / 2 / 2 / 2 / 2 == n / 256;
    assert BitLen(n) == 1 + BitLen(n / 2) && BitLen(n / 2) == 1 + BitLen(n / 2 / 2);
    assert BitLen(n / 2 / 2) == 1 + BitLen(n / 2 / 2 / 2) && BitLen(n / 2 / 2 / 2) == 1 + BitLen(n / 2 / 2 / 2 / 2);
    var m := n / 2 / 2 / 2 / 2;
    assert BitLen(m) == 1 + BitLen(m / 2) && BitLen(m / 2) == 1 + BitLen(m / 2 / 2);
    assert BitLen(m / 2 / 2) == 1 + BitLen(m / 2 / 2 / 2) && BitLen(m / 2 / 2 / 2) == 1 + BitLen(m / 2 / 2 / 2 / 2);
  }

  lemma BitLenSmall(n: nat)
    requires 1 <= n < 256
    ensures 1 <= BitLen(n) <= 8
  {
    var a := n / 2;
    var b := a / 2;
    var c := b / 2;
    var d := c / 2;
    var e := d / 2;
    var f := e / 2;
    var g := f / 2;
    assert g <= 1;
    assert BitLen(g) <= 1 && BitLen(f) <= 2 && BitLen(e) <= 3 && BitLen(d) <= 4;
    assert BitLen(c) <= 5 && BitLen(b) <= 6 && BitLen(a) <= 7;
  }

  /** The size computed from the bit length is the number of bytes the modulus takes. */
  lemma {:induction false} ModulusSizeIsByteLength(n: nat)
    requires n >= 1
    ensures ModulusSize(n) == |ToBytes(n)|
  {
    if n < 256 {
      BitLenSmall(n);
    } else {
      ModulusSizeIsByteLength(n / 256);
      BitLenByte(n);
    }
  }

  /** Every residue fits the modulus size. */
  lemma ResidueFits(x: nat, n: nat)
    requires x < n
    ensures |ToBytes(x)| <= ModulusSize(n)
  {
    ModulusSizeIsByteLength(n);
    ToBytesShort(n, ModulusSize(n));
    ToBytesShort(x, ModulusSize(n));
  }

  // ---- Hex ----

  function Nibble(v: nat): byte
    requires v < 16
  {
    if v < 10 then 48 + v else 97 + v - 10
  }

  function HexNibble(c: byte): Option<nat> {
    if 48 <= c <= 57 then Some(c - 48)
    else if 97 <= c <= 102 then Some(c - 97 + 10)
    else if 65 <= c <= 70 then Some(c - 65 + 10)
    else None
  }

  function HexOf(s: seq<byte>): seq<byte> {
    if s == [] then [] else HexOf(s[..|s| - 1]) + [Nibble(s[|s| - 1] / 16), Nibble(s[|s| - 1] % 16)]
  }

  method HexLower(bytes: seq<byte>) returns (s: seq<byte>)
    ensures s == HexOf(bytes)
  {
    s := [];
    for i := 0 to |bytes|
      invariant s == HexOf(bytes[..i])
    {
      assert bytes[..i + 1][..i] == bytes[..i];
      s := s + [Nibble(bytes[i] / 16)];
      s := s + [Nibble(bytes[i] % 16)];
    }
    assert bytes[..|bytes|] == bytes;
  }

  /** What a hex string spells, if every pair is two hex digits of either case. */
  function HexValue(s: seq<byte>): (r: Option<seq<byte>>)
    ensures r.Some? ==> |s| == 2 * |r.value|
  {
    if s == [] then Some([])
    else if |s| == 1 then None
    else
      match (HexValue(s[..|s| - 2]), HexNibble(s[|s| - 2]), HexNibble(s[|s| - 1]))
      case (Some(init), Some(hi), Some(lo)) => Some(init + [hi * 16 + lo])
      case _ => None
  }

  lemma {:induction false} HexValuePrefix(s: seq<byte>, k: nat)
    requires 2 * k <= |s| && |s| % 2 == 0 && HexValue(s[..2 * k]).None?
    ensures HexValue(s).None?
    decreases |s|
  {
    if 2 * k < |s| {
      assert s[..|s| - 2][..2 * k] == s[..2 * k];
      HexValuePrefix(s[..|s| - 2], k);
    } else {
      assert s[..2 * k] == s;
    }
  }

  method HexDecode(s: seq<byte>) returns (r: Option<seq<byte>>)
    ensures r == HexValue(s)
  {
    if |s| % 2 != 0 {
      OddHex(s);
      return None;
    }
    var out: seq<byte> := [];
    var i := 0;
    while i < |s|
      invariant 0 <= i <= |s| && i % 2 == 0
      invariant HexValue(s[..i]) == Some(out)
    {
      assert s[..i + 2][..i] == s[..i];
      var hi, lo := HexNibble(s[i]), HexNibble(s[i + 1]);
      if hi.None? || lo.None? {
        HexValuePrefix(s, i / 2 + 1);
        return None;
      }
      out := out + [hi.value * 16 + lo.value];
      i := i + 2;
    }
    assert s[..i] == s;
    return Some(out);
  }

  lemma OddHex(s: seq<byte>)
    requires |s| % 2 != 0
    ensures HexValue(s).None?
  {
  }

  lemma NibbleRoundTrip(x: byte)
    ensures HexNibble(Nibble(x / 16)) == Some(x / 16) && HexNibble(Nibble(x % 16)) == Some(x % 16)
    ensures x / 16 * 16 + x % 16 == x
  {
  }

  lemma HexOfNothing()
    ensures HexValue(HexOf([])) == Some([])
  {
  }

  lemma HexValueSnoc(t: seq<byte>, a: byte, b: byte)
    requires HexValue(t).Some? && HexNibble(a).Some? && HexNibble(b).Some?
    ensures HexValue(t + [a, b]) == Some(HexValue(t).value + [HexNibble(a).value * 16 + HexNibble(b).value])
  {
    hide HexNibble;
    assert (t + [a, b])[..|t|] == t;
  }

  lemma {:induction false} HexRoundTrip(s: seq<byte>)
    ensures HexValue(HexOf(s)) == Some(s)
  {
    hide Nibble, HexNibble, HexValue;
    if s == [] {
      assert HexValue(HexOf([])) == Some([]) by { HexOfNothing(); }
    } else {
      var init, x := s[..|s| - 1], s[|s| - 1];
      NibbleRoundTrip(x);
      HexRoundTrip(init);
      HexValueSnoc(HexOf(init), Nibble(x / 16), Nibble(x % 16));
      assert s == init + [x];
    }
  }

  // ---- Issuing ----

  datatype SignError = InvalidBlindedValue

  /** The authority's primitive: a non-empty integer in [1, n), raised to d, at the modulus size. */
  function Sign(key: RsaKey, blinded: seq<byte>): (r: Result<seq<byte>, SignError>)
    requires key.N() > 0
    ensures r.Ok? ==> |r.value| == ModulusSize(key.N())
    ensures r.Ok? <==> blinded != [] && 0 < FromBytes(blinded) < key.N()
    ensures r.Ok? ==> FromBytes(r.value) == ModPow(FromBytes(blinded), key.d, key.N())
  {
    var b := FromBytes(blinded);
    if blinded == [] || b == 0 || b >= key.N() then Err(InvalidBlindedValue)
    else
      var sig := ModPow(b, key.d, key.N());
      ResidueFits(sig, key.N());
      LeadingZeros(ModulusSize(key.N()) - |ToBytes(sig)|, ToBytes(sig));
      FromInvertsTo(sig);
      Ok(Zeros(ModulusSize(key.N()) - |ToBytes(sig)|) + ToBytes(sig))
  }

  /** The handler around it: hex in, hex out, input capped at the modulus size. */
  function IssueReply(key: RsaKey, request: seq<byte>): Option<seq<byte>>
    requires key.N() > 0
  {
    match HexValue(request)
    case None => None
    case Some(blinded) =>
      if blinded == [] || |blinded| > ModulusSize(key.N()) then None
      else match Sign(key, blinded)
        case Err(_) => None
        case Ok(signed) => Some(HexOf(signed))
  }

  method TokenToWire(token: nat, modulusBytes: nat) returns (out: seq<byte>)
    ensures out == Padded(token, modulusBytes)
  {
    var raw := ToBytes(token);
    if |raw| >= modulusBytes {
      return raw;
    }
    var buf := new byte[modulusBytes - |raw|](_ => 0);
    assert buf[..] == Zeros(modulusBytes - |raw|);
    return buf[..] + raw;
  }

  /** Left-padded to the size, or longer if the number does not fit it. */
  function Padded(token: nat, size: nat): seq<byte> {
    var raw := ToBytes(token);
    if |raw| >= size then raw else Zeros(size - |raw|) + raw
  }

  lemma PaddedResidue(x: nat, n: nat)
    requires x < n
    ensures |Padded(x, ModulusSize(n))| == ModulusSize(n)
    ensures FromBytes(Padded(x, ModulusSize(n))) == x
  {
    ResidueFits(x, n);
    FromInvertsTo(x);
    LeadingZeros(ModulusSize(n) - |ToBytes(x)|, ToBytes(x));
  }

  // ---- The relay's signature stage ----

  datatype TokenError = TokenTooShort | InvalidSignature | Replayed

  /** The message hash is compared as it is; only the token is required to be a residue. */
  function SignatureStage(hash: seq<byte>, token: seq<byte>, e: nat, n: nat): (r: Result<(), TokenError>)
    requires n > 0
  {
    if |token| < ModulusSize(n) then Err(TokenTooShort)
    else if FromBytes(token) >= n then Err(InvalidSignature)
    else if ModPow(FromBytes(token), e, n) != FromBytes(hash) then Err(InvalidSignature)
    else Ok(())
  }

  /** A unit factor blinds only zero to zero. */
  lemma ZeroBlinded(key: RsaKey, m: nat, r: nat)
    requires ValidKey(key) && key.N() > 1 && m < key.N() && AcceptedFactor(r, key.N())
    ensures Blinded(m, r, key.e, key.N()) == 0 ==> m == 0
  {
    hide ModPow, Blinded;
    var n := key.N();
    if Blinded(m, r, key.e, n) == 0 {
      UnblindedIsSignature(key, m, r);
      ZeroPower(key.d, n);
      ZeroPower(key.e, n);
      DivModUnique(0 * ModInverse(r, n).value, 0, 0, n);
    }
  }

  lemma ZeroPower(e: nat, n: nat)
    requires n > 1
    ensures e >= 1 ==> ModPow(0, e, n) == 0
  {
    if e >= 1 {
      assert Pow(0, e) == 0 * Pow(0, e - 1);
      DivModUnique(0, 0, 0, n);
    }
  }

  // ---- The whole pipeline ----

  /** What the client makes of the authority's answer: the token at the modulus size. */
  function Redeem(q: BlindedRequest, e: nat, n: nat, reply: seq<byte>): Option<seq<byte>>
    requires n > 0
  {
    match HexValue(reply)
    case None => None
    case Some(signed) =>
      match UnblindAndVerify(q, e, n, FromBytes(signed))
      case Err(_) => None
      case Ok(token) => Some(Padded(token, ModulusSize(n)))
  }

  /** The signature on a message hash, at the modulus size: what every issue ends with. */
  function TokenFor(key: RsaKey, m: nat): seq<byte>
    requires key.N() > 0
  {
    Padded(ModPow(m, key.d, key.N()), ModulusSize(key.N()))
  }

  /** The authority answers a client's blinded message with its signature. */
  lemma AuthoritySigns(key: RsaKey, m: nat, r: nat)
    requires ValidKey(key) && key.N() > 1 && 0 < m < key.N() && AcceptedFactor(r, key.N())
    ensures var b := Blinded(m, r, key.e, key.N());
            var reply := IssueReply(key, HexOf(ToBytes(b)));
            && reply.Some? && HexValue(reply.value).Some?
            && FromBytes(HexValue(reply.value).value) == ModPow(b, key.d, key.N())
  {
    hide ModPow, Blinded, ValidKey, HexValue, HexOf, FromBytes, ToBytes;
    var n := key.N();
    var b := Blinded(m, r, key.e, n);
    ZeroBlinded(key, m, r);
    HexRoundTrip(ToBytes(b));
    FromInvertsTo(b);
    ResidueFits(b, n);
    var sig := ModPow(b, key.d, n);
    ResidueFits(sig, n);
    FromInvertsTo(sig);
    LeadingZeros(ModulusSize(n) - |ToBytes(sig)|, ToBytes(sig));
    HexRoundTrip(Zeros(ModulusSize(n) - |ToBytes(sig)|) + ToBytes(sig));
  }

  /**
   Blind, hex, sign, hex, unblind, pad: for every hash that is not a multiple of the modulus and
   every factor the loop can choose, the client ends with the same token, exactly the modulus size.
   The client reduces the hash and the relay does not, so the relay's signature stage accepts the
   token exactly when the hash is below the modulus, as it is for every modulus of over 256 bits.
   */
  lemma IssuedTokenIsAccepted(key: RsaKey, hash: seq<byte>, r: nat)
    requires ValidKey(key) && key.N() > 1 && |hash| == 32 && FromBytes(hash) % key.N() != 0
    requires AcceptedFactor(r, key.N())
    ensures var n, m := key.N(), FromBytes(hash) % key.N();
            var q := BlindedRequest(Blinded(m, r, key.e, n), ModInverse(r, n).value, m);
            var reply := IssueReply(key, HexOf(ToBytes(q.blinded)));
            && reply.Some? && Redeem(q, key.e, n, reply.value) == Some(TokenFor(key, m))
            && |TokenFor(key, m)| == ModulusSize(n)
            && (SignatureStage(hash, TokenFor(key, m), key.e, n).Ok? <==> FromBytes(hash) < n)
    ensures key.N() > Pow256(32) ==> FromBytes(hash) < key.N()
  {
    hide ModPow, Blinded, ValidKey, HexValue, HexOf, FromBytes, ToBytes, IssueReply, Padded, Pow256;
    var n, m := key.N(), FromBytes(hash) % key.N();
    FromBytesBound(hash);
    AuthoritySigns(key, m, r);
    UnblindedIsSignature(key, m, r);
    PaddedResidue(ModPow(m, key.d, n), n);
    ModPowInverse(key, m);
    if FromBytes(hash) < n {
      DivModUnique(FromBytes(hash), 0, FromBytes(hash), n);
    }
  }

  const SMALL_KEY := RsaKey(3, 11, 3, 7)

  lemma SmallPrimes()
    ensures IsPrime(3) && IsPrime(11)
  {
    forall d: nat | Divides(d, 3) ensures d == 1 || d == 3 {
      var k :| 3 == k * d;
      Factor(3, k, d);
    }
    forall d: nat | Divides(d, 11) ensures d == 1 || d == 11 {
      var k :| 11 == k * d;
      Factor(11, k, d);
      if d == 2 {} else if d == 3 {} else if d == 4 {} else if d == 5 {} else if d == 6 {}
      else if d == 7 {} else if d == 8 {} else if d == 9 {} else if d == 10 {}
    }
  }

  lemma Factor(p: nat, k: int, d: nat)
    requires p == k * d && p > 0
    ensures 1 <= d <= p
  {
    assert k >= 1 ==> k * d >= d;
    assert k <= 0 ==> k * d <= 0;
  }

  /**
   With the modulus 33 and a hash of value 34 the client obtains a token that the relay refuses: the
   client reduces the hash, the relay compares it as it is.
   */
  lemma SmallModulusRefused()
    ensures ValidKey(SMALL_KEY) && AcceptedFactor(2, SMALL_KEY.N())
    ensures var hash, n := Zeros(31) + [34], SMALL_KEY.N();
            var q := BlindedRequest(Blinded(1, 2, SMALL_KEY.e, n), ModInverse(2, n).value, 1);
            var reply := IssueReply(SMALL_KEY, HexOf(ToBytes(q.blinded)));
            && |hash| == 32 && FromBytes(hash) == 34 && FromBytes(hash) % n == 1
            && reply.Some? && Redeem(q, SMALL_KEY.e, n, reply.value) == Some(TokenFor(SMALL_KEY, 1))
            && SignatureStage(hash, TokenFor(SMALL_KEY, 1), SMALL_KEY.e, n).Err?
  {
    hide ModPow, Blinded, HexValue, HexOf, ToBytes, IssueReply, Padded, Redeem, SignatureStage;
    SmallPrimes();
    CongBy(21, 1, 2, 10);
    CongBy(21, 1, 10, 2);
    assert AcceptedFactor(2, 33) by {
      CongBy(2 * 17, 1, 33, 1);
      AcceptedIsUnitAboveOne(2, 33);
    }
    var hash := Zeros(31) + [34];
    LeadingZeros(31, [34]);
    assert [34][..0] == [] && FromBytes([34]) == 34;
    IssuedTokenIsAccepted(SMALL_KEY, hash, 2);
  }

  /** Whatever a reply says, a client that takes a token from it has the message's own token. */
  lemma RedeemedIsTheToken(key: RsaKey, m: nat, r: nat, reply: seq<byte>)
    requires ValidKey(key) && key.N() > 1 && m < key.N() && AcceptedFactor(r, key.N())
    ensures var n := key.N();
            var q := BlindedRequest(Blinded(m, r, key.e, n), ModInverse(r, n).value, m);
            Redeem(q, key.e, n, reply).Some? ==> Redeem(q, key.e, n, reply) == Some(TokenFor(key, m))
  {
    hide ModPow, Blinded, ValidKey, HexValue, FromBytes, UnblindAndVerify, AcceptedFactor, ModInverse;
    if HexValue(reply).Some? {
      OneAnswerIsAccepted(key, m, r, FromBytes(HexValue(reply).value));
    }
  }

  /** Which requests the authority answers, and with what. */
  lemma IssueReplyIff(key: RsaKey, request: seq<byte>)
    requires key.N() > 0
    ensures IssueReply(key, request).Some? <==>
              && HexValue(request).Some? && |HexValue(request).value| <= ModulusSize(key.N())
              && 0 < FromBytes(HexValue(request).value) < key.N()
    ensures IssueReply(key, request).Some? ==>
              && HexValue(IssueReply(key, request).value).Some?
              && FromBytes(HexValue(IssueReply(key, request).value).value)
                 == Pow(FromBytes(HexValue(request).value), key.d) % key.N()
  {
    hide HexValue, HexOf;
    if IssueReply(key, request).Some? {
      HexRoundTrip(Sign(key, HexValue(request).value).value);
    }
  }

  /**
   For a valid key the signature stage accepts exactly the zero-padded spellings of one number, the
   message's own token, and only if the hash is below the modulus.
   */
  lemma AcceptedTokensExactly(key: RsaKey, hash: seq<byte>, token: seq<byte>)
    requires ValidKey(key) && key.N() > 1
    ensures SignatureStage(hash, token, key.e, key.N()).Ok? <==>
              FromBytes(hash) < key.N() && exists k: nat :: token == Zeros(k) + TokenFor(key, FromBytes(hash))
  {
    hide ModPow, FromBytes, ValidKey, Padded;
    var n, m := key.N(), FromBytes(hash);
    if m < n {
      var sig := ModPow(m, key.d, n);
      PaddedResidue(sig, n);
      ModPowInverse(key, m);
      if SignatureStage(hash, token, key.e, n).Ok? {
        ModPowInverse(key, FromBytes(token));
        var k := |token| - ModulusSize(n);
        LeadingZeros(k, TokenFor(key, m));
        SameLengthSameBytes(token, Zeros(k) + TokenFor(key, m));
      }
      if k: nat :| token == Zeros(k) + TokenFor(key, m) {
        LeadingZeros(k, TokenFor(key, m));
      }
    }
  }

  /** The signature stage accepts, among strings of one length, exactly one token per message. */
  lemma OneTokenPerMessage(key: RsaKey, hash: seq<byte>, s: seq<byte>, t: seq<byte>)
    requires ValidKey(key) && key.N() > 0
    requires SignatureStage(hash, s, key.e, key.N()).Ok? && SignatureStage(hash, t, key.e, key.N()).Ok?
    ensures s == t <==> |s| == |t|
  {
    hide ModPow, FromBytes;
    ModPowInverse(key, FromBytes(s));
    ModPowInverse(key, FromBytes(t));
    if |s| == |t| {
      SameLengthSameBytes(s, t);
    }
  }

  /** A leading zero byte gives a different string that passes as well. */
  lemma LongerSpellingPasses(hash: seq<byte>, token: seq<byte>, e: nat, n: nat)
    requires n > 0 && SignatureStage(hash, token, e, n).Ok?
    ensures SignatureStage(hash, [0] + token, e, n).Ok? && [0] + token != token
  {
    assert Zeros(1) == [0];
    LeadingZeros(1, token);
  }
}
