/** Chaum blind signatures over textbook RSA: the client's two halves and the authority's one. */
module Blind {
  import opened Arith
  import opened Bytes
  import opened NumberTheory

  function ModPow(b: nat, e: nat, n: nat): (r: nat)
    requires n > 0
    ensures r < n
  {
    Pow(b, e) % n
  }

  lemma ModPowCong(b: nat, e: nat, n: nat)
    requires n > 0
    ensures Cong(ModPow(b, e, n), Pow(b, e), n)
  {
    CongReduce(Pow(b, e), n);
  }

  /** Two residues that are congruent are equal. */
  lemma ResiduesEqual(a: nat, b: nat, n: nat)
    requires a < n && b < n && Cong(a, b, n)
    ensures a == b
  {
    CongMod(a, b, n);
    DivModUnique(a, 0, a, n);
    DivModUnique(b, 0, b, n);
  }

  // ---- Inverses ----

  ghost predicate IsUnit(x: int, n: int) {
    exists v: int :: Cong(x * v, 1, n)
  }

  /** The inverse in [0, n), when there is one. */
  function ModInverse(r: nat, n: nat): (v: Option<nat>)
    requires n > 1
    ensures v.Some? <==> IsUnit(r, n)
    ensures v.Some? ==> v.value < n && Cong(r * v.value, 1, n)
  {
    var (g, x, y) := ExtGcd(r, n);
    InverseFacts(r, n, g, x, y);
    if g == 1 then Some(x % n) else None
  }

  lemma InverseFacts(r: nat, n: nat, g: nat, x: int, y: int)
    requires n > 1 && g == x * r + y * n && Divides(g, r) && Divides(g, n)
    ensures g == 1 <==> IsUnit(r, n)
    ensures g == 1 ==> Cong(r * (x % n), 1, n)
  {
    if g == 1 {
      CongBy(r * x, 1, n, -y);
      CongReduce(x, n);
      CongRefl(r, n);
      CongMul(r, r, x % n, x, n);
      CongTrans(r * (x % n), r * x, 1, n);
      assert IsUnit(r, n);
    }
    if IsUnit(r, n) {
      var v :| Cong(r * v, 1, n);
      var k :| r * v - 1 == k * n;
      var a :| r == a * g;
      var b :| n == b * g;
      assert (a * g) * v - k * (b * g) == (a * v - k * b) * g;
      if g != 1 {
        NoProductIsOne(g, a * v - k * b);
      }
    }
  }

  lemma NoProductIsOne(g: nat, w: int)
    requires g != 1
    ensures w * g != 1
  {
    if w >= 1 {
      assert w * g >= g;
    } else {
      assert w * g <= 0;
    }
  }

  lemma UnitCong(x: int, y: int, n: int)
    requires IsUnit(x, n) && Cong(x, y, n)
    ensures IsUnit(y, n)
  {
    var u :| Cong(x * u, 1, n);
    CongSym(x, y, n);
    CongRefl(u, n);
    CongMul(y, x, u, u, n);
    CongTrans(y * u, x * u, 1, n);
  }

  lemma UnitFactor(x: int, y: int, n: int)
    requires IsUnit(x * y, n)
    ensures IsUnit(x, n)
  {
    var u :| Cong((x * y) * u, 1, n);
    assert (x * y) * u == x * (y * u);
    assert Cong(x * (y * u), 1, n);
  }

  /** A unit factor can be cancelled. */
  lemma Cancel(m: int, x: int, y: int, n: int)
    requires IsUnit(m, n) && Cong(m * x, m * y, n)
    ensures Cong(x, y, n)
  {
    var u :| Cong(m * u, 1, n);
    CongRefl(u, n);
    CongMul(u, u, m * x, m * y, n);
    CongRefl(x, n);
    CongMul(m * u, 1, x, x, n);
    CongRefl(y, n);
    CongMul(m * u, 1, y, y, n);
    assert u * (m * x) == (m * u) * x && u * (m * y) == (m * u) * y;
    CongSym((m * u) * x, 1 * x, n);
    CongTrans(x, (m * u) * x, (m * u) * y, n);
    CongTrans(x, (m * u) * y, y, n);
  }

  // ---- The three operations ----

  /** The message blinded with the factor `r`. */
  function Blinded(m: nat, r: nat, e: nat, n: nat): (b: nat)
    requires n > 0
    ensures b < n
  {
    (m * ModPow(r, e, n)) % n
  }

  /** The factors the client's rejection loop can settle on. */
  predicate AcceptedFactor(r: nat, n: nat)
    requires n > 1
  {
    2 <= r < n && ModInverse(r, n).Some? && ModInverse(r, n).value != 1
  }

  datatype BlindedRequest = BlindedRequest(blinded: nat, rInv: nat, m: nat)

  /** Draw until a factor is accepted; `None` stands for a generator that never gives one. */
  method BlindMessage(n: nat, e: nat, hash: nat, draws: seq<nat>) returns (q: Option<BlindedRequest>, ghost r: nat)
    requires n > 1 && forall i :: 0 <= i < |draws| ==> draws[i] < n
    ensures q.Some? <==> exists i :: 0 <= i < |draws| && AcceptedFactor(draws[i], n)
    ensures q.Some? ==> r in draws && AcceptedFactor(r, n)
    ensures q.Some? ==> q.value == BlindedRequest(Blinded(hash % n, r, e, n), ModInverse(r, n).value, hash % n)
  {
    var m := hash % n;
    r := 0;
    var i := 0;
    while i < |draws|
      invariant 0 <= i <= |draws|
      invariant forall j :: 0 <= j < i ==> !AcceptedFactor(draws[j], n)
    {
      var draw := draws[i];
      i := i + 1;
      if draw < 2 {
        continue;
      }
      var inv := ModInverse(draw, n);
      if inv.None? {
        continue;
      }
      if inv.value == 1 {
        continue;
      }
      r := draw;
      assert draws[i - 1] == draw;
      return Some(BlindedRequest((m * ModPow(draw, e, n)) % n, inv.value, m)), r;
    }
    return None, r;
  }

  datatype BlindError = BlindOversized | BlindVerifyFailed

  function UnblindAndVerify(q: BlindedRequest, e: nat, n: nat, s: nat): Result<nat, BlindError>
    requires n > 0
  {
    if s >= n then Err(BlindOversized)
    else
      var token := (s * q.rInv) % n;
      if ModPow(token, e, n) != q.m then Err(BlindVerifyFailed) else Ok(token)
  }

  // ---- What they achieve together ----

  /** On residues, raising to e and to d undo each other. */
  lemma ModPowInverse(key: RsaKey, x: nat)
    requires ValidKey(key) && x < key.N()
    ensures ModPow(ModPow(x, key.e, key.N()), key.d, key.N()) == x
    ensures ModPow(ModPow(x, key.d, key.N()), key.e, key.N()) == x
  {
    PowerUndone(key, x, key.e, key.d);
    PowerUndone(key, x, key.d, key.e);
  }

  lemma PowerUndone(key: RsaKey, x: nat, a: nat, b: nat)
    requires ValidKey(key) && x < key.N() && a * b == key.e * key.d
    ensures ModPow(ModPow(x, a, key.N()), b, key.N()) == x
  {
    var n := key.N();
    var y := ModPow(x, a, n);
    ModPowCong(x, a, n);
    CongPow(y, Pow(x, a), b, n);
    PowMul(x, a, b);
    ExponentsCancel(key, x);
    CongTrans(Pow(y, b), Pow(x, a * b), x, n);
    ModPowCong(y, b, n);
    CongTrans(ModPow(y, b, n), Pow(y, b), x, n);
    ResiduesEqual(ModPow(y, b, n), x, n);
  }

  /** Signing a blinded message signs the message and scales the signature by the factor. */
  lemma SignedBlinded(key: RsaKey, m: nat, r: nat)
    requires ValidKey(key) && m < key.N() && r < key.N()
    ensures var n := key.N();
            Cong(ModPow(Blinded(m, r, key.e, n), key.d, n), ModPow(m, key.d, n) * r, n)
  {
    var n, e, d := key.N(), key.e, key.d;
    var w := ModPow(r, e, n);
    var b := Blinded(m, r, e, n);
    ModPowCong(b, d, n);
    CongReduce(m * w, n);
    CongPow(b, m * w, d, n);
    PowOfProduct(m, w, d);
    CongTrans(ModPow(b, d, n), Pow(b, d), Pow(m, d) * Pow(w, d), n);
    ModPowInverse(key, r);
    CongSym(ModPow(w, d, n), Pow(w, d), n) by { ModPowCong(w, d, n); }
    CongSym(ModPow(m, d, n), Pow(m, d), n) by { ModPowCong(m, d, n); }
    CongMul(Pow(m, d), ModPow(m, d, n), Pow(w, d), r, n);
    CongTrans(ModPow(b, d, n), Pow(m, d) * Pow(w, d), ModPow(m, d, n) * r, n);
  }

  lemma Unscale(s: nat, sig: nat, r: nat, inv: nat, n: nat)
    requires 0 < n && sig < n && Cong(s, sig * r, n) && Cong(r * inv, 1, n)
    ensures (s * inv) % n == sig
  {
    hide Cong;
    CongRefl(inv, n);
    CongMul(s, sig * r, inv, inv, n);
    CongRefl(sig, n);
    CongMul(sig, sig, r * inv, 1, n);
    assert (sig * r) * inv == sig * (r * inv);
    CongTrans(s * inv, sig * (r * inv), sig * 1, n);
    CongReduce(s * inv, n);
    CongTrans((s * inv) % n, s * inv, sig, n);
    ResiduesEqual((s * inv) % n, sig, n);
  }

  /** Whatever factor was drawn, the client ends up with the same verified signature m^d mod n. */
  lemma UnblindedIsSignature(key: RsaKey, m: nat, r: nat)
    requires ValidKey(key) && key.N() > 1 && m < key.N() && AcceptedFactor(r, key.N())
    ensures var n := key.N();
            var q := BlindedRequest(Blinded(m, r, key.e, n), ModInverse(r, n).value, m);
            UnblindAndVerify(q, key.e, n, ModPow(q.blinded, key.d, n)) == Ok(ModPow(m, key.d, n))
  {
    hide Cong, ModPow, Blinded, ValidKey, ModInverse;
    var n := key.N();
    var inv := ModInverse(r, n).value;
    var s := ModPow(Blinded(m, r, key.e, n), key.d, n);
    SignedBlinded(key, m, r);
    Unscale(s, ModPow(m, key.d, n), r, inv, n);
    ModPowInverse(key, m);
  }

  /** Whatever the authority answers, the client keeps only a residue whose e-th power is the message. */
  lemma UnblindedIsVerified(q: BlindedRequest, e: nat, n: nat, s: nat)
    requires n > 0
    ensures var r := UnblindAndVerify(q, e, n, s);
            r.Ok? ==> s < n && r.value < n && Pow(r.value, e) % n == q.m
  {
  }

  /** Exactly one answer is accepted, and it leads to the message's own signature. */
  lemma OneAnswerIsAccepted(key: RsaKey, m: nat, r: nat, s: nat)
    requires ValidKey(key) && key.N() > 1 && m < key.N() && AcceptedFactor(r, key.N())
    ensures var n := key.N();
            var q := BlindedRequest(Blinded(m, r, key.e, n), ModInverse(r, n).value, m);
            && (UnblindAndVerify(q, key.e, n, s).Ok? <==> s == ModPow(q.blinded, key.d, n))
            && (UnblindAndVerify(q, key.e, n, s).Ok? ==>
                  UnblindAndVerify(q, key.e, n, s).value == ModPow(m, key.d, n))
  {
    hide Cong, ModPow, Blinded, ValidKey, ModInverse, IsUnit;
    var n, inv := key.N(), ModInverse(r, key.N()).value;
    var q := BlindedRequest(Blinded(m, r, key.e, n), inv, m);
    UnblindedIsSignature(key, m, r);
    if UnblindAndVerify(q, key.e, n, s).Ok? {
      var t, s0 := (s * inv) % n, ModPow(q.blinded, key.d, n);
      ModPowInverse(key, t);
      assert t == ModPow(m, key.d, n) == (s0 * inv) % n;
      SameUnscaled(s, s0, r, inv, n);
    }
  }

  lemma SameUnscaled(s: nat, t: nat, r: nat, inv: nat, n: nat)
    requires n > 1 && s < n && t < n && Cong(r * inv, 1, n) && (s * inv) % n == (t * inv) % n
    ensures s == t
  {
    hide Cong;
    CongReduce(s * inv, n);
    CongReduce(t * inv, n);
    CongSym((s * inv) % n, s * inv, n);
    CongTrans(s * inv, (t * inv) % n, t * inv, n);
    assert inv * s == s * inv && inv * t == t * inv && inv * r == r * inv;
    assert IsUnit(inv, n);
    Cancel(inv, s, t, n);
    ResiduesEqual(s, t, n);
  }

  // ---- Perfect blinding ----

  lemma AcceptedIsUnitAboveOne(r: nat, n: nat)
    requires n > 1
    ensures AcceptedFactor(r, n) <==> 2 <= r < n && IsUnit(r, n)
  {
    if 2 <= r < n && IsUnit(r, n) && ModInverse(r, n).value == 1 {
      ResiduesEqual(r, 1, n);
    }
  }

  /** Blinding is injective in the factor, and only the factor 1 leaves a unit message as it is. */
  lemma BlindingIsInjective(key: RsaKey, m: nat, r: nat, s: nat)
    requires ValidKey(key) && key.N() > 1 && IsUnit(m, key.N()) && r < key.N() && s < key.N()
    requires Blinded(m, r, key.e, key.N()) == Blinded(m, s, key.e, key.N())
    ensures r == s
  {
    var n, e := key.N(), key.e;
    var x, y := ModPow(r, e, n), ModPow(s, e, n);
    CongMod(m * x, m * y, n);
    Cancel(m, x, y, n);
    ResiduesEqual(x, y, n);
    ModPowInverse(key, r);
    ModPowInverse(key, s);
  }

  lemma FactorOne(key: RsaKey, m: nat)
    requires ValidKey(key) && key.N() > 1 && m < key.N()
    ensures Blinded(m, 1, key.e, key.N()) == m
  {
    PowOne(key.e);
    DivModUnique(1, 0, 1, key.N());
    DivModUnique(m, 0, m, key.N());
  }

  lemma RatioTimes(m: nat, b: nat, u: nat, n: nat)
    requires n > 1 && b < n && Cong(m * u, 1, n)
    ensures Cong(m * ((b * u) % n), b, n) && (m * ((b * u) % n)) % n == b
  {
    hide Cong;
    var ratio := (b * u) % n;
    CongReduce(b * u, n);
    CongRefl(m, n);
    CongMul(m, m, ratio, b * u, n);
    CongRefl(b, n);
    CongMul(b, b, m * u, 1, n);
    assert m * (b * u) == b * (m * u);
    CongTrans(m * ratio, b * (m * u), b * 1, n);
    CongMod(m * ratio, b, n);
    DivModUnique(b, 0, b, n);
  }

  lemma RootOfUnit(r: nat, e: nat, n: nat)
    requires n > 1 && e >= 1 && IsUnit(ModPow(r, e, n), n)
    ensures IsUnit(r, n)
  {
    hide Cong, ModPow;
    ModPowCong(r, e, n);
    UnitCong(ModPow(r, e, n), Pow(r, e), n);
    UnitFactor(r, Pow(r, e - 1), n);
  }

  /** The factor that takes one unit to another, in closed form. */
  lemma FactorExists(key: RsaKey, m: nat, b: nat) returns (r: nat)
    requires ValidKey(key) && key.N() > 1 && m < key.N() && b < key.N()
    requires IsUnit(m, key.N()) && IsUnit(b, key.N())
    ensures r < key.N() && IsUnit(r, key.N()) && Blinded(m, r, key.e, key.N()) == b
  {
    hide Cong, ModPow, ModInverse, IsUnit;
    var n, e := key.N(), key.e;
    var u := ModInverse(m, n).value;
    var ratio := (b * u) % n;
    r := ModPow(ratio, key.d, n);
    ModPowInverse(key, ratio);
    RatioTimes(m, b, u, n);
    CongSym(m * ratio, b, n);
    UnitCong(b, m * ratio, n);
    assert m * ratio == ratio * m;
    UnitFactor(ratio, m, n);
    RootOfUnit(r, e, n);
  }

  /**
   For a unit message, every other unit is its blinding under exactly one factor the loop accepts,
   and no accepted factor leaves the message unchanged.
   */
  lemma BlindingIsPerfect(key: RsaKey, m: nat, b: nat)
    requires ValidKey(key) && key.N() > 1 && m < key.N() && b < key.N()
    requires IsUnit(m, key.N()) && IsUnit(b, key.N())
    ensures b != m ==> exists r :: AcceptedFactor(r, key.N()) && Blinded(m, r, key.e, key.N()) == b
    ensures forall r, s | AcceptedFactor(r, key.N()) && AcceptedFactor(s, key.N()) ::
              Blinded(m, r, key.e, key.N()) == b == Blinded(m, s, key.e, key.N()) ==> r == s
    ensures b == m ==> forall r :: AcceptedFactor(r, key.N()) ==> Blinded(m, r, key.e, key.N()) != b
  {
    var n := key.N();
    FactorOne(key, m);
    if b != m {
      var r := FactorExists(key, m, b);
      NotZero(r, n);
      AcceptedIsUnitAboveOne(r, n);
      assert AcceptedFactor(r, n);
    }
    forall r, s | AcceptedFactor(r, n) && AcceptedFactor(s, n)
                  && Blinded(m, r, key.e, n) == b && Blinded(m, s, key.e, n) == b
      ensures r == s
    {
      BlindingIsInjective(key, m, r, s);
    }
    forall r | b == m && AcceptedFactor(r, n) ensures Blinded(m, r, key.e, n) != b {
      if Blinded(m, r, key.e, n) == m {
        BlindingIsInjective(key, m, r, 1);
      }
    }
  }

  lemma NotZero(r: nat, n: nat)
    requires n > 1 && r < n && IsUnit(r, n)
    ensures r != 0
  {
    if r == 0 {
      var v :| Cong(r * v, 1, n);
      CongMod(0, 1, n);
      DivModUnique(0, 0, 0, n);
      DivModUnique(1, 0, 1, n);
    }
  }
}
