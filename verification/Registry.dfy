/** The signed relay registry: signatures, validity window, rollback and equivocation checks. */
module Registry {
  import opened Bytes
  import opened Cells
  import opened Civil
  import opened Rfc3339

  // ---- Documents ----

  /** One published relay. `ip` is what its address literal parses to; no literal, no address. */
  datatype RelayEntry = RelayEntry(
    id: string,
    operatorId: string,
    hostId: string,
    role: string,
    ip: Option<Ip>,
    port: Port,
    tlsName: string,
    staticPubkey: seq<byte>)

  datatype Document = Document(
    version: int,
    validAfter: seq<byte>,
    freshUntil: seq<byte>,
    validUntil: seq<byte>,
    relays: seq<RelayEntry>)

  datatype SignatureEntry = SignatureEntry(keyId: string, sig: seq<byte>)

  datatype Envelope = Envelope(document: seq<byte>, signatures: seq<SignatureEntry>)

  type PublicKey = seq<byte>

  datatype PinnedKey = PinnedKey(keyId: string, key: PublicKey)

  /** JSON, base64 and Ed25519 as the code uses them. */
  datatype Codec = Codec(
    parseEnvelope: seq<byte> -> Option<Envelope>,
    parseDocument: seq<byte> -> Option<Document>,
    b64Decode: seq<byte> -> Option<seq<byte>>,
    b64Encode: seq<byte> -> seq<byte>,
    verifies: (PublicKey, seq<byte>, seq<byte>) -> bool)

  ghost predicate LawfulCodec(c: Codec) {
    forall x :: c.b64Decode(c.b64Encode(x)) == Some(x)
  }

  ghost const BLANK_CODEC: Codec :=
    Codec(_ => None, _ => None, (x: seq<byte>) => Some(x), (x: seq<byte>) => x,
          (k: PublicKey, m: seq<byte>, s: seq<byte>) => false)

  type LawfulCodecs = c: Codec | LawfulCodec(c) ghost witness BLANK_CODEC

  datatype RegistryError =
    | ZeroThreshold
    | NotAnEnvelope
    | NotBase64
    | TooFewSignatures(verified: nat, threshold: nat)
    | NotADocument
    | BadTimestamp
    | EmptyWindow
    | OffHour
    | VersionMismatch(version: int, hour: int)
    | NotYetValid
    | Expired
    | Rollback(version: int, highest: int)
    | Equivocation(version: int)
    | StoredNotBase64
    | StateUnreadable
    | NonPositiveState
    | CannotStore
    | NoPinnedKey
    | UnreachableThreshold
    | FetchFailed
    | NothingAccepted
    | OutsideWindow

  // ---- The signed message ----

  /** "quiethop/v1/registry" */
  const DOMAIN: seq<byte> :=
    [113, 117, 105, 101, 116, 104, 111, 112, 47, 118, 49, 47, 114, 101, 103, 105, 115, 116, 114, 121]

  predicate NulFree(lab: seq<byte>) {
    forall i :: 0 <= i < |lab| ==> lab[i] != 0
  }

  function Labelled(lab: seq<byte>, document: seq<byte>): seq<byte> {
    lab + [0] + document
  }

  function SignedMessage(document: seq<byte>): seq<byte> {
    Labelled(DOMAIN, document)
  }

  /** The message determines the label and the document, among labels without a zero byte. */
  lemma MessageDeterminesParts(l1: seq<byte>, d1: seq<byte>, l2: seq<byte>, d2: seq<byte>)
    requires NulFree(l1) && NulFree(l2) && Labelled(l1, d1) == Labelled(l2, d2)
    ensures l1 == l2 && d1 == d2
  {
    var m := Labelled(l1, d1);
    assert forall i :: 0 <= i < |l1| ==> m[i] == l1[i];
    assert forall i :: 0 <= i < |l2| ==> m[i] == l2[i];
    assert m[|l1|] == 0 && m[|l2|] == 0;
    assert l1 == m[..|l1|] && l2 == m[..|l2|];
    assert d1 == m[|l1| + 1..] && d2 == m[|l2| + 1..];
  }

  /** A registry signature never doubles as one under another label, or over another document. */
  lemma DomainIsSeparate(lab: seq<byte>, d1: seq<byte>, d2: seq<byte>)
    requires NulFree(lab) && Labelled(lab, d1) == SignedMessage(d2)
    ensures lab == DOMAIN && d1 == d2
  {
    MessageDeterminesParts(lab, d1, DOMAIN, d2);
  }

  // ---- The signature stage ----

  const SIGNATURE_LENGTH: nat := 64

  /** The first pinned key with this id, as `find` gives it. */
  function FindPin(pinned: seq<PinnedKey>, keyId: string): (r: Option<PinnedKey>)
    ensures r.Some? ==> r.value in pinned && r.value.keyId == keyId
    ensures r.None? <==> forall p :: p in pinned ==> p.keyId != keyId
  {
    if pinned == [] then None
    else if pinned[0].keyId == keyId then Some(pinned[0])
    else FindPin(pinned[1..], keyId)
  }

  /** A well-formed entry under a pinned id whose signature verifies over the message. */
  predicate Vouches(c: Codec, pinned: seq<PinnedKey>, msg: seq<byte>, entry: SignatureEntry) {
    match FindPin(pinned, entry.keyId)
    case None => false
    case Some(pin) =>
      match c.b64Decode(entry.sig)
      case None => false
      case Some(raw) => |raw| == SIGNATURE_LENGTH && c.verifies(pin.key, msg, raw)
  }

  /** The entry holds 64 bytes that verify over the message under the first pinned key of its id. */
  ghost predicate SignedBy(c: Codec, pinned: seq<PinnedKey>, i: nat, msg: seq<byte>, e: SignatureEntry) {
    && i < |pinned| && pinned[i].keyId == e.keyId && (forall j :: 0 <= j < i ==> pinned[j].keyId != e.keyId)
    && c.b64Decode(e.sig).Some? && |c.b64Decode(e.sig).value| == 64
    && c.verifies(pinned[i].key, msg, c.b64Decode(e.sig).value)
  }

  lemma {:induction false} FindPinIsFirst(pinned: seq<PinnedKey>, keyId: string) returns (i: nat)
    requires FindPin(pinned, keyId).Some?
    ensures i < |pinned| && FindPin(pinned, keyId) == Some(pinned[i]) && pinned[i].keyId == keyId
    ensures forall j :: 0 <= j < i ==> pinned[j].keyId != keyId
  {
    if pinned[0].keyId == keyId {
      i := 0;
    } else {
      var k := FindPinIsFirst(pinned[1..], keyId);
      i := k + 1;
      forall j | 0 <= j < i ensures pinned[j].keyId != keyId {
        assert j > 0 ==> pinned[j] == pinned[1..][j - 1];
      }
    }
  }

  /** An entry counts exactly if it is so signed: a signature is what counts. */
  lemma VouchesMeansSigned(c: Codec, pinned: seq<PinnedKey>, msg: seq<byte>, e: SignatureEntry)
    ensures Vouches(c, pinned, msg, e) <==> exists i: nat :: SignedBy(c, pinned, i, msg, e)
  {
    if FindPin(pinned, e.keyId).Some? {
      var k := FindPinIsFirst(pinned, e.keyId);
      if Vouches(c, pinned, msg, e) {
        assert SignedBy(c, pinned, k, msg, e);
      }
      if i: nat :| SignedBy(c, pinned, i, msg, e) {
        assert i == k;
      }
    } else {
      forall i: nat ensures !SignedBy(c, pinned, i, msg, e) {
        if i < |pinned| {
          assert pinned[i] in pinned;
        }
      }
    }
  }

  /** The distinct pinned ids with at least one such entry. */
  function Vouchers(c: Codec, pinned: seq<PinnedKey>, msg: seq<byte>, sigs: seq<SignatureEntry>): set<string> {
    set e | e in sigs && Vouches(c, pinned, msg, e) :: e.keyId
  }

  /** The loop over the envelope's signatures, skipping what is unknown, malformed or wrong. */
  method CollectVouchers(c: Codec, pinned: seq<PinnedKey>, msg: seq<byte>, sigs: seq<SignatureEntry>)
    returns (accepted: set<string>)
    ensures accepted == Vouchers(c, pinned, msg, sigs)
  {
    accepted := {};
    for i := 0 to |sigs|
      invariant accepted == Vouchers(c, pinned, msg, sigs[..i])
    {
      var entry := sigs[i];
      VouchersSnoc(c, pinned, msg, sigs[..i], entry);
      assert sigs[..i + 1] == sigs[..i] + [entry];
      var pin := FindPin(pinned, entry.keyId);
      if pin.None? {
        continue;
      }
      var raw := c.b64Decode(entry.sig);
      if raw.None? {
        continue;
      }
      if |raw.value| != SIGNATURE_LENGTH {
        continue;
      }
      if c.verifies(pin.value.key, msg, raw.value) {
        accepted := accepted + {pin.value.keyId};
      }
    }
    assert sigs[..|sigs|] == sigs;
  }

  lemma VouchersSnoc(c: Codec, pinned: seq<PinnedKey>, msg: seq<byte>, sigs: seq<SignatureEntry>, e: SignatureEntry)
    ensures Vouchers(c, pinned, msg, sigs + [e])
         == Vouchers(c, pinned, msg, sigs) + if Vouches(c, pinned, msg, e) then {e.keyId} else {}
  {
    assert forall x :: x in sigs + [e] <==> x in sigs || x == e;
  }

  function PinnedIds(pinned: seq<PinnedKey>): set<string> {
    set p | p in pinned :: p.keyId
  }

  /** Order, repetition, unknown ids and malformed entries change nothing. */
  lemma VouchersIgnoreNoise(c: Codec, pinned: seq<PinnedKey>, msg: seq<byte>, sigs: seq<SignatureEntry>,
                            sigs': seq<SignatureEntry>)
    requires forall e :: Vouches(c, pinned, msg, e) ==> (e in sigs <==> e in sigs')
    ensures Vouchers(c, pinned, msg, sigs) == Vouchers(c, pinned, msg, sigs')
    ensures Vouchers(c, pinned, msg, sigs) <= PinnedIds(pinned)
  {
    forall id | id in Vouchers(c, pinned, msg, sigs) ensures id in PinnedIds(pinned) {
      var e :| e in sigs && Vouches(c, pinned, msg, e) && e.keyId == id;
      assert FindPin(pinned, e.keyId).value in pinned;
    }
  }

  /** A set of ids, each vouched for by some entry. */
  ghost predicate AllVouched(c: Codec, pinned: seq<PinnedKey>, msg: seq<byte>, sigs: seq<SignatureEntry>,
                             ids: set<string>)
  {
    forall id :: id in ids ==> exists e :: e in sigs && e.keyId == id && Vouches(c, pinned, msg, e)
  }

  /** The count reaches the threshold exactly if that many distinct ids are vouched for. */
  lemma ThresholdMeansDistinctVouchers(c: Codec, pinned: seq<PinnedKey>, msg: seq<byte>, sigs: seq<SignatureEntry>,
                                       threshold: nat)
    ensures |Vouchers(c, pinned, msg, sigs)| >= threshold
            <==> exists ids :: |ids| >= threshold && AllVouched(c, pinned, msg, sigs, ids)
  {
    var all := Vouchers(c, pinned, msg, sigs);
    assert AllVouched(c, pinned, msg, sigs, all);
    if ids :| |ids| >= threshold && AllVouched(c, pinned, msg, sigs, ids) {
      assert ids <= all;
      SubsetSize(ids, all);
    }
  }

  lemma {:induction false} SubsetSize(a: set<string>, b: set<string>)
    requires a <= b
    ensures |a| <= |b|
  {
    if a != {} {
      var x :| x in a;
      SubsetSize(a - {x}, b - {x});
    }
  }

  // ---- Which thresholds can be met ----

  /** Some signatures over some message reach the threshold. */
  ghost predicate CanBeMet(pinned: seq<PinnedKey>, threshold: nat) {
    exists c: LawfulCodecs, msg, sigs :: |Vouchers(c, pinned, msg, sigs)| >= threshold
  }

  lemma AtMostPinnedIds(c: Codec, pinned: seq<PinnedKey>, msg: seq<byte>, sigs: seq<SignatureEntry>)
    ensures |Vouchers(c, pinned, msg, sigs)| <= |PinnedIds(pinned)|
  {
    VouchersIgnoreNoise(c, pinned, msg, sigs, sigs);
    SubsetSize(Vouchers(c, pinned, msg, sigs), PinnedIds(pinned));
  }

  /** Every signature of the right length verifies. */
  ghost const EAGER_CODEC: Codec := BLANK_CODEC.(verifies := (k: PublicKey, m: seq<byte>, s: seq<byte>) => true)

  function OneEach(pinned: seq<PinnedKey>): (sigs: seq<SignatureEntry>)
    ensures |sigs| == |pinned|
  {
    seq(|pinned|, i requires 0 <= i < |pinned| => SignatureEntry(pinned[i].keyId, Zeros(SIGNATURE_LENGTH)))
  }

  lemma EveryPinVouches(pinned: seq<PinnedKey>, msg: seq<byte>)
    ensures Vouchers(EAGER_CODEC, pinned, msg, OneEach(pinned)) == PinnedIds(pinned)
  {
    var c, sigs := EAGER_CODEC, OneEach(pinned);
    VouchersIgnoreNoise(c, pinned, msg, sigs, sigs);
    forall id | id in PinnedIds(pinned) ensures id in Vouchers(c, pinned, msg, sigs) {
      var i :| 0 <= i < |pinned| && pinned[i].keyId == id;
      var e := sigs[i];
      assert e in sigs && pinned[i] in pinned && FindPin(pinned, id).Some?;
      assert Vouches(c, pinned, msg, e);
    }
  }

  /** A threshold can be met if and only if that many different ids are pinned. */
  lemma CanBeMetIff(pinned: seq<PinnedKey>, threshold: nat)
    ensures CanBeMet(pinned, threshold) <==> threshold <= |PinnedIds(pinned)|
  {
    hide Vouchers;
    if c: LawfulCodecs, msg, sigs :| |Vouchers(c, pinned, msg, sigs)| >= threshold {
      AtMostPinnedIds(c, pinned, msg, sigs);
    }
    if threshold <= |PinnedIds(pinned)| {
      var c: LawfulCodecs := EAGER_CODEC;
      EveryPinVouches(pinned, []);
      assert |Vouchers(c, pinned, [], OneEach(pinned))| >= threshold;
    }
  }

  predicate DistinctIds(pinned: seq<PinnedKey>) {
    forall i, j :: 0 <= i < j < |pinned| ==> pinned[i].keyId != pinned[j].keyId
  }

  lemma NoIds()
    ensures PinnedIds([]) == {} && DistinctIds([])
  {
  }

  lemma {:induction false} CountOfIds(pinned: seq<PinnedKey>)
    ensures |PinnedIds(pinned)| <= |pinned|
    ensures |PinnedIds(pinned)| == |pinned| <==> DistinctIds(pinned)
  {
    hide DistinctIds, PinnedIds;
    if pinned == [] {
      NoIds();
    } else {
      var init, last := pinned[..|pinned| - 1], pinned[|pinned| - 1];
      CountOfIds(init);
      assert pinned == init + [last];
      IdsSnoc(init, last);
    }
  }

  lemma IdsSnoc(init: seq<PinnedKey>, last: PinnedKey)
    ensures PinnedIds(init + [last]) == PinnedIds(init) + {last.keyId}
    ensures DistinctIds(init + [last]) <==> DistinctIds(init) && last.keyId !in PinnedIds(init)
  {
    var all := init + [last];
    assert forall p :: p in all <==> p in init || p == last;
    assert forall i :: 0 <= i < |init| ==> all[i] == init[i];
    if last.keyId in PinnedIds(init) {
      var i :| 0 <= i < |init| && init[i].keyId == last.keyId;
      assert all[i].keyId == all[|init|].keyId;
    }
    if DistinctIds(all) {
      forall i, j | 0 <= i < j < |init| ensures init[i].keyId != init[j].keyId {
        assert all[i].keyId != all[j].keyId;
      }
    }
  }

  // ---- Validity, rollback, equivocation ----

  const SKEW_ALLOWANCE_SECS: int := 60

  function CheckValidity(doc: Document, now: int): Result<(), RegistryError> {
    match (Parse(doc.validAfter), Parse(doc.validUntil))
    case (None, _) => Err(BadTimestamp)
    case (_, None) => Err(BadTimestamp)
    case (Some(after), Some(until)) =>
      if until <= after then Err(EmptyWindow)
      else if TruncRem(after, 3600) != 0 then Err(OffHour)
      else if doc.version != TruncDiv(after, 3600) then Err(VersionMismatch(doc.version, TruncDiv(after, 3600)))
      else if now + SKEW_ALLOWANCE_SECS < after then Err(NotYetValid)
      else if now >= until then Err(Expired)
      else Ok(())
  }

  /** Whether a document may be used: timestamps that do not parse are an error of their own. */
  function UsableAt(doc: Document, now: int): Result<bool, RegistryError> {
    match (Parse(doc.validAfter), Parse(doc.validUntil))
    case (None, _) => Err(BadTimestamp)
    case (_, None) => Err(BadTimestamp)
    case (Some(after), Some(until)) => Ok(now + SKEW_ALLOWANCE_SECS >= after && now < until)
  }

  datatype StoredState = StoredState(
    highest: int,
    document: seq<byte>,
    keyIds: set<string>,
    envelope: Option<seq<byte>>)

  function CheckRollback(c: Codec, version: int, bytes: seq<byte>, previous: Option<StoredState>)
    : Result<(), RegistryError>
  {
    match previous
    case None => Ok(())
    case Some(prev) =>
      if version < prev.highest then Err(Rollback(version, prev.highest))
      else if version > prev.highest then Ok(())
      else match c.b64Decode(prev.document)
        case None => Err(StoredNotBase64)
        case Some(stored) => if stored != bytes then Err(Equivocation(version)) else Ok(())
  }

  datatype Verified = Verified(document: Document, bytes: seq<byte>, keyIds: set<string>)

  /** The bytes an envelope carries, before anything in them is read. */
  function EnvelopeBytes(c: Codec, body: seq<byte>): Result<seq<byte>, RegistryError> {
    match c.parseEnvelope(body)
    case None => Err(NotAnEnvelope)
    case Some(env) => match c.b64Decode(env.document)
      case None => Err(NotBase64)
      case Some(bytes) => Ok(bytes)
  }

  /** Everything after the signatures. */
  function Judge(c: Codec, bytes: seq<byte>, vouchers: set<string>, threshold: nat, now: int,
                 previous: Option<StoredState>)
    : Result<Verified, RegistryError>
  {
    if |vouchers| < threshold then Err(TooFewSignatures(|vouchers|, threshold))
    else match c.parseDocument(bytes)
      case None => Err(NotADocument)
      case Some(doc) => match CheckValidity(doc, now)
        case Err(e) => Err(e)
        case Ok(_) => match CheckRollback(c, doc.version, bytes, previous)
          case Err(e) => Err(e)
          case Ok(_) => Ok(Verified(doc, bytes, vouchers))
  }

  function VerifyResult(c: Codec, body: seq<byte>, pinned: seq<PinnedKey>, threshold: nat, now: int,
                        previous: Option<StoredState>)
    : Result<Verified, RegistryError>
  {
    if threshold == 0 then Err(ZeroThreshold)
    else match EnvelopeBytes(c, body)
      case Err(e) => Err(e)
      case Ok(bytes) =>
        var vouchers := Vouchers(c, pinned, SignedMessage(bytes), c.parseEnvelope(body).value.signatures);
        Judge(c, bytes, vouchers, threshold, now, previous)
  }

  /** Bytes too few pinned keys signed are never parsed: no other document parser changes the outcome. */
  lemma UnsignedIsNeverParsed(c: Codec, parse: seq<byte> -> Option<Document>, body: seq<byte>, pinned: seq<PinnedKey>,
                              threshold: nat, now: int, previous: Option<StoredState>)
    requires var r := VerifyResult(c, body, pinned, threshold, now, previous); r.Err? && r.error.TooFewSignatures?
    ensures VerifyResult(c.(parseDocument := parse), body, pinned, threshold, now, previous)
         == VerifyResult(c, body, pinned, threshold, now, previous)
  {
    hide Vouchers, Vouches, CheckValidity, CheckRollback;
    TooFewMeans(c, body, pinned, threshold, now, previous);
    var bytes := EnvelopeBytes(c, body).value;
    SameVouchers(c, parse, pinned, SignedMessage(bytes), c.parseEnvelope(body).value.signatures);
  }

  lemma SameVouchers(c: Codec, parse: seq<byte> -> Option<Document>, pinned: seq<PinnedKey>, msg: seq<byte>,
                     sigs: seq<SignatureEntry>)
    ensures Vouchers(c.(parseDocument := parse), pinned, msg, sigs) == Vouchers(c, pinned, msg, sigs)
  {
  }

  /** And that is the outcome exactly if the envelope can be read and fewer than the threshold signed. */
  lemma TooFewMeans(c: Codec, body: seq<byte>, pinned: seq<PinnedKey>, threshold: nat, now: int,
                    previous: Option<StoredState>)
    ensures var r := VerifyResult(c, body, pinned, threshold, now, previous);
            r.Err? && r.error.TooFewSignatures? <==>
              && threshold >= 1 && EnvelopeBytes(c, body).Ok?
              && var bytes := EnvelopeBytes(c, body).value;
                |Vouchers(c, pinned, SignedMessage(bytes), c.parseEnvelope(body).value.signatures)| < threshold
  {
    hide Vouchers, CheckValidity;
    if EnvelopeBytes(c, body).Ok? && c.parseDocument(EnvelopeBytes(c, body).value).Some? {
      ValidityErrors(c.parseDocument(EnvelopeBytes(c, body).value).value, now);
    }
  }

  lemma ValidityErrors(doc: Document, now: int)
    ensures CheckValidity(doc, now).Err? ==>
              var e := CheckValidity(doc, now).error; !e.TooFewSignatures? && !e.Equivocation? && !e.Rollback?
  {
    hide Parse;
  }

  method Verify(c: Codec, body: seq<byte>, pinned: seq<PinnedKey>, threshold: nat, now: int,
                previous: Option<StoredState>)
    returns (r: Result<Verified, RegistryError>)
    ensures r == VerifyResult(c, body, pinned, threshold, now, previous)
  {
    if threshold == 0 {
      return Err(ZeroThreshold);
    }
    var env := c.parseEnvelope(body);
    if env.None? {
      return Err(NotAnEnvelope);
    }
    var bytes := c.b64Decode(env.value.document);
    if bytes.None? {
      return Err(NotBase64);
    }
    var accepted := CollectVouchers(c, pinned, SignedMessage(bytes.value), env.value.signatures);
    if |accepted| < threshold {
      return Err(TooFewSignatures(|accepted|, threshold));
    }
    var doc := c.parseDocument(bytes.value);
    if doc.None? {
      return Err(NotADocument);
    }
    var valid := CheckValidity(doc.value, now);
    if valid.Err? {
      return Err(valid.error);
    }
    var newer := CheckRollback(c, doc.value.version, bytes.value, previous);
    if newer.Err? {
      return Err(newer.error);
    }
    return Ok(Verified(doc.value, bytes.value, accepted));
  }

  /** In its window, which starts on the hour that is its version; a minute early is allowed, late is not. */
  predicate InWindow(doc: Document, now: int) {
    && Parse(doc.validAfter) == Some(3600 * doc.version)
    && Parse(doc.validUntil).Some?
    && 3600 * doc.version < Parse(doc.validUntil).value
    && 3600 * doc.version - 60 <= now < Parse(doc.validUntil).value
  }

  lemma ValidityIsWindow(doc: Document, now: int)
    ensures CheckValidity(doc, now).Ok? <==> InWindow(doc, now)
    ensures InWindow(doc, now) ==> UsableAt(doc, now) == Ok(true)
    ensures UsableAt(doc, now) == Ok(true) <==>
              && Parse(doc.validAfter).Some? && Parse(doc.validUntil).Some?
              && Parse(doc.validAfter).value - 60 <= now < Parse(doc.validUntil).value
    ensures UsableAt(doc, now).Err? <==> Parse(doc.validAfter).None? || Parse(doc.validUntil).None?
  {
    hide Parse;
    if Parse(doc.validAfter).Some? {
      ExactHour(Parse(doc.validAfter).value);
    }
  }

  /** Newer than what was stored, or exactly the stored bytes again. */
  predicate GoesOn(c: Codec, version: int, bytes: seq<byte>, previous: Option<StoredState>) {
    previous.Some? ==> version > previous.value.highest
                       || (version == previous.value.highest && c.b64Decode(previous.value.document) == Some(bytes))
  }

  /**
   An envelope is accepted exactly if enough distinct pinned keys signed exactly its bytes, they
   parse to a document in its window, and the document does not go back on what was stored.
   */
  lemma AcceptedMeans(c: Codec, body: seq<byte>, pinned: seq<PinnedKey>, threshold: nat, now: int,
                      previous: Option<StoredState>)
    ensures var r := VerifyResult(c, body, pinned, threshold, now, previous);
            r.Ok? <==>
              && threshold >= 1 && EnvelopeBytes(c, body).Ok?
              && var bytes := EnvelopeBytes(c, body).value;
                && |Vouchers(c, pinned, SignedMessage(bytes), c.parseEnvelope(body).value.signatures)| >= threshold
                && c.parseDocument(bytes).Some? && InWindow(c.parseDocument(bytes).value, now)
                && GoesOn(c, c.parseDocument(bytes).value.version, bytes, previous)
    ensures var r := VerifyResult(c, body, pinned, threshold, now, previous);
            r.Ok? ==>
              && EnvelopeBytes(c, body) == Ok(r.value.bytes) && c.parseDocument(r.value.bytes) == Some(r.value.document)
              && var sigs := c.parseEnvelope(body).value.signatures;
                r.value.keyIds == Vouchers(c, pinned, SignedMessage(r.value.bytes), sigs)
  {
    hide CheckValidity, InWindow, Vouchers, UsableAt, Parse;
    if EnvelopeBytes(c, body).Ok? {
      var bytes := EnvelopeBytes(c, body).value;
      if c.parseDocument(bytes).Some? {
        ValidityIsWindow(c.parseDocument(bytes).value, now);
      }
    }
  }

  /** Each of these ids signed the message: a pinned key of that id, an entry of that id, 64 bytes that verify. */
  ghost predicate AllSigned(c: Codec, pinned: seq<PinnedKey>, msg: seq<byte>, sigs: seq<SignatureEntry>,
                            ids: set<string>)
  {
    forall id :: id in ids ==> exists i: nat, e :: e in sigs && e.keyId == id && SignedBy(c, pinned, i, msg, e)
  }

  lemma VouchersAreSigned(c: Codec, pinned: seq<PinnedKey>, msg: seq<byte>, sigs: seq<SignatureEntry>)
    ensures AllSigned(c, pinned, msg, sigs, Vouchers(c, pinned, msg, sigs))
    ensures forall ids :: AllSigned(c, pinned, msg, sigs, ids) ==> ids <= Vouchers(c, pinned, msg, sigs)
  {
    hide SignedBy, Vouches;
    forall id | id in Vouchers(c, pinned, msg, sigs)
      ensures exists i: nat, e :: e in sigs && e.keyId == id && SignedBy(c, pinned, i, msg, e)
    {
      var e :| e in sigs && Vouches(c, pinned, msg, e) && e.keyId == id;
      VouchesMeansSigned(c, pinned, msg, e);
    }
    forall ids, id | AllSigned(c, pinned, msg, sigs, ids) && id in ids ensures id in Vouchers(c, pinned, msg, sigs) {
      var i: nat, e :| e in sigs && e.keyId == id && SignedBy(c, pinned, i, msg, e);
      VouchesMeansSigned(c, pinned, msg, e);
    }
  }

  /**
   Nothing is accepted without real signatures: over the label, a zero byte and exactly the document's
   bytes, by at least the threshold of different pinned ids. And with them nothing else is missing but
   what `AcceptedMeans` lists.
   */
  lemma AcceptedIsSigned(c: Codec, body: seq<byte>, pinned: seq<PinnedKey>, threshold: nat, now: int,
                         previous: Option<StoredState>)
    ensures VerifyResult(c, body, pinned, threshold, now, previous).Ok? <==>
              && threshold >= 1 && EnvelopeBytes(c, body).Ok?
              && var bytes := EnvelopeBytes(c, body).value;
                && (exists ids ::
                      && |ids| >= threshold
                      && AllSigned(c, pinned, DOMAIN + [0] + bytes, c.parseEnvelope(body).value.signatures, ids))
                && c.parseDocument(bytes).Some? && InWindow(c.parseDocument(bytes).value, now)
                && GoesOn(c, c.parseDocument(bytes).value.version, bytes, previous)
  {
    hide Vouchers, AllSigned, InWindow, GoesOn;
    AcceptedMeans(c, body, pinned, threshold, now, previous);
    if EnvelopeBytes(c, body).Ok? {
      var bytes, sigs := EnvelopeBytes(c, body).value, c.parseEnvelope(body).value.signatures;
      var msg := DOMAIN + [0] + bytes;
      VouchersAreSigned(c, pinned, msg, sigs);
      if ids :| |ids| >= threshold && AllSigned(c, pinned, msg, sigs, ids) {
        SubsetSize(ids, Vouchers(c, pinned, msg, sigs));
      }
    }
  }

  /** If no key verifies anything over a document's message, no envelope with that document is accepted. */
  lemma UnverifiedIsRefused(c: Codec, body: seq<byte>, pinned: seq<PinnedKey>, threshold: nat, now: int,
                            previous: Option<StoredState>)
    requires EnvelopeBytes(c, body).Ok? ==>
               forall key, raw :: !c.verifies(key, DOMAIN + [0] + EnvelopeBytes(c, body).value, raw)
    ensures VerifyResult(c, body, pinned, threshold, now, previous).Err?
  {
    hide InWindow, GoesOn, VerifyResult, AllSigned;
    AcceptedIsSigned(c, body, pinned, threshold, now, previous);
    if EnvelopeBytes(c, body).Ok? {
      var bytes, sigs := EnvelopeBytes(c, body).value, c.parseEnvelope(body).value.signatures;
      forall ids: set<string> ensures |ids| > 0 ==> !AllSigned(c, pinned, DOMAIN + [0] + bytes, sigs, ids) {
        NothingSigned(c, pinned, DOMAIN + [0] + bytes, sigs, ids);
      }
    }
  }

  lemma NothingSigned(c: Codec, pinned: seq<PinnedKey>, msg: seq<byte>, sigs: seq<SignatureEntry>, ids: set<string>)
    requires forall key, raw :: !c.verifies(key, msg, raw)
    ensures |ids| > 0 ==> !AllSigned(c, pinned, msg, sigs, ids)
  {
    if id :| id in ids {
      assert !(exists i: nat, e :: e in sigs && e.keyId == id && SignedBy(c, pinned, i, msg, e));
    }
  }

  /** Which of the two alarms a signed, current document raises against what is stored, and when. */
  lemma AlarmsMean(c: Codec, body: seq<byte>, pinned: seq<PinnedKey>, threshold: nat, now: int, prev: StoredState,
                   v: int)
    ensures var r := VerifyResult(c, body, pinned, threshold, now, Some(prev));
            && (r == Err(Equivocation(v)) <==>
                  && Current(c, body, pinned, threshold, now, v) && v == prev.highest
                  && c.b64Decode(prev.document).Some?
                  && c.b64Decode(prev.document).value != EnvelopeBytes(c, body).value)
            && (r == Err(Rollback(v, prev.highest)) <==>
                  Current(c, body, pinned, threshold, now, v) && v < prev.highest)
  {
    hide Vouchers, InWindow, CheckValidity, UsableAt, Parse;
    if EnvelopeBytes(c, body).Ok? && c.parseDocument(EnvelopeBytes(c, body).value).Some? {
      var doc := c.parseDocument(EnvelopeBytes(c, body).value).value;
      ValidityIsWindow(doc, now);
      ValidityErrors(doc, now);
    }
  }

  /** Signed by enough pinned keys and in its window, whatever is stored. */
  predicate Current(c: Codec, body: seq<byte>, pinned: seq<PinnedKey>, threshold: nat, now: int, v: int) {
    && threshold >= 1 && EnvelopeBytes(c, body).Ok?
    && var bytes := EnvelopeBytes(c, body).value;
      && |Vouchers(c, pinned, SignedMessage(bytes), c.parseEnvelope(body).value.signatures)| >= threshold
      && c.parseDocument(bytes).Some? && c.parseDocument(bytes).value.version == v
      && InWindow(c.parseDocument(bytes).value, now)
  }

  lemma ExactHour(after: int)
    ensures TruncRem(after, 3600) == 0 ==> after == 3600 * TruncDiv(after, 3600)
    ensures TruncRem(after, 3600) == 0 <==> after % 3600 == 0
  {
  }

  /** Version order is hour order: no accepted document can claim to be newer than its own hour. */
  lemma VersionsOrderAsHours(d1: Document, d2: Document, now1: int, now2: int)
    requires CheckValidity(d1, now1).Ok? && CheckValidity(d2, now2).Ok?
    ensures d1.version < d2.version <==> Parse(d1.validAfter).value < Parse(d2.validAfter).value
    ensures d1.version == d2.version <==> Parse(d1.validAfter) == Parse(d2.validAfter)
  {
    hide Parse;
    ExactHour(Parse(d1.validAfter).value);
    ExactHour(Parse(d2.validAfter).value);
  }
}
