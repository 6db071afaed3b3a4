/** The registry cache across restarts: one atomically replaced file and one document in memory. */
module RegistryCache {
  import opened Bytes
  import opened Rfc3339
  import opened Registry

  /** Whether the two reads and the one write of an operation succeed. */
  datatype Io = Io(firstLoad: bool, secondLoad: bool, store: bool)

  /** What is on disk and what is in memory. */
  datatype Held = Held(file: Option<StoredState>, current: Option<Verified>)

  // ---- The state file ----

  /** A missing file is a first run; an unreadable one, or a version that is not positive, is an error. */
  function Load(file: Option<StoredState>, ok: bool): Result<Option<StoredState>, RegistryError> {
    if !ok then Err(StateUnreadable)
    else if file.None? then Ok(None)
    else if file.value.highest <= 0 then Err(NonPositiveState)
    else Ok(file)
  }

  function StateFor(c: Codec, v: Verified, body: seq<byte>): StoredState {
    StoredState(v.document.version, c.b64Encode(v.bytes), v.keyIds, Some(c.b64Encode(body)))
  }

  /** Record a verified document if it advances the version; the file is replaced whole or not at all. */
  function Remember(c: Codec, file: Option<StoredState>, v: Verified, body: seq<byte>, io: Io)
    : Result<Option<StoredState>, RegistryError>
  {
    match Load(file, io.secondLoad)
    case Err(e) => Err(e)
    case Ok(prev) =>
      if prev.Some? && prev.value.highest >= v.document.version then Ok(file)
      else if !io.store then Err(CannotStore)
      else Ok(Some(StateFor(c, v, body)))
  }

  // ---- The operations, as functions of what is held ----

  datatype Config = Config(pinned: seq<PinnedKey>, threshold: nat)

  function AcceptedBody(c: Codec, cfg: Config, s: Held, body: seq<byte>, now: int, io: Io)
    : (Held, Result<(), RegistryError>)
  {
    match Load(s.file, io.firstLoad)
    case Err(e) => (s, Err(e))
    case Ok(previous) =>
      match VerifyResult(c, body, cfg.pinned, cfg.threshold, now, previous)
      case Err(e) => (s, Err(e))
      case Ok(v) =>
        match Remember(c, s.file, v, body, io)
        case Err(e) => (s, Err(e))
        case Ok(file) => (Held(file, Some(v)), Ok(()))
  }

  /** The stored envelope, verified again as if it had just arrived, if it is still fresh. */
  function Reusable(c: Codec, cfg: Config, file: Option<StoredState>, now: int, ok: bool): Option<Verified> {
    match Load(file, ok)
    case Err(_) => None
    case Ok(None) => None
    case Ok(Some(stored)) =>
      if stored.envelope.None? then None
      else match c.b64Decode(stored.envelope.value)
        case None => None
        case Some(body) => match VerifyResult(c, body, cfg.pinned, cfg.threshold, now, Some(stored))
          case Err(_) => None
          case Ok(v) => match Parse(v.document.freshUntil)
            case None => None
            case Some(until) => if until > now then Some(v) else None
  }

  function Primed(c: Codec, cfg: Config, s: Held, now: int, fetched: Option<seq<byte>>, io: Io, reuseIo: bool)
    : (Held, Result<(), RegistryError>)
  {
    match Reusable(c, cfg, s.file, now, reuseIo)
    case Some(v) => (s.(current := Some(v)), Ok(()))
    case None => match fetched
      case None => (s, Err(FetchFailed))
      case Some(body) => AcceptedBody(c, cfg, s, body, now, io)
  }

  function Refreshed(c: Codec, cfg: Config, s: Held, now: int, fetched: Option<seq<byte>>, io: Io)
    : (Held, Result<bool, RegistryError>)
  {
    if s.current.Some? && Parse(s.current.value.document.freshUntil).None? then (s, Err(BadTimestamp))
    else if s.current.Some? && Parse(s.current.value.document.freshUntil).value > now then (s, Ok(false))
    else match fetched
      case None => (s, Err(FetchFailed))
      case Some(body) => match AcceptedBody(c, cfg, s, body, now, io)
        case (t, Err(e)) => (t, Err(e))
        case (t, Ok(_)) => (t, Ok(true))
  }

  predicate Fresh(v: Verified, now: int) {
    Parse(v.document.freshUntil).Some? && Parse(v.document.freshUntil).value > now
  }

  // ---- The cache object ----

  /** The directory that outlives the process. */
  class Disk {
    var file: Option<StoredState>

    constructor ()
      ensures file == None
    {
      file := None;
    }
  }

  class Cache {
    const codec: Codec
    const cfg: Config
    const disk: Disk
    var current: Option<Verified>

    ghost function State(): Held
      reads this, disk
    {
      Held(disk.file, current)
    }

    /** A fresh process: nothing in memory, whatever the disk holds. */
    constructor (codec: Codec, cfg: Config, disk: Disk)
      requires cfg.pinned != [] && 1 <= cfg.threshold <= |cfg.pinned|
      ensures this.codec == codec && this.cfg == cfg && this.disk == disk && current == None
    {
      this.codec, this.cfg, this.disk, this.current := codec, cfg, disk, None;
    }

    /** What configuration is refused before a cache exists. */
    static function Check(cfg: Config): (r: Result<(), RegistryError>)
      ensures r.Ok? <==> cfg.pinned != [] && 1 <= cfg.threshold <= |cfg.pinned|
    {
      if cfg.pinned == [] then Err(NoPinnedKey)
      else if cfg.threshold == 0 then Err(ZeroThreshold)
      else if cfg.threshold > |cfg.pinned| then Err(UnreachableThreshold)
      else Ok(())
    }

    method AcceptBody(body: seq<byte>, now: int, io: Io) returns (r: Result<(), RegistryError>)
      modifies this, disk
      ensures (State(), r) == AcceptedBody(codec, cfg, old(State()), body, now, io)
      ensures r.Err? ==> State() == old(State())
      ensures r.Ok? ==> current.Some? && disk.file.Some? && InWindow(current.value.document, now)
                        && disk.file.value.highest >= current.value.document.version
    {
      hide Parse, CheckValidity, InWindow, Vouchers;
      var previous := Load(disk.file, io.firstLoad);
      if previous.Err? {
        return Err(previous.error);
      }
      var verified := Verify(codec, body, cfg.pinned, cfg.threshold, now, previous.value);
      if verified.Err? {
        return Err(verified.error);
      }
      var file := Remember(codec, disk.file, verified.value, body, io);
      if file.Err? {
        return Err(file.error);
      }
      AcceptedMeans(codec, body, cfg.pinned, cfg.threshold, now, previous.value);
      disk.file := file.value;
      current := Some(verified.value);
      return Ok(());
    }

    method ReuseStored(now: int, ok: bool) returns (r: Option<Verified>)
      ensures r == Reusable(codec, cfg, disk.file, now, ok)
      ensures r.Some? ==> disk.file.Some? && Fresh(r.value, now) && InWindow(r.value.document, now)
      ensures r.Some? && Coherent(codec, disk.file.value) ==> Matches(codec, r.value, disk.file.value)
    {
      hide Parse, CheckValidity, InWindow, Vouchers;
      var stored := Load(disk.file, ok);
      if stored.Err? || stored.value.None? || stored.value.value.envelope.None? {
        return None;
      }
      var body := codec.b64Decode(stored.value.value.envelope.value);
      if body.None? {
        return None;
      }
      var verified := Verify(codec, body.value, cfg.pinned, cfg.threshold, now, stored.value);
      if verified.Err? {
        return None;
      }
      var until := Parse(verified.value.document.freshUntil);
      if until.None? {
        return None;
      }
      AcceptedMeans(codec, body.value, cfg.pinned, cfg.threshold, now, stored.value);
      return if until.value > now then Some(verified.value) else None;
    }

    method Prime(now: int, fetched: Option<seq<byte>>, io: Io, reuseIo: bool) returns (r: Result<(), RegistryError>)
      modifies this, disk
      ensures (State(), r) == Primed(codec, cfg, old(State()), now, fetched, io, reuseIo)
      ensures r.Err? ==> State() == old(State())
      ensures r.Ok? ==> current.Some? && InWindow(current.value.document, now)
      ensures r.Ok? ==> disk.file.Some?
    {
      hide InWindow, Reusable, AcceptedBody;
      var reused := ReuseStored(now, reuseIo);
      if reused.Some? {
        current := reused;
        return Ok(());
      }
      if fetched.None? {
        return Err(FetchFailed);
      }
      r := AcceptBody(fetched.value, now, io);
    }

    method RefreshIfStale(now: int, fetched: Option<seq<byte>>, io: Io) returns (r: Result<bool, RegistryError>)
      modifies this, disk
      ensures (State(), r) == Refreshed(codec, cfg, old(State()), now, fetched, io)
      ensures r == Ok(false) <==> old(current).Some? && Fresh(old(current).value, now)
      ensures r != Ok(true) ==> State() == old(State())
      ensures r == Ok(true) ==> current.Some? && InWindow(current.value.document, now)
    {
      hide InWindow, AcceptedBody;
      if current.Some? {
        var until := Parse(current.value.document.freshUntil);
        if until.None? {
          return Err(BadTimestamp);
        }
        if until.value > now {
          return Ok(false);
        }
      }
      if fetched.None? {
        return Err(FetchFailed);
      }
      var done := AcceptBody(fetched.value, now, io);
      if done.Err? {
        return Err(done.error);
      }
      return Ok(true);
    }
  }

  // ---- When the operations succeed ----

  /**
   A body is taken exactly if the file can be read both times, the body verifies against it, and it
   can be written or need not be; then memory holds the document and the file records it or keeps a
   version as high.
   */
  lemma AcceptedOkIff(c: LawfulCodecs, cfg: Config, s: Held, body: seq<byte>, now: int, io: Io)
    ensures var (t, r) := AcceptedBody(c, cfg, s, body, now, io);
            var v := VerifyResult(c, body, cfg.pinned, cfg.threshold, now, s.file);
            && (r.Ok? <==>
                  && io.firstLoad && io.secondLoad && (s.file.Some? ==> s.file.value.highest > 0) && v.Ok?
                  && (io.store || (s.file.Some? && s.file.value.highest >= v.value.document.version)))
            && (r.Ok? ==>
                  && EnvelopeBytes(c, body) == Ok(v.value.bytes) && t.current == Some(v.value) && t.file.Some?
                  && c.parseDocument(v.value.bytes) == Some(v.value.document)
                  && t.file.value.highest == v.value.document.version
                  && if s.file.Some? && s.file.value.highest >= v.value.document.version then t.file == s.file
                     else Records(c, t.file.value, v.value, body))
  {
    hide Vouchers, InWindow, VerifyResult;
    AcceptedMeans(c, body, cfg.pinned, cfg.threshold, now, s.file);
  }

  /** The file spells this document, who signed it, and the envelope it came in. */
  ghost predicate Records(c: Codec, f: StoredState, v: Verified, body: seq<byte>) {
    && f.highest == v.document.version && c.b64Decode(f.document) == Some(v.bytes) && f.keyIds == v.keyIds
    && f.envelope.Some? && c.b64Decode(f.envelope.value) == Some(body)
  }

  /**
   A restart reuses a coherent file exactly if it can be read and its document is still signed by
   enough pinned keys, in its window and fresh; then nothing is fetched and the file is left alone.
   */
  lemma ReuseIff(c: Codec, cfg: Config, f: StoredState, now: int, ok: bool)
    requires Coherent(c, f)
    ensures var body := c.b64Decode(f.envelope.value).value;
            Reusable(c, cfg, Some(f), now, ok).Some? <==>
              && ok && f.highest > 0 && Current(c, body, cfg.pinned, cfg.threshold, now, f.highest)
              && Fresh(Verified(c.parseDocument(EnvelopeBytes(c, body).value).value, [], {}), now)
    ensures forall s: Held, fetched, io ::
              s.file == Some(f) && Reusable(c, cfg, Some(f), now, ok).Some? ==>
                Primed(c, cfg, s, now, fetched, io, ok) == (s.(current := Reusable(c, cfg, Some(f), now, ok)), Ok(()))
  {
    hide Vouchers, InWindow, Parse, VerifyResult;
    var body := c.b64Decode(f.envelope.value).value;
    AcceptedMeans(c, body, cfg.pinned, cfg.threshold, now, Some(f));
  }

  // ---- Which configurations can work ----

  /** The check on a configuration agrees with what can be met exactly if no key id is pinned twice. */
  lemma CheckAgreesIff(pinned: seq<PinnedKey>)
    ensures (forall threshold: nat ::
               Cache.Check(Config(pinned, threshold)).Ok? <==> threshold >= 1 && CanBeMet(pinned, threshold))
            <==> DistinctIds(pinned)
  {
    hide CanBeMet, DistinctIds, PinnedIds;
    CountOfIds(pinned);
    forall threshold: nat ensures CanBeMet(pinned, threshold) <==> threshold <= |PinnedIds(pinned)| {
      CanBeMetIff(pinned, threshold);
    }
    if !DistinctIds(pinned) {
      assert pinned != [] by { NoIds(); }
      assert Cache.Check(Config(pinned, |pinned|)).Ok? && !CanBeMet(pinned, |pinned|);
    }
  }

  /** A key pinned twice with threshold two passes the check, and then no body is ever accepted. */
  lemma RepeatedKeyNeverEnough(k: PinnedKey, c: Codec, body: seq<byte>, now: int, previous: Option<StoredState>)
    ensures Cache.Check(Config([k, k], 2)).Ok?
    ensures VerifyResult(c, body, [k, k], 2, now, previous).Err?
  {
    assert PinnedIds([k, k]) == {k.keyId};
    UnmetThresholdRefusesAll(c, body, Config([k, k], 2), now, previous);
  }

  lemma UnmetThresholdRefusesAll(c: Codec, body: seq<byte>, cfg: Config, now: int, previous: Option<StoredState>)
    requires cfg.threshold > |PinnedIds(cfg.pinned)|
    ensures VerifyResult(c, body, cfg.pinned, cfg.threshold, now, previous).Err?
  {
    hide Vouchers, PinnedIds, InWindow, CheckValidity;
    AcceptedMeans(c, body, cfg.pinned, cfg.threshold, now, previous);
    if EnvelopeBytes(c, body).Ok? {
      var bytes := EnvelopeBytes(c, body).value;
      AtMostPinnedIds(c, cfg.pinned, SignedMessage(bytes), c.parseEnvelope(body).value.signatures);
    }
  }

  // ---- Every run, from no file ----

  datatype Event =
    | Accept(cfg: Config, body: seq<byte>, now: int, io: Io)
    | Prime(cfg: Config, now: int, fetched: Option<seq<byte>>, io: Io, reuseIo: bool)
    | Refresh(cfg: Config, now: int, fetched: Option<seq<byte>>, io: Io)
    | Restart

  function After(c: Codec, s: Held, e: Event): Held {
    match e
    case Accept(cfg, body, now, io) => AcceptedBody(c, cfg, s, body, now, io).0
    case Prime(cfg, now, fetched, io, reuseIo) => Primed(c, cfg, s, now, fetched, io, reuseIo).0
    case Refresh(cfg, now, fetched, io) => Refreshed(c, cfg, s, now, fetched, io).0
    case Restart => s.(current := None)
  }

  /** Every document ever held in memory, in the order it got there, next to what is held now. */
  datatype Run = Run(held: Held, accepted: seq<Verified>)

  function Execute(c: Codec, es: seq<Event>): Run {
    if es == [] then Run(Held(None, None), [])
    else
      var r := Execute(c, es[..|es| - 1]);
      var held := After(c, r.held, es[|es| - 1]);
      Run(held, if held.current.Some? then r.accepted + [held.current.value] else r.accepted)
  }

  /** The file spells one document three times over, and they agree. */
  ghost predicate Coherent(c: Codec, f: StoredState) {
    && f.envelope.Some? && c.b64Decode(f.envelope.value).Some?
    && EnvelopeBytes(c, c.b64Decode(f.envelope.value).value).Ok?
    && var bytes := EnvelopeBytes(c, c.b64Decode(f.envelope.value).value).value;
      && c.b64Decode(f.document) == Some(bytes)
      && c.parseDocument(bytes).Some? && c.parseDocument(bytes).value.version == f.highest
  }

  /** `v` is the document the file records. */
  ghost predicate Matches(c: Codec, v: Verified, f: StoredState) {
    v.document.version == f.highest && c.b64Decode(f.document) == Some(v.bytes)
  }

  /** Not newer than the file, and the same bytes if it is as new. */
  ghost predicate NotAhead(c: Codec, v: Verified, f: StoredState) {
    v.document.version < f.highest || Matches(c, v, f)
  }

  ghost predicate Inv(c: Codec, r: Run) {
    && (r.held.file.Some? ==> Coherent(c, r.held.file.value))
    && (r.held.current.Some? ==> r.held.file.Some? && Matches(c, r.held.current.value, r.held.file.value))
    && (r.held.file.None? ==> r.accepted == [])
    && (forall i :: 0 <= i < |r.accepted| ==> NotAhead(c, r.accepted[i], r.held.file.value))
    && (forall i, j :: 0 <= i < j < |r.accepted| ==> Ordered(r.accepted[i], r.accepted[j]))
  }

  /** A later acceptance is never older, and under an equal version it is the same bytes. */
  predicate Ordered(v: Verified, w: Verified) {
    v.document.version <= w.document.version && (v.document.version == w.document.version ==> v.bytes == w.bytes)
  }

  /** Accepting a body either leaves everything alone or moves file and memory forward together. */
  lemma AcceptMovesForward(c: LawfulCodecs, cfg: Config, s: Held, body: seq<byte>, now: int, io: Io)
    requires s.file.Some? ==> Coherent(c, s.file.value)
    ensures var t := AcceptedBody(c, cfg, s, body, now, io).0;
            t == s || (t.file.Some? && t.current.Some? && Coherent(c, t.file.value)
                       && Matches(c, t.current.value, t.file.value)
                       && (s.file.Some? ==> t.file == s.file || t.file.value.highest > s.file.value.highest))
  {
    hide Parse, CheckValidity, Vouchers;
    var (t, r) := AcceptedBody(c, cfg, s, body, now, io);
    if r.Ok? {
      var previous := Load(s.file, io.firstLoad).value;
      AcceptedMeans(c, body, cfg.pinned, cfg.threshold, now, previous);
    }
  }

  lemma ReuseMatches(c: Codec, cfg: Config, f: StoredState, now: int, ok: bool)
    requires Coherent(c, f) && Reusable(c, cfg, Some(f), now, ok).Some?
    ensures Matches(c, Reusable(c, cfg, Some(f), now, ok).value, f)
  {
    hide Parse, CheckValidity, Vouchers;
    AcceptedMeans(c, c.b64Decode(f.envelope.value).value, cfg.pinned, cfg.threshold, now, Some(f));
  }

  /** One step on what is held: unchanged, forgotten from memory, reused from disk, or moved forward. */
  lemma AfterMovesForward(c: LawfulCodecs, s: Held, e: Event)
    requires s.file.Some? ==> Coherent(c, s.file.value)
    requires s.current.Some? ==> s.file.Some? && Matches(c, s.current.value, s.file.value)
    ensures var t := After(c, s, e);
            && (t.file.Some? ==> Coherent(c, t.file.value))
            && (t.current.Some? ==> t.file.Some? && Matches(c, t.current.value, t.file.value))
            && (s.file.Some? ==> t.file.Some? && (t.file == s.file || t.file.value.highest > s.file.value.highest))
  {
    hide Parse, VerifyResult, Coherent, Matches, AcceptedBody;
    match e
    case Accept(cfg, body, now, io) => AcceptMovesForward(c, cfg, s, body, now, io);
    case Prime(cfg, now, fetched, io, reuseIo) =>
      if Reusable(c, cfg, s.file, now, reuseIo).Some? {
        ReuseMatches(c, cfg, s.file.value, now, reuseIo);
      } else if fetched.Some? {
        AcceptMovesForward(c, cfg, s, fetched.value, now, io);
      }
    case Refresh(cfg, now, fetched, io) =>
      if fetched.Some? {
        AcceptMovesForward(c, cfg, s, fetched.value, now, io);
      }
    case Restart =>
  }

  lemma {:induction false} ExecuteInv(c: LawfulCodecs, es: seq<Event>)
    ensures Inv(c, Execute(c, es))
  {
    if es != [] {
      var r := Execute(c, es[..|es| - 1]);
      ExecuteInv(c, es[..|es| - 1]);
      hide After, Coherent;
      AfterMovesForward(c, r.held, es[|es| - 1]);
    }
  }

  /**
   Over any run of accepting, priming, refreshing and restarting, with arbitrary bodies, clocks,
   configurations and I/O failures, starting from no file: versions held never decrease, equal
   versions have equal bytes, and what is in memory is exactly what the file records.
   */
  lemma CacheNeverGoesBack(c: LawfulCodecs, es: seq<Event>)
    ensures var r := Execute(c, es);
            && (forall i, j :: 0 <= i < j < |r.accepted| ==> Ordered(r.accepted[i], r.accepted[j]))
            && (r.held.current.Some? ==>
                  && r.held.file.Some?
                  && r.held.file.value.highest == r.held.current.value.document.version
                  && c.b64Decode(r.held.file.value.document) == Some(r.held.current.value.bytes))
  {
    ExecuteInv(c, es);
  }

  // ---- Fed by a publisher that never contradicts itself ----

  /** Whatever document this body carries is the one published under its version. */
  ghost predicate Published(c: Codec, pub: map<int, seq<byte>>, body: seq<byte>) {
    forall bytes, doc | EnvelopeBytes(c, body) == Ok(bytes) && c.parseDocument(bytes) == Some(doc) ::
      doc.version in pub && pub[doc.version] == bytes
  }

  ghost predicate FileFrom(c: Codec, pub: map<int, seq<byte>>, file: Option<StoredState>) {
    file.Some? ==> file.value.highest in pub && c.b64Decode(file.value.document) == Some(pub[file.value.highest])
  }

  function BodyOf(e: Event): Option<seq<byte>> {
    match e
    case Accept(_, body, _, _) => Some(body)
    case Prime(_, _, fetched, _, _) => fetched
    case Refresh(_, _, fetched, _) => fetched
    case Restart => None
  }

  /** What the caller of the operation is told. */
  function ErrorOf(c: Codec, s: Held, e: Event): Option<RegistryError> {
    match e
    case Accept(cfg, body, now, io) =>
      (match AcceptedBody(c, cfg, s, body, now, io).1 case Err(x) => Some(x) case Ok(_) => None)
    case Prime(cfg, now, fetched, io, reuseIo) =>
      (match Primed(c, cfg, s, now, fetched, io, reuseIo).1 case Err(x) => Some(x) case Ok(_) => None)
    case Refresh(cfg, now, fetched, io) =>
      (match Refreshed(c, cfg, s, now, fetched, io).1 case Err(x) => Some(x) case Ok(_) => None)
    case Restart => None
  }

  lemma HonestBodyAccepted(c: LawfulCodecs, pub: map<int, seq<byte>>, cfg: Config, s: Held, body: seq<byte>, now: int,
                           io: Io)
    requires FileFrom(c, pub, s.file) && Published(c, pub, body)
    ensures var (t, r) := AcceptedBody(c, cfg, s, body, now, io);
            FileFrom(c, pub, t.file) && (r.Err? ==> !r.error.Equivocation? && r.error != StoredNotBase64)
  {
    hide Parse, Vouchers;
    var (t, r) := AcceptedBody(c, cfg, s, body, now, io);
    if r.Ok? {
      AcceptedMeans(c, body, cfg.pinned, cfg.threshold, now, Load(s.file, io.firstLoad).value);
    }
  }

  lemma HonestStep(c: LawfulCodecs, pub: map<int, seq<byte>>, s: Held, e: Event)
    requires FileFrom(c, pub, s.file) && (BodyOf(e).Some? ==> Published(c, pub, BodyOf(e).value))
    ensures FileFrom(c, pub, After(c, s, e).file)
    ensures ErrorOf(c, s, e).Some? ==> !ErrorOf(c, s, e).value.Equivocation?
  {
    hide Parse, VerifyResult, FileFrom, Published, AcceptedBody;
    match e
    case Accept(cfg, body, now, io) => HonestBodyAccepted(c, pub, cfg, s, body, now, io);
    case Prime(cfg, now, fetched, io, reuseIo) =>
      if fetched.Some? {
        HonestBodyAccepted(c, pub, cfg, s, fetched.value, now, io);
      }
    case Refresh(cfg, now, fetched, io) =>
      if fetched.Some? {
        HonestBodyAccepted(c, pub, cfg, s, fetched.value, now, io);
      }
    case Restart =>
  }

  lemma {:induction false} HonestRun(c: LawfulCodecs, pub: map<int, seq<byte>>, es: seq<Event>)
    requires forall i :: 0 <= i < |es| && BodyOf(es[i]).Some? ==> Published(c, pub, BodyOf(es[i]).value)
    ensures FileFrom(c, pub, Execute(c, es).held.file)
    ensures forall i :: 0 <= i < |es| ==>
              var err := ErrorOf(c, Execute(c, es[..i]).held, es[i]); err.Some? ==> !err.value.Equivocation?
  {
    hide FileFrom, Published, ErrorOf, After;
    if es == [] {
      EmptyFile(c, pub);
    } else {
      var init := es[..|es| - 1];
      HonestRun(c, pub, init);
      HonestStep(c, pub, Execute(c, init).held, es[|es| - 1]);
      forall i | 0 <= i < |es|
        ensures var err := ErrorOf(c, Execute(c, es[..i]).held, es[i]); err.Some? ==> !err.value.Equivocation?
      {
        if i < |init| {
          assert es[..i] == init[..i] && es[i] == init[i];
        }
      }
    }
  }

  lemma EmptyFile(c: Codec, pub: map<int, seq<byte>>)
    ensures FileFrom(c, pub, None)
  {
  }
}
