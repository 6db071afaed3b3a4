/**
 Registry publication by any number of authority instances over one table. Every database call, and
 every look at an instance's in-memory copy, is one step, so requests interleave at each of them.
 Clocks are whatever each request says they are, and every call may fail.
 */
module Publisher {
  import opened Bytes
  import opened Rfc3339
  import opened Registry
  import Cache = RegistryCache
  import Civil

  const FRESH_WINDOW: int := 3600
  const VALID_WINDOW: int := 6 * 3600

  /** The start of the hour a time falls in. */
  function HourOf(t: int): int {
    t - t % 3600
  }

  function VersionFor(hour: int): int {
    Civil.TruncDiv(hour, 3600)
  }

  lemma HourFacts(t: int)
    ensures HourOf(t) % 3600 == 0 && HourOf(t) <= t < HourOf(t) + 3600
    ensures HourOf(t) == 3600 * VersionFor(HourOf(t))
  {
  }

  /** How documents and responses become bytes. */
  datatype Encoder = Encoder(
    marshal: Document -> seq<byte>,
    wrap: (seq<byte>, seq<SignatureEntry>) -> seq<byte>)

  /** Clients read back the documents an authority builds, and the bytes and signatures it wraps. */
  ghost predicate ReadsBack(c: Codec, enc: Encoder) {
    && (forall hour, relays ::
          c.parseDocument(enc.marshal(DocumentFor(hour, relays))) == Some(DocumentFor(hour, relays)))
    && (forall bytes, sigs ::
          && EnvelopeBytes(c, enc.wrap(bytes, sigs)) == Ok(bytes)
          && c.parseEnvelope(enc.wrap(bytes, sigs)).value.signatures == sigs)
  }

  function DocumentFor(hour: int, relays: seq<RelayEntry>): Document {
    Document(VersionFor(hour), Format(hour), Format(hour + FRESH_WINDOW), Format(hour + VALID_WINDOW), relays)
  }

  // ---- The table ----

  datatype Row = Row(version: int, document: seq<byte>, signatures: seq<SignatureEntry>)

  /** The table, keyed by its unique `valid_after`. */
  type Table = map<int, Row>

  /** The table's CHECK constraints. */
  predicate Admissible(validAfter: int, row: Row) {
    row.version > 0 && |row.document| > 0 && validAfter % 3600 == 0 && row.version == validAfter / 3600
  }

  /** The unique column and the primary key never disagree about which rows clash. */
  lemma OneKeyPerHour(h1: int, r1: Row, h2: int, r2: Row)
    requires Admissible(h1, r1) && Admissible(h2, r2)
    ensures h1 == h2 <==> r1.version == r2.version
  {
  }

  // ---- Requests and instances ----

  datatype Copy = Copy(document: seq<byte>, signatures: seq<SignatureEntry>, until: int)

  datatype Stage =
    | Loading
    | Building
    | Inserting(document: seq<byte>, signatures: seq<SignatureEntry>)
    | Reloading
    | Remembering(document: seq<byte>, signatures: seq<SignatureEntry>)
    | FallingBack
    | Done

  datatype Request = Request(instance: nat, now: int, stage: Stage)

  datatype Response = Response(now: int, document: seq<byte>, signatures: seq<SignatureEntry>)

  datatype State = State(rows: Table, copies: map<nat, Copy>, requests: map<nat, Request>, served: seq<Response>)

  const EMPTY := State(map[], map[], map[], [])

  /** How an INSERT can end for the caller: done, failed without effect, or failed after taking effect. */
  datatype InsertEnd = Completed | Lost | LostAfterEffect

  datatype Event =
    | Begin(id: nat, instance: nat, now: int)
    | Load(id: nat, ok: bool)
    | Build(id: nat, ok: bool, relays: seq<RelayEntry>, sigs: seq<SignatureEntry>)
    | Insert(id: nat, end: InsertEnd)
    | Reload(id: nat, ok: bool)
    | Remember(id: nat)
    | FallBack(id: nat)
    | Crash(instance: nat)

  predicate Enabled(s: State, e: Event) {
    match e
    case Begin(id, _, _) => id !in s.requests
    case Load(id, _) => id in s.requests && s.requests[id].stage == Loading
    case Build(id, _, _, _) => id in s.requests && s.requests[id].stage == Building
    case Insert(id, _) => id in s.requests && s.requests[id].stage.Inserting?
    case Reload(id, _) => id in s.requests && s.requests[id].stage == Reloading
    case Remember(id) => id in s.requests && s.requests[id].stage.Remembering?
    case FallBack(id) => id in s.requests && s.requests[id].stage == FallingBack
    case Crash(_) => true
  }

  function Go(s: State, id: nat, stage: Stage): State
    requires id in s.requests
  {
    s.(requests := s.requests[id := s.requests[id].(stage := stage)])
  }

  /** What a SELECT for the request's hour leads to; a missing row may mean building or giving up. */
  function AfterSelect(s: State, id: nat, ok: bool, missing: Stage): State
    requires id in s.requests
  {
    var hour := HourOf(s.requests[id].now);
    if !ok then Go(s, id, FallingBack)
    else if hour in s.rows then Go(s, id, Remembering(s.rows[hour].document, s.rows[hour].signatures))
    else Go(s, id, missing)
  }

  function AfterInsert(s: State, id: nat, end: InsertEnd): State
    requires id in s.requests && s.requests[id].stage.Inserting?
  {
    var hour := HourOf(s.requests[id].now);
    var built := s.requests[id].stage;
    var row := Row(VersionFor(hour), built.document, built.signatures);
    if end == Lost || !Admissible(hour, row) then Go(s, id, FallingBack)
    else if hour in s.rows then Go(s, id, if end == Completed then Reloading else FallingBack)
    else
      var t := s.(rows := s.rows[hour := row]);
      Go(t, id, if end == Completed then Remembering(built.document, built.signatures) else FallingBack)
  }

  /** Serve the in-memory copy only before its own validity has passed. */
  function AfterFallBack(s: State, id: nat): State
    requires id in s.requests
  {
    var r := s.requests[id];
    var t := Go(s, id, Done);
    if r.instance in s.copies && r.now < s.copies[r.instance].until then
      t.(served := s.served + [Response(r.now, s.copies[r.instance].document, s.copies[r.instance].signatures)])
    else t
  }

  function AfterRemember(s: State, id: nat): State
    requires id in s.requests && s.requests[id].stage.Remembering?
  {
    var r := s.requests[id];
    var copy := Copy(r.stage.document, r.stage.signatures, HourOf(r.now) + VALID_WINDOW);
    Go(s, id, Done).(copies := s.copies[r.instance := copy],
                     served := s.served + [Response(r.now, copy.document, copy.signatures)])
  }

  function Step(enc: Encoder, s: State, e: Event): State
    requires Enabled(s, e)
  {
    match e
    case Begin(id, instance, now) => s.(requests := s.requests[id := Request(instance, now, Loading)])
    case Load(id, ok) => AfterSelect(s, id, ok, Building)
    case Build(id, ok, relays, sigs) =>
      if ok then Go(s, id, Inserting(enc.marshal(DocumentFor(HourOf(s.requests[id].now), relays)), sigs))
      else Go(s, id, FallingBack)
    case Insert(id, end) => AfterInsert(s, id, end)
    case Reload(id, ok) => AfterSelect(s, id, ok, FallingBack)
    case Remember(id) => AfterRemember(s, id)
    case FallBack(id) => AfterFallBack(s, id)
    case Crash(instance) =>
      s.(copies := s.copies - {instance},
         requests := map id | id in s.requests && s.requests[id].instance != instance :: s.requests[id])
  }

  ghost predicate Run(enc: Encoder, s: State, es: seq<Event>, t: State)
    decreases |es|
  {
    if es == [] then t == s
    else Enabled(s, es[0]) && Run(enc, Step(enc, s, es[0]), es[1..], t)
  }

  // ---- Invariants ----

  /** A row holds the document of its own hour. */
  ghost predicate RowFor(enc: Encoder, hour: int, row: Row) {
    Admissible(hour, row) && exists relays :: row.document == enc.marshal(DocumentFor(hour, relays))
  }

  predicate IsRow(rows: Table, hour: int, document: seq<byte>, signatures: seq<SignatureEntry>) {
    hour in rows && rows[hour].document == document && rows[hour].signatures == signatures
  }

  ghost predicate RequestOk(enc: Encoder, rows: Table, r: Request) {
    match r.stage
    case Inserting(document, _) => exists relays :: document == enc.marshal(DocumentFor(HourOf(r.now), relays))
    case Remembering(document, signatures) => IsRow(rows, HourOf(r.now), document, signatures)
    case Reloading => HourOf(r.now) in rows
    case _ => true
  }

  /** Served is some hour's row, before that hour's validity has passed. */
  ghost predicate ResponseOk(rows: Table, r: Response) {
    exists hour :: IsRow(rows, hour, r.document, r.signatures) && r.now < hour + VALID_WINDOW
  }

  ghost predicate Inv(enc: Encoder, s: State) {
    && (forall hour :: hour in s.rows ==> RowFor(enc, hour, s.rows[hour]))
    && (forall id :: id in s.requests ==> RequestOk(enc, s.rows, s.requests[id]))
    && (forall i :: i in s.copies ==>
          IsRow(s.rows, s.copies[i].until - VALID_WINDOW, s.copies[i].document, s.copies[i].signatures))
    && (forall k :: 0 <= k < |s.served| ==> ResponseOk(s.rows, s.served[k]))
  }

  /** Rows are written once and never change. */
  predicate WriteOnce(rows: Table, later: Table) {
    forall hour :: hour in rows ==> hour in later && later[hour] == rows[hour]
  }

  lemma GrownTable(enc: Encoder, rows: Table, later: Table)
    requires WriteOnce(rows, later)
    ensures forall r :: RequestOk(enc, rows, r) ==> RequestOk(enc, later, r)
    ensures forall r :: ResponseOk(rows, r) ==> ResponseOk(later, r)
  {
    forall r | ResponseOk(rows, r) ensures ResponseOk(later, r) {
      var hour :| IsRow(rows, hour, r.document, r.signatures) && r.now < hour + VALID_WINDOW;
      assert IsRow(later, hour, r.document, r.signatures);
    }
  }

  lemma InsertInv(enc: Encoder, s: State, id: nat, end: InsertEnd)
    requires Inv(enc, s) && id in s.requests && s.requests[id].stage.Inserting?
    ensures Inv(enc, AfterInsert(s, id, end)) && WriteOnce(s.rows, AfterInsert(s, id, end).rows)
  {
    hide DocumentFor, Admissible;
    var t := AfterInsert(s, id, end);
    assert RequestOk(enc, s.rows, s.requests[id]);
    GrownTable(enc, s.rows, t.rows);
  }

  lemma ServeInv(enc: Encoder, s: State, id: nat)
    requires Inv(enc, s) && id in s.requests
    ensures Inv(enc, AfterFallBack(s, id))
    ensures s.requests[id].stage.Remembering? ==> Inv(enc, AfterRemember(s, id))
  {
    hide AfterFallBack, AfterRemember, Inv;
    FallBackInv(enc, s, id);
    if s.requests[id].stage.Remembering? {
      RememberInv(enc, s, id);
    }
  }

  lemma FallBackInv(enc: Encoder, s: State, id: nat)
    requires Inv(enc, s) && id in s.requests
    ensures Inv(enc, AfterFallBack(s, id))
  {
    hide RowFor;
    var r := s.requests[id];
    if r.instance in s.copies && r.now < s.copies[r.instance].until {
      var copy := s.copies[r.instance];
      assert IsRow(s.rows, copy.until - VALID_WINDOW, copy.document, copy.signatures);
      assert ResponseOk(s.rows, Response(r.now, copy.document, copy.signatures));
    }
    hide ResponseOk;
  }

  lemma RememberInv(enc: Encoder, s: State, id: nat)
    requires Inv(enc, s) && id in s.requests && s.requests[id].stage.Remembering?
    ensures Inv(enc, AfterRemember(s, id))
  {
    hide RowFor;
    var r := s.requests[id];
    assert RequestOk(enc, s.rows, r);
    HourFacts(r.now);
    assert IsRow(s.rows, HourOf(r.now), r.stage.document, r.stage.signatures);
    assert ResponseOk(s.rows, Response(r.now, r.stage.document, r.stage.signatures));
    hide ResponseOk;
  }

  lemma SelectInv(enc: Encoder, s: State, id: nat, ok: bool, missing: Stage)
    requires Inv(enc, s) && id in s.requests && (missing == Building || missing == FallingBack)
    ensures Inv(enc, AfterSelect(s, id, ok, missing)) && AfterSelect(s, id, ok, missing).rows == s.rows
  {
    hide RowFor, ResponseOk;
  }

  lemma BuildInv(enc: Encoder, s: State, id: nat, relays: seq<RelayEntry>, sigs: seq<SignatureEntry>)
    requires Inv(enc, s) && id in s.requests
    ensures Inv(enc, Go(s, id, Inserting(enc.marshal(DocumentFor(HourOf(s.requests[id].now), relays)), sigs)))
    ensures Inv(enc, Go(s, id, FallingBack))
  {
    hide RowFor, ResponseOk, DocumentFor;
  }

  lemma StepInv(enc: Encoder, s: State, e: Event)
    requires Inv(enc, s) && Enabled(s, e)
    ensures Inv(enc, Step(enc, s, e)) && WriteOnce(s.rows, Step(enc, s, e).rows)
  {
    hide RowFor, ResponseOk, DocumentFor, AfterInsert, AfterSelect, AfterFallBack, AfterRemember, Go;
    match e
    case Begin(_, _, _) =>
    case Load(id, ok) => SelectInv(enc, s, id, ok, Building);
    case Build(id, _, relays, sigs) => BuildInv(enc, s, id, relays, sigs); GoKeepsRows(s, id);
    case Insert(id, end) => InsertInv(enc, s, id, end);
    case Reload(id, ok) => SelectInv(enc, s, id, ok, FallingBack);
    case Remember(id) => ServeInv(enc, s, id); ServeKeepsRows(s, id);
    case FallBack(id) => ServeInv(enc, s, id); ServeKeepsRows(s, id);
    case Crash(_) =>
  }

  lemma GoKeepsRows(s: State, id: nat)
    requires id in s.requests
    ensures forall stage :: Go(s, id, stage).rows == s.rows
  {
  }

  lemma ServeKeepsRows(s: State, id: nat)
    requires id in s.requests
    ensures AfterFallBack(s, id).rows == s.rows
    ensures s.requests[id].stage.Remembering? ==> AfterRemember(s, id).rows == s.rows
  {
  }

  lemma {:induction false} RunInv(enc: Encoder, s: State, es: seq<Event>, t: State)
    requires Inv(enc, s) && Run(enc, s, es, t)
    ensures Inv(enc, t) && WriteOnce(s.rows, t.rows)
    decreases |es|
  {
    hide Inv;
    if es != [] {
      StepInv(enc, s, es[0]);
      RunInv(enc, Step(enc, s, es[0]), es[1..], t);
    }
  }

  // ---- What clients see ----

  /** The one document published under each version. */
  function ByVersion(rows: Table): map<int, seq<byte>> {
    map v | v in set hour | hour in rows :: VersionFor(hour) :: if 3600 * v in rows then rows[3600 * v].document else []
  }

  /**
   After any run of any number of instances: every response carries the document and the signatures
   of the one row of the hour it names, that hour's validity has not passed by the request's clock, and a document's
   version is its hour. Rows written before a run are still there, unchanged, after it.
   */
  lemma ServedIsTheRow(c: Codec, enc: Encoder, es: seq<Event>, t: State, k: nat)
    requires ReadsBack(c, enc) && Run(enc, EMPTY, es, t) && k < |t.served|
    ensures var r := t.served[k];
            && c.parseDocument(r.document).Some?
            && var version := c.parseDocument(r.document).value.version;
              && version > 0 && IsRow(t.rows, 3600 * version, r.document, r.signatures)
              && r.now < 3600 * version + VALID_WINDOW
  {
    hide Format, DocumentFor, Run;
    RunInv(enc, EMPTY, es, t);
    var r := t.served[k];
    assert ResponseOk(t.rows, r);
    var hour :| IsRow(t.rows, hour, r.document, r.signatures) && r.now < hour + VALID_WINDOW;
    RowReadsBack(c, enc, hour, t.rows[hour]);
  }

  lemma RowReadsBack(c: Codec, enc: Encoder, hour: int, row: Row)
    requires ReadsBack(c, enc) && RowFor(enc, hour, row)
    ensures c.parseDocument(row.document).Some?
    ensures c.parseDocument(row.document).value.version == row.version && hour == 3600 * row.version && row.version > 0
  {
    hide Format;
    var relays :| row.document == enc.marshal(DocumentFor(hour, relays));
  }

  function BodyFor(enc: Encoder, r: Response): seq<byte> {
    enc.wrap(r.document, r.signatures)
  }

  /** No client, fed these responses in any order and number and restarted at will, sees equivocation. */
  lemma NoEquivocation(c: LawfulCodecs, enc: Encoder, es: seq<Event>, t: State, fed: seq<Cache.Event>)
    requires ReadsBack(c, enc) && Run(enc, EMPTY, es, t)
    requires forall i :: 0 <= i < |fed| && Cache.BodyOf(fed[i]).Some? ==>
               exists k :: 0 <= k < |t.served| && Cache.BodyOf(fed[i]).value == BodyFor(enc, t.served[k])
    ensures forall i :: 0 <= i < |fed| ==>
              var err := Cache.ErrorOf(c, Cache.Execute(c, fed[..i]).held, fed[i]);
              err.Some? ==> !err.value.Equivocation?
  {
    var pub := ByVersion(t.rows);
    forall i | 0 <= i < |fed| && Cache.BodyOf(fed[i]).Some?
      ensures Cache.Published(c, pub, Cache.BodyOf(fed[i]).value)
    {
      var k :| 0 <= k < |t.served| && Cache.BodyOf(fed[i]).value == BodyFor(enc, t.served[k]);
      ServedIsTheRow(c, enc, es, t, k);
      ResponseIsPublished(c, enc, t.rows, t.served[k]);
    }
    Cache.HonestRun(c, pub, fed);
  }

  lemma ResponseIsPublished(c: Codec, enc: Encoder, rows: Table, r: Response)
    requires ReadsBack(c, enc) && c.parseDocument(r.document).Some?
    requires var version := c.parseDocument(r.document).value.version;
             version > 0 && IsRow(rows, 3600 * version, r.document, r.signatures)
    ensures Cache.Published(c, ByVersion(rows), BodyFor(enc, r))
  {
    var version := c.parseDocument(r.document).value.version;
    assert VersionFor(3600 * version) == version;
    assert version in ByVersion(rows) && ByVersion(rows)[version] == r.document;
    assert EnvelopeBytes(c, enc.wrap(r.document, r.signatures)) == Ok(r.document);
  }

  /** A published document passes a client's validity check from a minute early until its window ends. */
  lemma PublishedDocumentIsValid(hour: int, relays: seq<RelayEntry>, now: int)
    requires hour % 3600 == 0
    requires -999 <= FieldsAt(hour).date.y && FieldsAt(hour + VALID_WINDOW).date.y <= 9999
    requires FieldsAt(hour).date.y <= 9999 && -999 <= FieldsAt(hour + VALID_WINDOW).date.y
    ensures CheckValidity(DocumentFor(hour, relays), now).Ok?
            <==> hour - SKEW_ALLOWANCE_SECS <= now < hour + VALID_WINDOW
  {
    hide Parse, Format, FieldsAt;
    ParseInvertsFormat(hour);
    ParseInvertsFormat(hour + VALID_WINDOW);
    ExactHour(hour);
  }

  // ---- What is served is accepted ----

  lemma SinceTheEpoch(unix: int)
    requires unix >= 0
    ensures FieldsAt(unix).date.y >= 1970
  {
    hide Civil.CivilFromDays, Civil.DayNumber;
    var t := Civil.CivilFromDays(unix / 86400);
    Civil.CivilIsRealDate(unix / 86400);
    Civil.EpochExists();
    Civil.DayNumberIsMonotone(t, Civil.EPOCH);
  }

  /** The stamps of this hour's document have four-digit years. */
  predicate ShortYears(hour: int) {
    FieldsAt(hour).date.y <= 9999 && FieldsAt(hour + VALID_WINDOW).date.y <= 9999
  }

  /** A row's document passes a client's validity check exactly within its window, from a minute early. */
  lemma RowIsCurrentIff(c: Codec, enc: Encoder, hour: int, row: Row, now: int)
    requires ReadsBack(c, enc) && RowFor(enc, hour, row) && ShortYears(hour)
    ensures c.parseDocument(row.document).Some?
    ensures InWindow(c.parseDocument(row.document).value, now)
            <==> hour - SKEW_ALLOWANCE_SECS <= now < hour + VALID_WINDOW
  {
    hide DocumentFor, InWindow, FieldsAt, CheckValidity;
    var relays :| row.document == enc.marshal(DocumentFor(hour, relays));
    SinceTheEpoch(hour);
    SinceTheEpoch(hour + VALID_WINDOW);
    PublishedDocumentIsValid(hour, relays, now);
    ValidityIsWindow(DocumentFor(hour, relays), now);
  }

  /** What a file written from this table allows: any version not below the one recorded. */
  lemma GoesOnFromTable(c: Codec, rows: Table, version: int, bytes: seq<byte>, previous: Option<StoredState>)
    requires Cache.FileFrom(c, ByVersion(rows), previous)
    requires version in ByVersion(rows) && ByVersion(rows)[version] == bytes
    ensures GoesOn(c, version, bytes, previous) <==> (previous.Some? ==> previous.value.highest <= version)
  {
  }

  /**
   Any response any instance ever serves, if enough pinned keys signed it, is accepted by a client
   whose file, if any, was written from the same table: exactly within the document's window, from a
   minute early, and exactly if the client has not recorded a later version.
   */
  lemma ServedIsAcceptedIff(c: LawfulCodecs, enc: Encoder, es: seq<Event>, t: State, k: nat,
                            pinned: seq<PinnedKey>, threshold: nat, now: int, previous: Option<StoredState>)
    requires ReadsBack(c, enc) && Run(enc, EMPTY, es, t) && k < |t.served| && threshold >= 1
    requires |Vouchers(c, pinned, SignedMessage(t.served[k].document), t.served[k].signatures)| >= threshold
    requires Cache.FileFrom(c, ByVersion(t.rows), previous)
    ensures c.parseDocument(t.served[k].document).Some?
    ensures var v := c.parseDocument(t.served[k].document).value.version;
            ShortYears(3600 * v) ==>
              (VerifyResult(c, BodyFor(enc, t.served[k]), pinned, threshold, now, previous).Ok? <==>
                 && 3600 * v - SKEW_ALLOWANCE_SECS <= now < 3600 * v + VALID_WINDOW
                 && (previous.Some? ==> previous.value.highest <= v))
  {
    hide Vouchers, InWindow, GoesOn, ShortYears, Run, Cache.FileFrom, ByVersion, Cache.Published, RowFor;
    var r := t.served[k];
    ServedIsTheRow(c, enc, es, t, k);
    RunInvFromEmpty(enc, es, t);
    var v := c.parseDocument(r.document).value.version;
    VersionsOfRows(t.rows, v, r);
    if ShortYears(3600 * v) {
      RowIsCurrentIff(c, enc, 3600 * v, t.rows[3600 * v], now);
      GoesOnFromTable(c, t.rows, v, r.document, previous);
      AcceptedMeans(c, BodyFor(enc, r), pinned, threshold, now, previous);
    }
  }

  lemma TableVersions(enc: Encoder, rows: Table, v: int)
    requires (forall hour :: hour in rows ==> RowFor(enc, hour, rows[hour])) && v in ByVersion(rows)
    ensures v > 0
  {
    hide DocumentFor;
    var hour :| hour in rows && VersionFor(hour) == v;
    assert Admissible(hour, rows[hour]) by { assert RowFor(enc, hour, rows[hour]); }
  }

  /** And so a cache with such a file and a working disk ends up holding exactly that document. */
  lemma ServedIsHeldIff(c: LawfulCodecs, enc: Encoder, es: seq<Event>, t: State, k: nat,
                        cfg: Cache.Config, s: Cache.Held, now: int)
    requires ReadsBack(c, enc) && Run(enc, EMPTY, es, t) && k < |t.served| && cfg.threshold >= 1
    requires |Vouchers(c, cfg.pinned, SignedMessage(t.served[k].document), t.served[k].signatures)| >= cfg.threshold
    requires Cache.FileFrom(c, ByVersion(t.rows), s.file)
    ensures c.parseDocument(t.served[k].document).Some?
    ensures var v := c.parseDocument(t.served[k].document).value.version;
            var (u, r) := Cache.AcceptedBody(c, cfg, s, BodyFor(enc, t.served[k]), now, Cache.Io(true, true, true));
            ShortYears(3600 * v) ==>
              && (r.Ok? <==> && 3600 * v - SKEW_ALLOWANCE_SECS <= now < 3600 * v + VALID_WINDOW
                             && (s.file.Some? ==> s.file.value.highest <= v))
              && (r.Ok? ==> u.current.Some? && u.current.value.bytes == t.served[k].document
                            && u.file.Some? && u.file.value.highest == v)
  {
    hide Vouchers, ShortYears, Run, ByVersion, VerifyResult, ReadsBack, Cache.AcceptedBody, Cache.FileFrom, Inv;
    hide EnvelopeBytes, Cache.Records;
    RunInvFromEmpty(enc, es, t);
    ServedIsAcceptedIff(c, enc, es, t, k, cfg.pinned, cfg.threshold, now, s.file);
    FileVersions(c, enc, t, s.file);
    Cache.AcceptedOkIff(c, cfg, s, BodyFor(enc, t.served[k]), now, Cache.Io(true, true, true));
    assert EnvelopeBytes(c, BodyFor(enc, t.served[k])) == Ok(t.served[k].document) by { Wrapped(c, enc, t.served[k]); }
  }

  lemma FileVersions(c: Codec, enc: Encoder, t: State, file: Option<StoredState>)
    requires Inv(enc, t) && Cache.FileFrom(c, ByVersion(t.rows), file)
    ensures file.Some? ==> file.value.highest > 0
  {
    hide ByVersion, RowFor, RequestOk, ResponseOk;
    if file.Some? {
      TableVersions(enc, t.rows, file.value.highest);
    }
  }

  lemma Wrapped(c: Codec, enc: Encoder, r: Response)
    requires ReadsBack(c, enc)
    ensures EnvelopeBytes(c, BodyFor(enc, r)) == Ok(r.document)
  {
  }

  lemma RunInvFromEmpty(enc: Encoder, es: seq<Event>, t: State)
    requires Run(enc, EMPTY, es, t)
    ensures Inv(enc, t)
  {
    RunInv(enc, EMPTY, es, t);
  }

  lemma VersionsOfRows(rows: Table, v: int, r: Response)
    requires v > 0 && IsRow(rows, 3600 * v, r.document, r.signatures)
    ensures v in ByVersion(rows) && ByVersion(rows)[v] == r.document
  {
    assert VersionFor(3600 * v) == v;
  }

  // ---- What is published ----

  lemma LaterYears(a: int, b: int)
    requires a <= b
    ensures FieldsAt(a).date.y <= FieldsAt(b).date.y
  {
    hide Civil.CivilFromDays, Civil.DayNumber;
    var s, t := Civil.CivilFromDays(a / 86400), Civil.CivilFromDays(b / 86400);
    assert a / 86400 <= b / 86400;
    Civil.CivilIsRealDate(a / 86400);
    Civil.CivilIsRealDate(b / 86400);
    Civil.DayNumberIsMonotone(t, s);
  }

  /** The document for an hour: these relays, this hour's version, fresh for one hour and valid for six. */
  lemma PublishedSays(c: Codec, enc: Encoder, hour: int, relays: seq<RelayEntry>)
    requires ReadsBack(c, enc) && hour % 3600 == 0 && hour > 0 && ShortYears(hour)
    ensures var d := c.parseDocument(enc.marshal(DocumentFor(hour, relays)));
            && d.Some? && d.value.relays == relays && 3600 * d.value.version == hour
            && Parse(d.value.validAfter) == Some(hour)
            && Parse(d.value.freshUntil) == Some(hour + 3600)
            && Parse(d.value.validUntil) == Some(hour + 6 * 3600)
  {
    hide Parse, Format, FieldsAt;
    HourFacts(hour);
    SinceTheEpoch(hour);
    LaterYears(hour, hour + FRESH_WINDOW);
    LaterYears(hour + FRESH_WINDOW, hour + VALID_WINDOW);
    ParseInvertsFormat(hour);
    ParseInvertsFormat(hour + FRESH_WINDOW);
    ParseInvertsFormat(hour + VALID_WINDOW);
  }

  /** Some query of the active relays in the run gave exactly these relays, and its signer these signatures. */
  ghost predicate Built(c: Codec, es: seq<Event>, document: seq<byte>, signatures: seq<SignatureEntry>) {
    exists i :: 0 <= i < |es| && BuiltBy(c, es[i], document, signatures)
  }

  predicate BuiltBy(c: Codec, e: Event, document: seq<byte>, signatures: seq<SignatureEntry>) {
    && e.Build? && e.ok && e.sigs == signatures
    && c.parseDocument(document).Some? && c.parseDocument(document).value.relays == e.relays
  }

  lemma BuiltSnoc(c: Codec, es: seq<Event>, e: Event, document: seq<byte>, signatures: seq<SignatureEntry>)
    ensures Built(c, es, document, signatures) ==> Built(c, es + [e], document, signatures)
    ensures BuiltBy(c, e, document, signatures) ==> Built(c, es + [e], document, signatures)
  {
    if Built(c, es, document, signatures) {
      var i :| 0 <= i < |es| && BuiltBy(c, es[i], document, signatures);
      assert (es + [e])[i] == es[i];
    }
    assert (es + [e])[|es|] == e;
  }

  ghost predicate AllBuilt(c: Codec, es: seq<Event>, s: State) {
    && (forall hour :: hour in s.rows ==> Built(c, es, s.rows[hour].document, s.rows[hour].signatures))
    && (forall id :: id in s.requests && s.requests[id].stage.Inserting? ==>
          Built(c, es, s.requests[id].stage.document, s.requests[id].stage.signatures))
  }

  lemma StepBuilt(c: Codec, enc: Encoder, es: seq<Event>, s: State, e: Event)
    requires ReadsBack(c, enc) && AllBuilt(c, es, s) && Enabled(s, e)
    ensures AllBuilt(c, es + [e], Step(enc, s, e))
  {
    hide Built, Admissible, DocumentFor, HourOf, VersionFor;
    var t := Step(enc, s, e);
    forall hour | hour in t.rows ensures Built(c, es + [e], t.rows[hour].document, t.rows[hour].signatures) {
      BuiltSnoc(c, es, e, t.rows[hour].document, t.rows[hour].signatures);
    }
    forall id | id in t.requests && t.requests[id].stage.Inserting?
      ensures Built(c, es + [e], t.requests[id].stage.document, t.requests[id].stage.signatures)
    {
      BuiltSnoc(c, es, e, t.requests[id].stage.document, t.requests[id].stage.signatures);
      if e.Build? && e.ok && e.id == id {
        RelaysReadBack(c, enc, HourOf(s.requests[id].now), e.relays);
      }
    }
  }

  lemma RelaysReadBack(c: Codec, enc: Encoder, hour: int, relays: seq<RelayEntry>)
    requires ReadsBack(c, enc)
    ensures var d := c.parseDocument(enc.marshal(DocumentFor(hour, relays))); d.Some? && d.value.relays == relays
  {
    hide Format;
  }

  lemma {:induction false} RunBuilt(c: Codec, enc: Encoder, past: seq<Event>, s: State, es: seq<Event>, t: State)
    requires ReadsBack(c, enc) && AllBuilt(c, past, s) && Run(enc, s, es, t)
    ensures AllBuilt(c, past + es, t)
    decreases |es|
  {
    hide AllBuilt, Step, Enabled, ReadsBack;
    if es == [] {
      assert past + [] == past;
    } else {
      StepBuilt(c, enc, past, s, es[0]);
      RunBuilt(c, enc, past + [es[0]], Step(enc, s, es[0]), es[1..], t);
      assert past + [es[0]] + es[1..] == past + es;
    }
  }

  /** Every response lists exactly the relays some request found active, with the signatures made for them. */
  lemma ServedRelaysWereActive(c: Codec, enc: Encoder, es: seq<Event>, t: State, k: nat)
    requires ReadsBack(c, enc) && Run(enc, EMPTY, es, t) && k < |t.served|
    ensures Built(c, es, t.served[k].document, t.served[k].signatures)
  {
    hide Built, Run, ReadsBack;
    ServedIsTheRow(c, enc, es, t, k);
    RunBuilt(c, enc, [], EMPTY, es, t);
    assert [] + es == es;
  }

  // ---- A request can always be served ----

  /** With the database up, a request at any stage before falling back can be served its hour's row. */
  lemma RequestCanFinish(enc: Encoder, s: State, id: nat, relays: seq<RelayEntry>, sigs: seq<SignatureEntry>)
    returns (es: seq<Event>, t: State)
    requires Inv(enc, s) && id in s.requests && s.requests[id].stage != Done && s.requests[id].stage != FallingBack
    requires HourOf(s.requests[id].now) > 0 && forall d :: enc.marshal(d) != []
    ensures Run(enc, s, es, t) && WriteOnce(s.rows, t.rows)
    ensures var now := s.requests[id].now;
            && HourOf(now) in t.rows
            && t.served == s.served + [Response(now, t.rows[HourOf(now)].document, t.rows[HourOf(now)].signatures)]
    decreases match s.requests[id].stage case Loading => 5 case Building => 4 case Inserting(_, _) => 3
                                         case Reloading => 2 case _ => 1
  {
    hide DocumentFor, Run, ResponseOk, RowFor;
    HourFacts(s.requests[id].now);
    assert RequestOk(enc, s.rows, s.requests[id]);
    var e := match s.requests[id].stage
      case Loading => Load(id, true)
      case Building => Build(id, true, relays, sigs)
      case Inserting(_, _) => Insert(id, Completed)
      case Reloading => Reload(id, true)
      case _ => Remember(id);
    var m := Step(enc, s, e);
    StepInv(enc, s, e);
    if e.Remember? {
      t := m;
      RunOne(enc, s, e);
      es := [e];
    } else {
      var rest;
      rest, t := RequestCanFinish(enc, m, id, relays, sigs);
      RunCons(enc, s, e, rest, t);
      es := [e] + rest;
    }
  }

  /** With the database down, an instance that still holds a valid copy serves it. */
  lemma FallbackIsServed(enc: Encoder, s: State, id: nat)
    requires id in s.requests && s.requests[id].stage == Loading && s.requests[id].instance in s.copies
    requires s.requests[id].now < s.copies[s.requests[id].instance].until
    ensures var copy := s.copies[s.requests[id].instance];
            var t := Step(enc, s, Load(id, false));
            && Enabled(t, FallBack(id))
            && Step(enc, t, FallBack(id)).served
               == s.served + [Response(s.requests[id].now, copy.document, copy.signatures)]
  {
  }

  /** With the database up, a new request is served its hour's row, which it publishes if there is none yet. */
  lemma RequestIsServed(enc: Encoder, s: State, id: nat, instance: nat, now: int,
                        relays: seq<RelayEntry>, sigs: seq<SignatureEntry>)
    returns (es: seq<Event>, t: State)
    requires id !in s.requests && HourOf(now) > 0 && enc.marshal(DocumentFor(HourOf(now), relays)) != []
    ensures Run(enc, s, es, t) && WriteOnce(s.rows, t.rows) && HourOf(now) in t.rows
    ensures HourOf(now) !in s.rows ==>
              t.rows[HourOf(now)] == Row(VersionFor(HourOf(now)), enc.marshal(DocumentFor(HourOf(now), relays)), sigs)
    ensures t.served == s.served + [Response(now, t.rows[HourOf(now)].document, t.rows[HourOf(now)].signatures)]
  {
    hide DocumentFor, Run;
    HourFacts(now);
    var e1, e2, last := Begin(id, instance, now), Load(id, true), Remember(id);
    var s1 := Step(enc, s, e1);
    var s2 := Step(enc, s1, e2);
    if HourOf(now) in s.rows {
      t := Step(enc, s2, last);
      RunOne(enc, s2, last);
      es := [last];
    } else {
      var e3, e4 := Build(id, true, relays, sigs), Insert(id, Completed);
      var s3 := Step(enc, s2, e3);
      var s4 := Step(enc, s3, e4);
      t := Step(enc, s4, last);
      RunOne(enc, s4, last);
      RunCons(enc, s3, e4, [last], t);
      RunCons(enc, s2, e3, [e4] + [last], t);
      es := [e3] + ([e4] + [last]);
    }
    RunCons(enc, s1, e2, es, t);
    RunCons(enc, s, e1, [e2] + es, t);
    es := [e1] + ([e2] + es);
  }

  lemma RunOne(enc: Encoder, s: State, e: Event)
    requires Enabled(s, e)
    ensures Run(enc, s, [e], Step(enc, s, e))
  {
    assert [e][1..] == [];
    assert Run(enc, Step(enc, s, e), [], Step(enc, s, e));
  }

  lemma RunCons(enc: Encoder, s: State, e: Event, es: seq<Event>, t: State)
    requires Enabled(s, e) && Run(enc, Step(enc, s, e), es, t)
    ensures Run(enc, s, [e] + es, t)
  {
    assert ([e] + es)[1..] == es;
  }

  lemma {:induction false} RunAppend(enc: Encoder, s: State, es: seq<Event>, m: State, fs: seq<Event>, t: State)
    requires Run(enc, s, es, m) && Run(enc, m, fs, t)
    ensures Run(enc, s, es + fs, t)
    decreases |es|
  {
    hide Step, Enabled;
    if es == [] {
      assert es + fs == fs;
    } else {
      assert (es + fs)[1..] == es[1..] + fs;
      RunAppend(enc, Step(enc, s, es[0]), es[1..], m, fs, t);
    }
  }

  /**
   After any history of the authority, a client that asks now can be served this hour's document; if
   enough pinned keys signed it and the client has recorded nothing later, the client accepts it.
   */
  lemma AskingNowIsAnswered(c: LawfulCodecs, enc: Encoder, es: seq<Event>, s: State, id: nat, instance: nat, now: int,
                            relays: seq<RelayEntry>, sigs: seq<SignatureEntry>)
    returns (fs: seq<Event>, t: State)
    requires ReadsBack(c, enc) && Run(enc, EMPTY, es, s) && id !in s.requests
    requires HourOf(now) > 0 && ShortYears(HourOf(now)) && enc.marshal(DocumentFor(HourOf(now), relays)) != []
    ensures Run(enc, s, fs, t) && |t.served| == |s.served| + 1
    ensures HourOf(now) !in s.rows ==>
              var r := t.served[|s.served|];
              && c.parseDocument(r.document).Some? && c.parseDocument(r.document).value.relays == relays
              && r.signatures == sigs
    ensures var d := c.parseDocument(t.served[|s.served|].document);
            && d.Some? && Parse(d.value.validAfter) == Some(HourOf(now))
            && Parse(d.value.freshUntil) == Some(HourOf(now) + 3600)
    ensures var r := t.served[|s.served|];
            forall pinned, threshold: nat, previous ::
              && threshold >= 1 && |Vouchers(c, pinned, SignedMessage(r.document), r.signatures)| >= threshold
              && Cache.FileFrom(c, ByVersion(t.rows), previous)
              && (previous.Some? ==> previous.value.highest <= VersionFor(HourOf(now)))
              ==> VerifyResult(c, BodyFor(enc, r), pinned, threshold, now, previous).Ok?
  {
    hide Run, DocumentFor, ShortYears, Vouchers, VerifyResult, Cache.FileFrom, ByVersion;
    fs, t := RequestIsServed(enc, s, id, instance, now, relays, sigs);
    RunAppend(enc, EMPTY, es, s, fs, t);
    var k, hour := |s.served|, HourOf(now);
    var r := t.served[k];
    HourFacts(now);
    RunInvFromEmpty(enc, es + fs, t);
    RowReadsBack(c, enc, hour, t.rows[hour]);
    RelaysReadBack(c, enc, hour, relays);
    assert RowFor(enc, hour, t.rows[hour]);
    var listed :| t.rows[hour].document == enc.marshal(DocumentFor(hour, listed));
    PublishedSays(c, enc, hour, listed);
    forall pinned, threshold: nat, previous: Option<StoredState> |
      && threshold >= 1 && |Vouchers(c, pinned, SignedMessage(r.document), r.signatures)| >= threshold
      && Cache.FileFrom(c, ByVersion(t.rows), previous)
      && (previous.Some? ==> previous.value.highest <= VersionFor(hour))
      ensures VerifyResult(c, BodyFor(enc, r), pinned, threshold, now, previous).Ok?
    {
      ServedIsAcceptedIff(c, enc, es + fs, t, k, pinned, threshold, now, previous);
    }
  }
}
