/**
 The steps of a whole circuit and what every interleaving of them keeps. Each `select!` branch of
 the client and of a relay is one step; cancelled branches leave nothing behind but the bytes in a
 frame buffer; timeouts, shutdowns and broken connections are steps that may happen at any moment.
 */
module Circuits {
  import opened Bytes
  import opened Cells
  import opened Noise
  import opened Layer
  import opened Streams
  import opened Tunnel

  const USER_READ_BUF: nat := CELL_PAYLOAD_LEN * 32
  const DEST_READ_BUF: nat := CELL_PAYLOAD_LEN * 32

  // ---- Relay steps ----

  /** The circuit at hop `h` ends; it takes no further part. */
  function Stop(s: State, h: nat): (t: State)
    requires Shape(s) && h < s.n
    ensures Shape(t) && t.n == s.n
  {
    s.(relays := s.relays[h := s.relays[h].(alive := false)])
  }

  /** The next hop's responder is up and this relay may forward to it. */
  function Opened(s: State, h: nat): (t: State)
    requires Shape(s) && 1 <= h < s.n
    ensures Shape(t) && t.n == s.n
  {
    s.(relays := s.relays[h := s.relays[h].(next := true)][h - 1 := s.relays[h - 1].(up := true)])
  }

  /** The relay sets out to open what it was asked for. */
  function SetsOut(s: State, h: nat, d: Dial): (t: State)
    requires Shape(s) && h < s.n
    ensures Shape(t) && t.n == s.n
  {
    s.(relays := s.relays[h := s.relays[h].(asked := s.relays[h].asked + [d])])
  }

  /**
   What the environment decides in a step: whether a dial or a write succeeds, how much of a failed
   write got out, and the next hop's handshake message.
   */
  datatype Choice = Choice(ok: bool, written: nat, msg2: NoiseMsg)

  function Prefix(s: seq<byte>, n: nat): seq<byte> {
    if n <= |s| then s[..n] else s
  }

  /** A relay acts on a cell addressed to it; every case not listed for its role ends the circuit. */
  function Act(a: Suite, s: State, h: nat, c: Cell, env: Choice): (t: State)
    requires Shape(s) && h < s.n
    ensures Shape(t) && t.n == s.n
  {
    match c.cellType
    case Extend =>
      if h == 0 || s.relays[h].next || DecodeExtend(c.payload).Err? then Stop(s, h)
      else
        var s1 := SetsOut(s, h, ToRelay(DecodeExtend(c.payload).value));
        if !env.ok then Stop(s1, h) else Emit(a, Opened(s1, h), h, Cell(Extend, env.msg2))
    case Connect =>
      if h > 0 || s.relays[h].dest || DecodeConnect(c.payload).Err? then Stop(s, h)
      else
        var s1 := SetsOut(s, h, ToDest(DecodeConnect(c.payload).value));
        if !env.ok then Stop(s1, h) else s1.(relays := s1.relays[h := s1.relays[h].(dest := true)])
    case Data =>
      if h > 0 then Stop(s, h)
      else if c.payload == [] then s
      else if !s.relays[h].dest then Stop(s, h)
      else if !env.ok then Stop(s, h).(destGot := s.destGot + Prefix(c.payload, env.written))
      else s.(destGot := s.destGot + c.payload)
    case CloseRequest => Stop(Emit(a, s, h, Cell(CloseAck, [])), h)
    case CloseAck => Stop(s, h)
  }

  /** A relay peels the frame in its inbound buffer and forwards, acts or fails. */
  function RelayStep(a: Suite, s: State, h: nat, env: Choice): (t: State)
    requires Shape(s) && h < s.n
    ensures Shape(t) && t.n == s.n
  {
    match PeelFrame(a, DownKey(h + 1), s.relays[h].rx, s.fwd[h].buf, h + 1).0
    case Err(_) => Stop(s, h)
    case Ok(Forward(blob)) =>
      if h >= 1 && s.relays[h].next then TakeAndForward(s, h, blob) else Stop(Take(s, h), h)
    case Ok(ToMe(c)) => Act(a, Take(s, h), h, c, env)
  }

  function DataCells(chunks: seq<seq<byte>>): (cs: seq<Cell>)
    ensures |cs| == |chunks| && forall i :: 0 <= i < |cs| ==> cs[i] == Cell(Data, chunks[i])
  {
    seq(|chunks|, i requires 0 <= i < |chunks| => Cell(Data, chunks[i]))
  }

  function EmitAll(a: Suite, s: State, cs: seq<Cell>): (t: State)
    requires Shape(s)
    ensures Shape(t) && t.n == s.n
  {
    if cs == [] then s else Emit(a, EmitAll(a, s, cs[..|cs| - 1]), 0, cs[|cs| - 1])
  }

  /** The exit splits what it read from the destination into cells; a failed write stops it short. */
  function DestBytes(a: Suite, s: State, bytes: seq<byte>, sent: nat): (t: State)
    requires Shape(s)
    ensures Shape(t) && t.n == s.n
  {
    var chunks := Chunks(bytes, CELL_PAYLOAD_LEN);
    var s1 := s.(destRead := s.destRead + bytes);
    if sent < |chunks| then Stop(EmitAll(a, s1, DataCells(chunks[..sent])), 0)
    else EmitAll(a, s1, DataCells(chunks))
  }

  // ---- Client steps ----

  function SendAll(a: Suite, s: State, cs: seq<Cell>): (t: State)
    requires Shape(s) && forall i :: 0 <= i < |cs| ==> cs[i].Fits()
    ensures Shape(t) && t.n == s.n
  {
    if cs == [] then s else Send(a, SendAll(a, s, cs[..|cs| - 1]), cs[|cs| - 1], 0)
  }

  function Quit(s: State): (t: State)
    requires Shape(s)
    ensures Shape(t) && t.n == s.n
  {
    s.(client := s.client.(alive := false))
  }

  /** Best-effort teardown: ask the exit to close, then drop everything. */
  function Teardown(a: Suite, s: State): (t: State)
    requires Shape(s)
    ensures Shape(t) && t.n == s.n
  {
    Quit(Send(a, s, Cell(CloseRequest, []), 0))
  }

  /** Everything read from the user goes out in DATA cells; a failed write ends the circuit. */
  function UserBytes(a: Suite, s: State, bytes: seq<byte>, sent: nat): (t: State)
    requires Shape(s)
    ensures Shape(t) && t.n == s.n
  {
    var chunks := Chunks(bytes, CELL_PAYLOAD_LEN);
    var s1 := s.(userRead := s.userRead + bytes);
    if sent < |chunks| then Teardown(a, SendAll(a, s1, DataCells(chunks[..sent])))
    else SendAll(a, s1, DataCells(chunks))
  }

  /** Send EXTEND to the deepest hop, or CONNECT once that hop is the exit. */
  function Advance(a: Suite, s: State, c: Cell): (t: State)
    requires Shape(s) && c.Fits()
    ensures Shape(t) && t.n == s.n
  {
    var t := Send(a, s, c, s.client.deepest);
    t.(client := t.client.(phase := if s.client.deepest > 0 then Awaiting else Running))
  }

  /** The client peels the frame in its buffer: an EXTEND reply while dialling, a cell afterwards. */
  function ClientFrame(a: Suite, s: State, env: Choice): (t: State)
    requires Shape(s)
    ensures Shape(t) && t.n == s.n
  {
    match PeelDown(a, UpKey, Counter(s.client.rx), s.back[s.n - 1].buf, s.n)
    case Err(_) => if s.client.phase == Running then Teardown(a, s) else Quit(s)
    case Ok((c, l)) =>
      var t := Receive(s, l - 1);
      if s.client.phase != Running then
        if l - 1 == s.client.deepest && l >= 2 && c.cellType == Extend && ParseExtendBackward(c.payload).Ok? && env.ok
        then t.(client := t.client.(phase := Ready, deepest := s.client.deepest - 1))
        else Quit(t)
      else if c.cellType != Data then Teardown(a, t)
      else if c.payload == [] then t
      else if !env.ok then Teardown(a, t.(userGot := t.userGot + Prefix(c.payload, env.written)))
      else t.(userGot := t.userGot + c.payload)
  }

  // ---- Runs ----

  datatype Event =
    | Arrive(downward: bool, h: nat, k: nat)
    | Break(downward: bool, h: nat, keep: nat)
    | RelayFrame(h: nat, env: Choice)
    | RelayReturn(h: nat)
    | DestData(bytes: seq<byte>, sent: nat)
    | DestEof
    | RelayFail(h: nat)
    | ClientExtend(ext: ExtendForward)
    | ClientConnect(dst: ConnectPayload)
    | ClientReads(env: Choice)
    | UserData(bytes: seq<byte>, sent: nat)
    | UserEof
    | ClientFail

  predicate Enabled(s: State, e: Event)
    requires Shape(s)
  {
    match e
    case Arrive(downward, h, k) =>
      && h < s.n
      && var l := (if downward then s.fwd else s.back)[h]; 1 <= k <= |l.wire| && |l.buf| + k <= LinkCellLen(h + 1)
    case Break(downward, h, keep) => h < s.n && keep <= |(if downward then s.fwd else s.back)[h].wire|
    case RelayFrame(h, _) => h < s.n && s.relays[h].up && s.relays[h].alive && |s.fwd[h].buf| == LinkCellLen(h + 1)
    case RelayReturn(h) =>
      1 <= h < s.n && s.relays[h].alive && s.relays[h].next && |s.back[h - 1].buf| == LinkCellLen(h)
    case DestData(bytes, sent) =>
      && s.relays[0].alive && s.relays[0].dest && 1 <= |bytes| <= DEST_READ_BUF
      && (sent < |Chunks(bytes, CELL_PAYLOAD_LEN)| ==> s.back[0].severed)
    case DestEof => s.relays[0].alive && s.relays[0].dest
    case RelayFail(h) => h < s.n && s.relays[h].up
    case ClientExtend(_) => s.client.alive && s.client.phase == Ready && s.client.deepest > 0
    case ClientConnect(d) =>
      s.client.alive && s.client.phase == Ready && s.client.deepest == 0 && |d.host| <= MAX_CONNECT_HOST_LEN
    case ClientReads(_) => s.client.alive && s.client.phase != Ready && |s.back[s.n - 1].buf| == LinkCellLen(s.n)
    case UserData(bytes, sent) =>
      && s.client.alive && s.client.phase == Running && 1 <= |bytes| <= USER_READ_BUF
      && (sent < |Chunks(bytes, CELL_PAYLOAD_LEN)| ==> s.fwd[s.n - 1].severed)
    case UserEof => s.client.alive && s.client.phase == Running
    case ClientFail => true
  }

  function Step(a: Suite, s: State, e: Event): (t: State)
    requires Shape(s) && Enabled(s, e)
    ensures Shape(t) && t.n == s.n
  {
    match e
    case Arrive(downward, h, k) => Deliver(s, downward, h, k)
    case Break(downward, h, keep) => Sever(s, downward, h, keep)
    case RelayFrame(h, env) => RelayStep(a, s, h, env)
    case RelayReturn(h) => Return(a, s, h)
    case DestData(bytes, sent) => DestBytes(a, s, bytes, sent)
    case DestEof => s.(relays := s.relays[0 := s.relays[0].(dest := false, destEof := true)])
    case RelayFail(h) => Stop(s, h)
    case ClientExtend(ext) => Advance(a, s, Cell(Extend, EncodeExtend(ext)))
    case ClientConnect(dst) => Advance(a, s, Cell(Connect, EncodeConnect(dst).value))
    case ClientReads(env) => ClientFrame(a, s, env)
    case UserData(bytes, sent) => UserBytes(a, s, bytes, sent)
    case UserEof => Teardown(a, s)
    case ClientFail => Quit(s)
  }

  /** `t` is reached from `s` by these events, each enabled when it happens. */
  ghost predicate Run(a: Suite, s: State, es: seq<Event>, t: State)
    requires Shape(s)
    decreases |es|
  {
    if es == [] then t == s
    else Enabled(s, es[0]) && Run(a, Step(a, s, es[0]), es[1..], t)
  }

  // ---- The invariant ----

  predicate AllWrap(xs: seq<Item>, from: nat) {
    forall i :: from <= i < |xs| ==> xs[i].Wrap?
  }

  predicate IsCell(x: Item, t: CellType) {
    x.Own? && x.cell.cellType == t
  }

  /** Nothing has passed between the client and this hop, and the hop knows no next one. */
  predicate Untouched(s: State, h: nat)
    requires Shape(s) && h < s.n
  {
    s.down[h] == [] && s.up[h] == [] && !s.relays[h].next
  }

  /** An intermediate hop: extended, and everything still under way for or from it is forwarded. */
  predicate Forwarding(s: State, h: nat)
    requires Shape(s) && h < s.n
  {
    s.relays[h].next && AllWrap(s.down[h], s.relays[h].rx) && AllWrap(s.up[h], s.client.rx[h])
  }

  /** CONNECT first, then only DATA and the final CLOSE_REQUEST. */
  predicate Application(xs: seq<Item>) {
    && |xs| >= 1 && IsCell(xs[0], Connect) && DecodeConnect(xs[0].cell.payload).Ok?
    && forall i :: 1 <= i < |xs| ==> IsCell(xs[i], Data) || IsCell(xs[i], CloseRequest)
  }

  /** One EXTEND out, at most one reply back, and the next hop is up exactly if the reply was sent. */
  predicate Dialling(s: State, h: nat)
    requires Shape(s) && h < s.n
  {
    && h > 0 && (s.client.alive ==> s.client.rx[h] == 0)
    && |s.down[h]| == 1 && IsCell(s.down[h][0], Extend) && DecodeExtend(s.down[h][0].cell.payload).Ok?
    && if s.relays[h].next then
         && s.relays[h].rx == 1 && |s.up[h]| == 1 && IsCell(s.up[h][0], Extend)
         && ParseExtendBackward(s.up[h][0].cell.payload).Ok?
       else s.up[h] == [] && (s.relays[h].rx == 0 || !s.relays[h].alive)
  }

  predicate Telescope(s: State)
    requires Shape(s)
  {
    var lo := s.client.deepest;
    && (forall h :: lo < h < s.n ==> Forwarding(s, h))
    && (forall h :: 0 <= h < lo ==> Untouched(s, h))
    && (match s.client.phase
        case Ready => Untouched(s, lo)
        case Awaiting => Dialling(s, lo)
        case Running => lo == 0 && Application(s.down[0]))
  }

  /** The destination is connected from the CONNECT until the destination closes. */
  predicate ExitOrder(s: State)
    requires Shape(s)
  {
    var r := s.relays[0];
    if r.rx == 0 then !r.dest && !r.destEof else r.alive && !r.destEof ==> r.dest
  }

  function Read(xs: seq<Item>, n: nat): seq<Item> {
    if n <= |xs| then xs[..n] else xs
  }

  predicate Follows(got: seq<byte>, source: seq<byte>, live: bool) {
    got <= source && (live ==> got == source)
  }

  /** At each end of the exit's stream, what came out is what went in, up to what a failure cut off. */
  predicate Bytestreams(s: State)
    requires Shape(s)
  {
    && Follows(Payload(s.down[0]), s.userRead, s.client.alive)
    && Follows(s.destGot, Payload(Read(s.down[0], s.relays[0].rx)), s.relays[0].alive)
    && Follows(Payload(s.up[0]), s.destRead, s.relays[0].alive)
    && Follows(s.userGot, Payload(Read(s.up[0], s.client.rx[0])), s.client.alive)
  }

  ghost predicate Inv(a: Suite, s: State) {
    Shape(s) && Core(a, s) && Telescope(s) && ExitOrder(s) && Bytestreams(s)
  }

  // ---- Every step keeps it ----

  /** Flags outside the streams do not matter to them. */
  lemma SameStreams(a: Suite, s: State, t: State)
    requires Core(a, s) && Shape(t) && t.n == s.n
    requires t.client.tx == s.client.tx && t.client.rx == s.client.rx
    requires t.fwd == s.fwd && t.back == s.back && t.down == s.down && t.up == s.up
    requires forall h :: 0 <= h < s.n ==> t.relays[h].rx == s.relays[h].rx && t.relays[h].tx == s.relays[h].tx
    ensures Core(a, t)
  {
    DownKept(a, s, t);
    UpKept(a, s, t);
  }

  lemma ReadStep(xs: seq<Item>, n: nat)
    requires n < |xs|
    ensures Payload(Read(xs, n + 1)) == Payload(Read(xs, n)) + DataOf(xs[n])
  {
    assert xs[..n + 1] == xs[..n] + [xs[n]];
    PayloadSnoc(xs[..n], xs[n]);
  }

  lemma ReadSnoc(xs: seq<Item>, x: Item, n: nat)
    requires n <= |xs|
    ensures Read(xs + [x], n) == Read(xs, n)
  {
  }

  /** Which hop a pending item can be for: wrapped ones above the deepest hop, cells only at it. */
  lemma Addressee(s: State, h: nat)
    requires Shape(s) && Telescope(s) && h < s.n
    requires s.relays[h].rx < |s.down[h]| && Sound(s.down[h][s.relays[h].rx], h)
    ensures s.down[h][s.relays[h].rx].Wrap? ==> Forwarding(s, h)
    ensures s.down[h][s.relays[h].rx].Own? ==> h == s.client.deepest
    ensures s.down[h][s.relays[h].rx].Own? && h > 0 ==> Dialling(s, h)
    ensures s.down[h][s.relays[h].rx].Own? && h == 0 ==> Application(s.down[0]) && s.client.phase == Running
  {
    assert h < s.client.deepest ==> Untouched(s, h);
    assert h > s.client.deepest ==> Forwarding(s, h);
  }

  /** A forwarded frame always finds an open next link. */
  lemma ForwardInv(a: Suite, s: State, h: nat, env: Choice)
    requires Inv(a, s) && Enabled(s, RelayFrame(h, env))
    requires s.relays[h].rx < |s.down[h]| && s.down[h][s.relays[h].rx].Wrap?
    ensures RelayStep(a, s, h, env).relays[h].alive
    ensures Inv(a, RelayStep(a, s, h, env))
  {
    hide Core, PeelFrame;
    TakePeels(a, s, h);
    Addressee(s, h);
    TakeAndForwardCore(a, s, h);
    var t := RelayStep(a, s, h, env);
    assert t == TakeAndForward(s, h, s.down[h][s.relays[h].rx].blob);
    assert Telescope(t) by {
      forall j | s.client.deepest < j < s.n ensures Forwarding(t, j) {
        assert Forwarding(s, j);
      }
      forall j | 0 <= j < s.client.deepest ensures Untouched(t, j) {
        assert Untouched(s, j);
      }
    }
  }

  /** How a relay answers an EXTEND it accepts, or gives up when the next hop cannot be reached. */
  function Extended(a: Suite, s: State, h: nat, ext: ExtendForward, env: Choice): (t: State)
    requires Shape(s) && 1 <= h < s.n
    ensures Shape(t) && t.n == s.n
  {
    var s1 := SetsOut(s, h, ToRelay(ext));
    if env.ok then Emit(a, Opened(s1, h), h, Cell(Extend, env.msg2)) else Stop(s1, h)
  }

  /** What the EXTEND that comes next for hop `h` asks for. */
  function PendingExtend(s: State, h: nat): Result<ExtendForward, CellError>
    requires Shape(s) && h < s.n && s.relays[h].rx < |s.down[h]| && s.down[h][s.relays[h].rx].Own?
  {
    DecodeExtend(s.down[h][s.relays[h].rx].cell.payload)
  }

  /** A cell addressed to a hop before the exit is its EXTEND, and it has not extended yet. */
  lemma ExtendActs(a: Suite, s: State, h: nat, env: Choice)
    requires Inv(a, s) && Enabled(s, RelayFrame(h, env)) && h > 0
    requires s.relays[h].rx < |s.down[h]| && s.down[h][s.relays[h].rx].Own?
    ensures h == s.client.deepest && s.client.phase == Awaiting && Dialling(s, h)
    ensures PendingExtend(s, h).Ok?
    ensures RelayStep(a, s, h, env) == Extended(a, Take(s, h), h, PendingExtend(s, h).value, env)
    ensures Core(a, Take(s, h))
  {
    hide PeelFrame, DecodeExtend;
    TakePeels(a, s, h);
    Addressee(s, h);
    TakeCore(a, s, h);
  }

  lemma ExtendCore(a: Suite, s: State, h: nat, ext: ExtendForward, env: Choice)
    requires Core(a, s) && 1 <= h < s.n
    ensures Core(a, Extended(a, s, h, ext, env))
  {
    var s1 := SetsOut(s, h, ToRelay(ext));
    if env.ok {
      SameStreams(a, s, Opened(s1, h));
      EmitCore(a, Opened(s1, h), h, Cell(Extend, env.msg2));
    } else {
      SameStreams(a, s, Stop(s1, h));
    }
  }

  lemma ExtendTelescope(a: Suite, s: State, h: nat, ext: ExtendForward, env: Choice)
    requires Shape(s) && Telescope(s) && 1 <= h < s.n && s.client.deepest == h && s.client.phase == Awaiting
    requires Dialling(s, h) && !s.relays[h].next && s.relays[h].rx == 0
    ensures Telescope(Extended(a, Take(s, h), h, ext, env))
  {
    hide DecodeExtend;
    var t := Extended(a, Take(s, h), h, ext, env);
    forall j | h < j < s.n ensures Forwarding(t, j) {
      assert Forwarding(s, j);
    }
    forall j | 0 <= j < h ensures Untouched(t, j) {
      assert Untouched(s, j);
    }
  }

  lemma ExtendInv(a: Suite, s: State, h: nat, env: Choice)
    requires Inv(a, s) && Enabled(s, RelayFrame(h, env)) && h > 0
    requires s.relays[h].rx < |s.down[h]| && s.down[h][s.relays[h].rx].Own?
    ensures RelayStep(a, s, h, env).relays[h].alive == env.ok
    ensures Inv(a, RelayStep(a, s, h, env))
  {
    hide Core, RelayStep, Telescope;
    ExtendActs(a, s, h, env);
    ExtendCore(a, Take(s, h), h, PendingExtend(s, h).value, env);
    ExtendTelescope(a, s, h, PendingExtend(s, h).value, env);
  }

  /** Nothing about the telescope depends on who is still alive beyond the deepest hop, or on the exit's own output. */
  lemma SameTelescope(s: State, t: State)
    requires Shape(s) && Shape(t) && t.n == s.n && Telescope(s)
    requires t.client.phase == s.client.phase && t.client.deepest == s.client.deepest
    requires t.client.rx == s.client.rx && t.down == s.down && (t.client.alive ==> s.client.alive)
    requires forall h :: 0 <= h < s.n ==> t.relays[h].next == s.relays[h].next
    requires forall h :: 0 <= h < s.n && (h > 0 || s.client.phase != Running) ==>
               t.relays[h].rx == s.relays[h].rx && t.up[h] == s.up[h] && (t.relays[h].alive ==> s.relays[h].alive)
    ensures Telescope(t)
  {
    forall j | s.client.deepest < j < s.n ensures Forwarding(t, j) {
      assert Forwarding(s, j);
    }
    forall j | 0 <= j < s.client.deepest ensures Untouched(t, j) {
      assert Untouched(s, j);
    }
  }

  /** The exit's own step on the cell `c` that comes next for it. */
  lemma ExitActs(a: Suite, s: State, env: Choice) returns (c: Cell)
    requires Inv(a, s) && Enabled(s, RelayFrame(0, env))
    requires s.relays[0].rx < |s.down[0]| && s.down[0][s.relays[0].rx].Own?
    ensures s.down[0][s.relays[0].rx] == Own(c)
    ensures if s.relays[0].rx == 0 then c.cellType == Connect && DecodeConnect(c.payload).Ok?
            else c.cellType == Data || c.cellType == CloseRequest
    ensures s.client.phase == Running
    ensures RelayStep(a, s, 0, env) == Act(a, Take(s, 0), 0, c, env)
    ensures Core(a, Take(s, 0))
  {
    hide PeelFrame, DecodeConnect;
    TakePeels(a, s, 0);
    Addressee(s, 0);
    TakeCore(a, s, 0);
    c := s.down[0][s.relays[0].rx].cell;
  }

  lemma ExitCore(a: Suite, s1: State, c: Cell, env: Choice)
    requires Core(a, s1) && c.cellType != Extend
    ensures Core(a, Act(a, s1, 0, c, env))
  {
    hide Core, DecodeConnect;
    assert Shape(s1) by { ShapeOf(a, s1); }
    var t := Act(a, s1, 0, c, env);
    if c.cellType == CloseRequest {
      EmitCore(a, s1, 0, Cell(CloseAck, []));
      SameStreams(a, Emit(a, s1, 0, Cell(CloseAck, [])), t);
    } else {
      SameStreams(a, s1, t);
    }
  }

  lemma ShapeOf(a: Suite, s: State)
    requires Core(a, s)
    ensures Shape(s)
  {
  }

  lemma ExitBytes(s: State, c: Cell, env: Choice, a: Suite)
    requires Shape(s) && Bytestreams(s) && ExitOrder(s) && s.relays[0].alive
    requires s.relays[0].rx < |s.down[0]| && s.down[0][s.relays[0].rx] == Own(c) && s.client.rx[0] <= |s.up[0]|
    requires if s.relays[0].rx == 0 then c.cellType == Connect && DecodeConnect(c.payload).Ok?
             else c.cellType == Data || c.cellType == CloseRequest
    ensures var t := Act(a, Take(s, 0), 0, c, env); Bytestreams(t) && ExitOrder(t)
    ensures var t := Act(a, Take(s, 0), 0, c, env);
            t.relays[0].alive || !env.ok || s.relays[0].destEof || c.cellType == CloseRequest
  {
    hide DecodeConnect, Payload;
    var t := Act(a, Take(s, 0), 0, c, env);
    ReadStep(s.down[0], s.relays[0].rx);
    if c.cellType == CloseRequest {
      var ack := Own(Cell(CloseAck, []));
      PayloadSnoc(s.up[0], ack);
      ReadSnoc(s.up[0], ack, s.client.rx[0]);
      assert t.up[0] == s.up[0] + [ack];
    }
  }

  /** The exit stays up unless the client closes, the destination has closed, or a dial or write fails. */
  lemma ExitInv(a: Suite, s: State, env: Choice)
    requires Inv(a, s) && Enabled(s, RelayFrame(0, env))
    requires s.relays[0].rx < |s.down[0]| && s.down[0][s.relays[0].rx].Own?
    ensures var t := RelayStep(a, s, 0, env);
            t.relays[0].alive || !env.ok || s.relays[0].destEof || IsCell(s.down[0][s.relays[0].rx], CloseRequest)
    ensures Inv(a, RelayStep(a, s, 0, env))
  {
    hide Core, DecodeConnect, Payload, RelayStep, Bytestreams, ExitOrder, PeelFrame;
    var c := ExitActs(a, s, env);
    ExitCore(a, Take(s, 0), c, env);
    Bounds(a, s, 0);
    ExitBytes(s, c, env, a);
    SameTelescope(s, Act(a, Take(s, 0), 0, c, env));
  }

  /** A relay only returns frames of a hop the client already knows, so nothing can overtake the dial. */
  lemma ReturnInv(a: Suite, s: State, h: nat)
    requires Inv(a, s) && Enabled(s, RelayReturn(h))
    ensures Inv(a, Return(a, s, h))
  {
    hide Core, Frames, Blobs;
    ReturnCore(a, s, h);
    var t := Return(a, s, h);
    assert |s.up[h - 1]| > 0 by {
      assert Core(a, s);
      ReturnsSomething(a, s, h);
    }
    assert h - 1 >= s.client.deepest by {
      assert h - 1 < s.client.deepest ==> Untouched(s, h - 1);
    }
    assert Telescope(t) by {
      forall j | s.client.deepest < j < s.n ensures Forwarding(t, j) {
        assert Forwarding(s, j);
      }
      forall j | 0 <= j < s.client.deepest ensures Untouched(t, j) {
        assert Untouched(s, j);
      }
    }
  }

  lemma ReturnsSomething(a: Suite, s: State, h: nat)
    requires Core(a, s) && 1 <= h < s.n && |s.back[h - 1].buf| == LinkCellLen(h)
    ensures |s.up[h - 1]| > 0
  {
    hide Lane;
    assert UpAt(a, s, h - 1);
    LaneTake(a, UpKey(h), h - 1, s.up[h - 1], Taken(s, h - 1), |s.up[h - 1]|, s.back[h - 1]);
  }

  /** Only the exit's return stream has grown. */
  predicate OnlyExitEmitted(s: State, t: State)
    requires Shape(s) && Shape(t)
  {
    && t.n == s.n && t.client == s.client && t.fwd == s.fwd && t.down == s.down
    && t.userRead == s.userRead && t.userGot == s.userGot && t.destRead == s.destRead && t.destGot == s.destGot
    && (forall h :: 0 <= h < s.n ==> t.relays[h] == s.relays[h].(tx := t.relays[h].tx))
    && (forall h :: 0 < h < s.n ==> t.up[h] == s.up[h])
    && s.up[0] <= t.up[0]
  }

  lemma ExitOutputTrans(s: State, m: State, t: State)
    requires Shape(s) && Shape(m) && Shape(t)
    ensures OnlyExitEmitted(s, m) && OnlyExitEmitted(m, t) ==> OnlyExitEmitted(s, t)
    ensures OnlyExitEmitted(s, s)
  {
  }

  lemma EmitIsExitOutput(a: Suite, s: State, c: Cell)
    requires Shape(s)
    ensures OnlyExitEmitted(s, Emit(a, s, 0, c))
    ensures Payload(Emit(a, s, 0, c).up[0]) == Payload(s.up[0]) + DataOf(Own(c))
  {
    PayloadSnoc(s.up[0], Own(c));
  }

  lemma {:induction false} EmitAllCore(a: Suite, s: State, cs: seq<Cell>)
    requires Core(a, s) && forall i :: 0 <= i < |cs| ==> cs[i].Fits()
    ensures Core(a, EmitAll(a, s, cs))
  {
    if cs != [] {
      EmitAllCore(a, s, cs[..|cs| - 1]);
      EmitCore(a, EmitAll(a, s, cs[..|cs| - 1]), 0, cs[|cs| - 1]);
    }
  }

  lemma {:induction false} EmitAllBytes(a: Suite, s: State, cs: seq<Cell>)
    requires Shape(s)
    ensures OnlyExitEmitted(s, EmitAll(a, s, cs))
    ensures Payload(EmitAll(a, s, cs).up[0]) == Payload(s.up[0]) + CellBytes(cs)
  {
    hide Emit, Payload, OnlyExitEmitted;
    if cs == [] {
      ExitOutputTrans(s, s, s);
    } else {
      var m, c := EmitAll(a, s, cs[..|cs| - 1]), cs[|cs| - 1];
      EmitAllBytes(a, s, cs[..|cs| - 1]);
      EmitIsExitOutput(a, m, c);
      ExitOutputTrans(s, m, Emit(a, m, 0, c));
    }
  }

  /** The application bytes in a list of cells. */
  function CellBytes(cs: seq<Cell>): seq<byte> {
    if cs == [] then [] else CellBytes(cs[..|cs| - 1]) + DataOf(Own(cs[|cs| - 1]))
  }

  /** Cutting bytes into DATA cells and reading the cells back gives the bytes. */
  lemma {:induction false} CellBytesOfChunks(chunks: seq<seq<byte>>)
    ensures CellBytes(DataCells(chunks)) == Flatten(chunks)
  {
    if chunks != [] {
      var init, last := chunks[..|chunks| - 1], chunks[|chunks| - 1];
      CellBytesOfChunks(init);
      FlattenSnoc(init, last);
      assert chunks == init + [last];
      assert DataCells(chunks)[..|chunks| - 1] == DataCells(init);
    }
  }

  lemma ChunksPrefix(bytes: seq<byte>, m: nat)
    requires m <= |Chunks(bytes, CELL_PAYLOAD_LEN)|
    ensures Flatten(Chunks(bytes, CELL_PAYLOAD_LEN)[..m]) <= bytes
    ensures m == |Chunks(bytes, CELL_PAYLOAD_LEN)| ==> Flatten(Chunks(bytes, CELL_PAYLOAD_LEN)[..m]) == bytes
  {
    var cs := Chunks(bytes, CELL_PAYLOAD_LEN);
    FlattenAppend(cs[..m], cs[m..]);
    assert cs == cs[..m] + cs[m..];
  }

  /** Until the CONNECT goes out, nothing is addressed to the exit. */
  lemma EarlyExit(s: State)
    requires Shape(s) && Telescope(s)
    ensures s.client.phase != Running ==> Untouched(s, 0)
  {
    assert s.client.deepest > 0 ==> Untouched(s, 0);
  }

  lemma DestDataInv(a: Suite, s: State, bytes: seq<byte>, sent: nat)
    requires Inv(a, s) && Enabled(s, DestData(bytes, sent))
    ensures Inv(a, DestBytes(a, s, bytes, sent))
  {
    hide Core, Payload, Flatten, Chunks, EmitAll, CellBytes, Telescope;
    var chunks := Chunks(bytes, CELL_PAYLOAD_LEN);
    var m := if sent < |chunks| then sent else |chunks|;
    assert chunks[..|chunks|] == chunks;
    var s1 := s.(destRead := s.destRead + bytes);
    var cs := DataCells(chunks[..m]);
    var s2 := EmitAll(a, s1, cs);
    var t := DestBytes(a, s, bytes, sent);
    SameStreams(a, s, s1);
    EmitAllCore(a, s1, cs);
    SameStreams(a, s2, t);
    EmitAllBytes(a, s1, cs);
    ChunksPrefix(bytes, m);
    CellBytesOfChunks(chunks[..m]);
    Bounds(a, s, 0);
    EmittedTelescope(s, s1, s2, t);
    assert Read(s2.up[0], s.client.rx[0]) == Read(s.up[0], s.client.rx[0]);
  }

  lemma EmittedTelescope(s: State, s1: State, s2: State, t: State)
    requires Shape(s) && Telescope(s) && ExitOrder(s) && s.relays[0].dest && s1 == s.(destRead := s1.destRead)
    requires Shape(s2) && OnlyExitEmitted(s1, s2) && (t == s2 || t == Stop(s2, 0))
    requires s.relays[0].rx <= |s.down[0]|
    ensures Telescope(t)
  {
    EarlyExit(s);
    SameTelescope(s, t);
  }

  /** Only the client's streams have grown: by cells for the exit and by wrapped frames for the rest. */
  predicate OnlyClientSent(s: State, t: State)
    requires Shape(s) && Shape(t)
  {
    && t.n == s.n && t.client == s.client.(tx := t.client.tx) && t.relays == s.relays
    && t.back == s.back && t.up == s.up
    && t.userRead == s.userRead && t.userGot == s.userGot && t.destRead == s.destRead && t.destGot == s.destGot
    && s.down[0] <= t.down[0]
    && (forall i :: |s.down[0]| <= i < |t.down[0]| ==> IsCell(t.down[0][i], Data) || IsCell(t.down[0][i], CloseRequest))
    && (forall h :: 0 < h < s.n ==> s.down[h] <= t.down[h] && AllWrap(t.down[h], |s.down[h]|))
  }

  lemma ClientOutputTrans(s: State, m: State, t: State)
    requires Shape(s) && Shape(m) && Shape(t)
    ensures OnlyClientSent(s, m) && OnlyClientSent(m, t) ==> OnlyClientSent(s, t)
    ensures OnlyClientSent(s, s)
  {
    if OnlyClientSent(s, m) && OnlyClientSent(m, t) {
      forall h | 0 < h < s.n ensures s.down[h] <= t.down[h] && AllWrap(t.down[h], |s.down[h]|) {
        assert s.down[h] <= m.down[h] <= t.down[h];
      }
    }
  }

  lemma SendIsClientOutput(a: Suite, s: State, c: Cell)
    requires Shape(s) && c.Fits() && (c.cellType == Data || c.cellType == CloseRequest)
    ensures OnlyClientSent(s, Send(a, s, c, 0))
    ensures Payload(Send(a, s, c, 0).down[0]) == Payload(s.down[0]) + DataOf(Own(c))
  {
    hide Onion, Payload;
    var t := Send(a, s, c, 0);
    PayloadSnoc(s.down[0], Own(c));
    assert t.down[0] == s.down[0] + [Own(c)];
    forall h | 0 < h < s.n ensures s.down[h] <= t.down[h] && AllWrap(t.down[h], |s.down[h]|) {
      assert t.down[h] == s.down[h] + [SealedFor(a, s.client.tx, c, 0, h)];
    }
  }

  predicate AllData(cs: seq<Cell>) {
    forall i :: 0 <= i < |cs| ==> cs[i].Fits() && cs[i].cellType == Data
  }

  lemma {:induction false} SendAllCore(a: Suite, s: State, cs: seq<Cell>)
    requires Core(a, s) && AllData(cs)
    ensures Core(a, SendAll(a, s, cs))
  {
    if cs != [] {
      SendAllCore(a, s, cs[..|cs| - 1]);
      SendCore(a, SendAll(a, s, cs[..|cs| - 1]), cs[|cs| - 1], 0);
    }
  }

  lemma {:induction false} SendAllBytes(a: Suite, s: State, cs: seq<Cell>)
    requires Shape(s) && AllData(cs)
    ensures OnlyClientSent(s, SendAll(a, s, cs))
    ensures Payload(SendAll(a, s, cs).down[0]) == Payload(s.down[0]) + CellBytes(cs)
  {
    hide Send, Payload, OnlyClientSent;
    if cs == [] {
      ClientOutputTrans(s, s, s);
    } else {
      var m, c := SendAll(a, s, cs[..|cs| - 1]), cs[|cs| - 1];
      SendAllBytes(a, s, cs[..|cs| - 1]);
      SendIsClientOutput(a, m, c);
      ClientOutputTrans(s, m, Send(a, m, c, 0));
    }
  }

  /** More cells for the exit keep the telescope standing. */
  lemma SentTelescope(s: State, t: State)
    requires Shape(s) && Shape(t) && Telescope(s) && s.client.phase == Running && OnlyClientSent(s, t)
    requires forall h :: 0 <= h < s.n ==> s.relays[h].rx <= |s.down[h]|
    ensures Telescope(t) && ExitOrder(t) == ExitOrder(s)
    ensures Read(t.down[0], s.relays[0].rx) == Read(s.down[0], s.relays[0].rx)
  {
    hide DecodeConnect;
    forall j | 0 < j < s.n ensures Forwarding(t, j) {
      assert Forwarding(s, j);
    }
  }

  lemma AllBounds(a: Suite, s: State)
    requires Core(a, s)
    ensures forall h :: 0 <= h < s.n ==> s.relays[h].rx <= |s.down[h]|
  {
    forall h | 0 <= h < s.n ensures s.relays[h].rx <= |s.down[h]| {
      Bounds(a, s, h);
    }
  }

  lemma TeardownInv(a: Suite, s: State)
    requires Shape(s) && Inv(a, Quit(s)) && s.client.phase == Running
    ensures Inv(a, Teardown(a, s))
  {
    hide Core, Payload, Telescope;
    var q, bye := Quit(s), Cell(CloseRequest, []);
    SendCore(a, q, bye, 0);
    SendIsClientOutput(a, q, bye);
    AllBounds(a, q);
    SentTelescope(q, Send(a, q, bye, 0));
    assert Teardown(a, s) == Send(a, q, bye, 0);
  }

  lemma QuitInv(a: Suite, s: State)
    requires Inv(a, s)
    ensures Inv(a, Quit(s))
  {
    hide Core, Payload;
    SameStreams(a, s, Quit(s));
    SameTelescope(s, Quit(s));
  }

  lemma UserDataInv(a: Suite, s: State, bytes: seq<byte>, sent: nat)
    requires Inv(a, s) && Enabled(s, UserData(bytes, sent))
    ensures Inv(a, UserBytes(a, s, bytes, sent))
  {
    hide Core, Payload, Flatten, Chunks, SendAll, CellBytes, Telescope, Teardown;
    var chunks := Chunks(bytes, CELL_PAYLOAD_LEN);
    var m := if sent < |chunks| then sent else |chunks|;
    assert chunks[..|chunks|] == chunks;
    var s1 := s.(userRead := s.userRead + bytes);
    var cs := DataCells(chunks[..m]);
    var s2 := SendAll(a, s1, cs);
    SameStreams(a, s, s1);
    SendAllCore(a, s1, cs);
    SendAllBytes(a, s1, cs);
    ChunksPrefix(bytes, m);
    CellBytesOfChunks(chunks[..m]);
    AllBounds(a, s);
    SameTelescope(s, s1);
    SentTelescope(s1, s2);
    if sent < |chunks| {
      SameStreams(a, s2, Quit(s2));
      SameTelescope(s2, Quit(s2));
      TeardownInv(a, s2);
    }
  }

  // Dialling: EXTEND to the deepest hop, or CONNECT to the exit.

  lemma AdvanceTelescope(a: Suite, s: State, c: Cell)
    requires Shape(s) && Telescope(s) && c.Fits() && s.client.phase == Ready
    requires forall h :: 0 <= h < s.n ==> s.client.rx[h] <= |s.up[h]| && s.relays[h].rx <= |s.down[h]|
    requires if s.client.deepest > 0 then c.cellType == Extend && DecodeExtend(c.payload).Ok?
             else c.cellType == Connect && DecodeConnect(c.payload).Ok?
    ensures Telescope(Advance(a, s, c))
  {
    hide Onion, DecodeExtend, DecodeConnect;
    var t := Advance(a, s, c);
    var lo := s.client.deepest;
    assert Untouched(s, lo);
    forall j | lo < j < s.n ensures Forwarding(t, j) {
      assert Forwarding(s, j);
    }
    forall j | 0 <= j < lo ensures Untouched(t, j) {
      assert Untouched(s, j);
    }
    assert t.down[lo] == [Own(c)];
  }

  lemma AdvanceInv(a: Suite, s: State, c: Cell)
    requires Inv(a, s) && c.Fits() && s.client.phase == Ready && s.client.alive
    requires if s.client.deepest > 0 then c.cellType == Extend && DecodeExtend(c.payload).Ok?
             else c.cellType == Connect && DecodeConnect(c.payload).Ok?
    ensures Inv(a, Advance(a, s, c))
  {
    hide Core, Onion, DecodeExtend, DecodeConnect, Telescope;
    var t := Advance(a, s, c);
    var sent := Send(a, s, c, s.client.deepest);
    SendCore(a, s, c, s.client.deepest);
    SameStreams(a, sent, t);
    forall h | 0 <= h < s.n ensures s.client.rx[h] <= |s.up[h]| && s.relays[h].rx <= |s.down[h]| {
      Bounds(a, s, h);
    }
    AdvanceTelescope(a, s, c);
    EarlyExit(s);
    assert && Payload(t.down[0]) == Payload(s.down[0])
           && Read(t.down[0], s.relays[0].rx) == Read(s.down[0], s.relays[0].rx) by {
      PayloadSnoc([], Own(c));
      assert [] + [Own(c)] == [Own(c)];
    }
  }

  /** Which hop a cell on its way back can come from. */
  lemma Sender(s: State, k: nat)
    requires Shape(s) && Telescope(s) && k < s.n && s.client.rx[k] < |s.up[k]|
    ensures s.up[k][s.client.rx[k]].Own? ==> k == s.client.deepest
    ensures s.up[k][s.client.rx[k]].Own? && s.client.phase == Awaiting && s.client.alive ==>
              IsCell(s.up[k][s.client.rx[k]], Extend) && ParseExtendBackward(s.up[k][s.client.rx[k]].cell.payload).Ok?
  {
    assert k > s.client.deepest ==> Forwarding(s, k);
    assert k < s.client.deepest ==> Untouched(s, k);
  }

  /** Every frame the client receives decrypts; it holds the awaited reply or a cell from the exit. */
  lemma ClientFinds(a: Suite, s: State, env: Choice) returns (k: nat, c: Cell)
    requires Inv(a, s) && Enabled(s, ClientReads(env))
    ensures k < s.n && s.client.rx[k] < |s.up[k]| && s.up[k][s.client.rx[k]] == Own(c)
    ensures forall j :: k < j < s.n ==> s.client.rx[j] < |s.up[j]| && s.up[j][s.client.rx[j]].Wrap?
    ensures PeelDown(a, UpKey, Counter(s.client.rx), s.back[s.n - 1].buf, s.n) == Ok((c, k + 1))
    ensures s.client.phase == Running ==> k == 0
    ensures s.client.phase == Awaiting ==>
              k == s.client.deepest && c.cellType == Extend && ParseExtendBackward(c.payload).Ok?
    ensures Core(a, Receive(s, k))
  {
    hide Lane, PeelDown;
    var g := s.n - 1;
    assert UpAt(a, s, g);
    LaneTake(a, UpKey(s.n), g, s.up[g], Taken(s, g), |s.up[g]|, s.back[g]);
    k, c := ClientPeels(a, s, s.back[g].buf, g);
    ReceiveCore(a, s, k);
    Sender(s, k);
  }

  lemma ReplyTelescope(s: State)
    requires Shape(s) && Telescope(s) && s.client.phase == Awaiting && s.client.alive && |s.up[s.client.deepest]| > 0
    ensures s.client.deepest > 0
    ensures var t := Receive(s, s.client.deepest);
            Telescope(t.(client := t.client.(phase := Ready, deepest := s.client.deepest - 1)))
  {
    hide DecodeExtend;
    var lo := s.client.deepest;
    assert Dialling(s, lo);
    var r := Receive(s, lo);
    var t := r.(client := r.client.(phase := Ready, deepest := lo - 1));
    forall j | lo - 1 < j < s.n ensures Forwarding(t, j) {
      assert j > lo ==> Forwarding(s, j);
    }
    forall j | 0 <= j < lo ensures Untouched(t, j) {
      assert Untouched(s, j);
    }
  }

  /** While dialling, a reply is always accepted: the circuit gets one hop longer. */
  lemma ReplyInv(a: Suite, s: State, env: Choice)
    requires Inv(a, s) && Enabled(s, ClientReads(env)) && s.client.phase == Awaiting
    ensures Inv(a, ClientFrame(a, s, env))
    ensures env.ok ==> var t := ClientFrame(a, s, env); t.client.alive && t.client.deepest == s.client.deepest - 1
  {
    hide Core, PeelDown, Telescope, Payload;
    var k, c := ClientFinds(a, s, env);
    ReplyTelescope(s);
    var r := Receive(s, k);
    var t := ClientFrame(a, s, env);
    if env.ok {
      SameStreams(a, r, t);
    } else {
      assert t == Quit(r);
      SameStreams(a, r, t);
      RefusedTelescope(s);
    }
  }

  /** A reply the client cannot use still leaves the hops as they were. */
  lemma RefusedTelescope(s: State)
    requires Shape(s) && Telescope(s) && s.client.phase == Awaiting
    ensures Telescope(Quit(Receive(s, s.client.deepest)))
  {
    var t := Quit(Receive(s, s.client.deepest));
    forall j | s.client.deepest < j < s.n ensures Forwarding(t, j) {
      assert Forwarding(s, j);
    }
    forall j | 0 <= j < s.client.deepest ensures Untouched(t, j) {
      assert Untouched(s, j);
    }
  }

  lemma ReceivedTelescope(s: State)
    requires Shape(s) && Telescope(s) && s.client.phase == Running
    ensures Telescope(Receive(s, 0))
  {
    hide DecodeConnect;
    var t := Receive(s, 0);
    forall j | 0 < j < s.n ensures Forwarding(t, j) {
      assert Forwarding(s, j);
    }
  }

  /** While data flows, a DATA cell reaches the user whole and in order. */
  lemma CellInv(a: Suite, s: State, env: Choice)
    requires Inv(a, s) && Enabled(s, ClientReads(env)) && s.client.phase == Running
    ensures Inv(a, ClientFrame(a, s, env))
    ensures s.client.rx[0] < |s.up[0]|
    ensures env.ok && IsCell(s.up[0][s.client.rx[0]], Data) ==> ClientFrame(a, s, env).client.alive
  {
    hide Core, PeelDown, Telescope, Payload, Teardown;
    var k, c := ClientFinds(a, s, env);
    var r := Receive(s, 0);
    ReceivedTelescope(s);
    ReadStep(s.up[0], s.client.rx[0]);
    var t := ClientFrame(a, s, env);
    if c.cellType != Data {
      SameStreams(a, r, Quit(r));
      SameTelescope(r, Quit(r));
      TeardownInv(a, r);
    } else if c.payload == [] {
      assert t == r;
    } else {
      var u := r.(userGot := r.userGot + if env.ok then c.payload else Prefix(c.payload, env.written));
      SameStreams(a, r, u);
      SameTelescope(r, u);
      if !env.ok {
        SameStreams(a, u, Quit(u));
        SameTelescope(u, Quit(u));
        TeardownInv(a, u);
      }
    }
  }

  lemma RelayFrameInv(a: Suite, s: State, h: nat, env: Choice)
    requires Inv(a, s) && Enabled(s, RelayFrame(h, env))
    ensures Inv(a, RelayStep(a, s, h, env))
  {
    hide Core, RelayStep, Telescope, Bytestreams, ExitOrder;
    TakePeels(a, s, h);
    if s.down[h][s.relays[h].rx].Wrap? {
      ForwardInv(a, s, h, env);
    } else if h > 0 {
      ExtendInv(a, s, h, env);
    } else {
      ExitInv(a, s, env);
    }
  }

  lemma NetworkInv(a: Suite, s: State, e: Event)
    requires Inv(a, s) && Enabled(s, e) && (e.Arrive? || e.Break?)
    ensures Inv(a, Step(a, s, e))
  {
    hide Core, Payload;
    if e.Arrive? {
      DeliverCore(a, s, e.downward, e.h, e.k);
    } else {
      SeverCore(a, s, e.downward, e.h, e.keep);
    }
    SameTelescope(s, Step(a, s, e));
  }

  lemma FlagsInv(a: Suite, s: State, e: Event)
    requires Inv(a, s) && Enabled(s, e) && (e.DestEof? || e.RelayFail?)
    ensures Inv(a, Step(a, s, e))
  {
    hide Core, Payload;
    SameStreams(a, s, Step(a, s, e));
    SameTelescope(s, Step(a, s, e));
  }

  /** Every step of every party keeps the invariant. */
  lemma StepInv(a: Suite, s: State, e: Event)
    requires Inv(a, s) && Enabled(s, e)
    ensures Inv(a, Step(a, s, e))
  {
    hide Core, Telescope, Bytestreams, ExitOrder, RelayStep, ClientFrame;
    match e
    case Arrive(_, _, _) => NetworkInv(a, s, e);
    case Break(_, _, _) => NetworkInv(a, s, e);
    case RelayFrame(h, env) => RelayFrameInv(a, s, h, env);
    case RelayReturn(h) => ReturnInv(a, s, h);
    case DestData(bytes, sent) => DestDataInv(a, s, bytes, sent);
    case DestEof => FlagsInv(a, s, e);
    case RelayFail(_) => FlagsInv(a, s, e);
    case ClientExtend(ext) =>
      ExtendDecodeAfterEncode(ext);
      AdvanceInv(a, s, Cell(Extend, EncodeExtend(ext)));
    case ClientConnect(dst) =>
      ConnectDecodeAfterEncode(dst);
      AdvanceInv(a, s, Cell(Connect, EncodeConnect(dst).value));
    case ClientReads(env) =>
      if s.client.phase == Running {
        CellInv(a, s, env);
      } else {
        ReplyInv(a, s, env);
      }
    case UserData(bytes, sent) => UserDataInv(a, s, bytes, sent);
    case UserEof =>
      QuitInv(a, s);
      TeardownInv(a, s);
    case ClientFail => QuitInv(a, s);
  }

  lemma {:induction false} RunInv(a: Suite, s: State, es: seq<Event>, t: State)
    requires Inv(a, s) && Run(a, s, es, t)
    ensures Inv(a, t)
    decreases |es|
  {
    hide Core, Telescope, Bytestreams, ExitOrder, Step, Enabled;
    if es != [] {
      StepInv(a, s, es[0]);
      RunInv(a, Step(a, s, es[0]), es[1..], t);
    }
  }

  /** What any run from a fresh circuit reaches. */
  ghost predicate Reachable(a: Suite, n: nat, s: State) {
    n >= 1 && Shape(s) && exists es :: Run(a, Init(n), es, s)
  }

  lemma ReachableInv(a: Suite, n: nat, s: State)
    requires Reachable(a, n, s)
    ensures Inv(a, s)
  {
    var es :| Run(a, Init(n), es, s);
    InitCore(a, n);
    RunInv(a, Init(n), es, s);
  }
}
