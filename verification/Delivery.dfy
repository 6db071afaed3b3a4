/**
 Progress, the other half of safety: from every reachable state in which nothing has failed, the
 frames under way can be drained and every byte arrives, and any circuit can be built.
 */
module Delivery {
  import opened Bytes
  import opened Cells
  import opened Noise
  import opened Layer
  import opened Streams
  import opened Tunnel
  import opened Circuits
  import opened CircuitFacts
  import Routes

  // ---- Two more invariants ----

  predicate NoneOf(xs: seq<Item>, t: CellType) {
    forall i :: 0 <= i < |xs| ==> !IsCell(xs[i], t)
  }

  predicate OnlyData(xs: seq<Item>) {
    forall i :: 0 <= i < |xs| ==> IsCell(xs[i], Data)
  }

  /** Nobody closes and goes on; a hop is up once the hop before it has extended to it. */
  predicate Orderly(s: State)
    requires Shape(s)
  {
    && (s.client.alive ==> NoneOf(s.down[0], CloseRequest))
    && (s.relays[0].alive ==> OnlyData(s.up[0]))
    && s.relays[s.n - 1].up
    && (forall h :: 1 <= h < s.n && s.relays[h].next ==> s.relays[h - 1].up)
  }

  lemma {:induction false} SendAllOrderly(a: Suite, s: State, cs: seq<Cell>)
    requires Shape(s) && AllData(cs) && Orderly(s)
    ensures Orderly(SendAll(a, s, cs))
  {
    hide Onion;
    if cs != [] {
      SendAllOrderly(a, s, cs[..|cs| - 1]);
    }
  }

  lemma {:induction false} EmitAllOrderly(a: Suite, s: State, cs: seq<Cell>)
    requires Shape(s) && AllData(cs) && Orderly(s)
    ensures Orderly(EmitAll(a, s, cs))
  {
    if cs != [] {
      EmitAllOrderly(a, s, cs[..|cs| - 1]);
    }
  }

  lemma QuitOrderly(a: Suite, s: State)
    requires Shape(s) && Orderly(s)
    ensures Orderly(Quit(s)) && Orderly(Teardown(a, s))
  {
    hide Onion;
  }

  lemma ClientFrameOrderly(a: Suite, s: State, env: Choice)
    requires Shape(s) && Orderly(s)
    ensures Orderly(ClientFrame(a, s, env))
  {
    hide PeelDown, Teardown, Quit, Orderly, ParseExtendBackward;
    QuitOrderly(a, s);
    match PeelDown(a, UpKey, Counter(s.client.rx), s.back[s.n - 1].buf, s.n)
    case Err(_) =>
    case Ok((c, l)) =>
      var t := Receive(s, l - 1);
      SameOrder(s, t);
      var up := if s.client.deepest > 0 then s.client.deepest - 1 else 0;
      SameOrder(s, t.(client := t.client.(phase := Ready, deepest := up)));
      SameOrder(s, t.(userGot := t.userGot + Prefix(c.payload, env.written)));
      SameOrder(s, t.(userGot := t.userGot + c.payload));
      QuitOrderly(a, t);
      QuitOrderly(a, t.(userGot := t.userGot + Prefix(c.payload, env.written)));
  }

  lemma SameOrder(s: State, t: State)
    requires Shape(s) && Shape(t) && t.n == s.n && Orderly(s)
    requires t.relays == s.relays && t.down == s.down && t.up == s.up && (t.client.alive ==> s.client.alive)
    ensures Orderly(t)
  {
  }

  lemma EmitOrderly(a: Suite, s: State, h: nat, c: Cell)
    requires Shape(s) && Orderly(s) && h < s.n && (h == 0 ==> c.cellType == Data)
    ensures Orderly(Emit(a, s, h, c))
  {
  }

  lemma StopOrderly(a: Suite, s: State, h: nat)
    requires Shape(s) && Orderly(s) && h < s.n
    ensures Orderly(Stop(s, h)) && Orderly(Stop(Emit(a, s, h, Cell(CloseAck, [])), h))
  {
  }

  lemma FlagOrderly(s: State, t: State)
    requires Shape(s) && Shape(t) && t.n == s.n && Orderly(s)
    requires t.client.alive == s.client.alive && t.down == s.down && t.up == s.up
    requires forall h :: 0 <= h < s.n ==>
               && t.relays[h].next == s.relays[h].next && t.relays[h].up == s.relays[h].up
               && t.relays[h].alive == s.relays[h].alive
    ensures Orderly(t)
  {
  }

  lemma ActOrderly(a: Suite, s: State, h: nat, c: Cell, env: Choice)
    requires Shape(s) && Orderly(s) && h < s.n
    ensures Orderly(Act(a, s, h, c, env))
  {
    hide DecodeExtend, DecodeConnect, Orderly, Emit;
    StopOrderly(a, s, h);
    if c.cellType == Extend && h > 0 {
      if DecodeExtend(c.payload).Ok? {
        var s1 := SetsOut(s, h, ToRelay(DecodeExtend(c.payload).value));
        FlagOrderly(s, s1);
        StopOrderly(a, s1, h);
        OpenedOrderly(s1, h);
        EmitOrderly(a, Opened(s1, h), h, Cell(Extend, env.msg2));
      }
    } else if c.cellType == Connect && DecodeConnect(c.payload).Ok? {
      var s1 := SetsOut(s, h, ToDest(DecodeConnect(c.payload).value));
      FlagOrderly(s, s1);
      StopOrderly(a, s1, h);
      FlagOrderly(s1, s1.(relays := s1.relays[h := s1.relays[h].(dest := true)]));
    } else if c.cellType == Data {
      FlagOrderly(s, s.(destGot := s.destGot + c.payload));
      FlagOrderly(Stop(s, h), Stop(s, h).(destGot := s.destGot + Prefix(c.payload, env.written)));
    }
  }

  lemma OpenedOrderly(s: State, h: nat)
    requires Shape(s) && Orderly(s) && 1 <= h < s.n
    ensures Orderly(Opened(s, h))
  {
  }

  lemma RelayStepOrderly(a: Suite, s: State, h: nat, env: Choice)
    requires Shape(s) && Orderly(s) && h < s.n
    ensures Orderly(RelayStep(a, s, h, env))
  {
    hide PeelFrame, Orderly, Act;
    StopOrderly(a, s, h);
    FlagOrderly(s, Take(s, h));
    StopOrderly(a, Take(s, h), h);
    match PeelFrame(a, DownKey(h + 1), s.relays[h].rx, s.fwd[h].buf, h + 1).0
    case Err(_) =>
    case Ok(Forward(blob)) =>
      if h >= 1 {
        FlagOrderly(s, TakeAndForward(s, h, blob));
      }
    case Ok(ToMe(c)) => ActOrderly(a, Take(s, h), h, c, env);
  }

  lemma SendOrderly(a: Suite, s: State, c: Cell, target: nat)
    requires Shape(s) && Orderly(s) && c.Fits() && target < s.n && c.cellType != CloseRequest
    ensures Orderly(Send(a, s, c, target))
  {
    hide Onion;
  }

  lemma BytesOrderly(a: Suite, s: State, e: Event)
    requires Shape(s) && Enabled(s, e) && Orderly(s) && (e.UserData? || e.DestData?)
    ensures Orderly(Step(a, s, e))
  {
    hide Chunks, SendAll, EmitAll, Teardown, Orderly;
    var chunks := Chunks(e.bytes, CELL_PAYLOAD_LEN);
    var some := DataCells(if e.sent < |chunks| then chunks[..e.sent] else chunks);
    if e.UserData? {
      var s1 := s.(userRead := s.userRead + e.bytes);
      SameOrder(s, s1);
      SendAllOrderly(a, s1, some);
      QuitOrderly(a, SendAll(a, s1, some));
    } else {
      var s1 := s.(destRead := s.destRead + e.bytes);
      SameOrder(s, s1);
      EmitAllOrderly(a, s1, some);
      StopOrderly(a, EmitAll(a, s1, some), 0);
    }
  }

  lemma AdvanceOrderly(a: Suite, s: State, c: Cell)
    requires Shape(s) && Orderly(s) && c.Fits() && c.cellType != CloseRequest
    ensures Orderly(Advance(a, s, c))
  {
    hide Send, Orderly;
    SendOrderly(a, s, c, s.client.deepest);
    SameOrder(Send(a, s, c, s.client.deepest), Advance(a, s, c));
  }

  lemma ReturnOrderly(a: Suite, s: State, h: nat)
    requires Shape(s) && Orderly(s) && 1 <= h < s.n
    ensures Orderly(Return(a, s, h))
  {
  }

  lemma StepOrderly(a: Suite, s: State, e: Event)
    requires Shape(s) && Enabled(s, e) && Orderly(s)
    ensures Orderly(Step(a, s, e))
  {
    hide Orderly, RelayStep, ClientFrame, UserBytes, DestBytes, Advance, Teardown, Return, EncodeExtend;
    match e
    case RelayFrame(h, env) => RelayStepOrderly(a, s, h, env);
    case RelayReturn(h) => ReturnOrderly(a, s, h);
    case ClientReads(env) => ClientFrameOrderly(a, s, env);
    case ClientExtend(ext) => AdvanceOrderly(a, s, Cell(Extend, EncodeExtend(ext)));
    case ClientConnect(dst) => AdvanceOrderly(a, s, Cell(Connect, EncodeConnect(dst).value));
    case UserEof => QuitOrderly(a, s);
    case ClientFail => QuitOrderly(a, s);
    case UserData(_, _) => BytesOrderly(a, s, e);
    case DestData(_, _) => BytesOrderly(a, s, e);
    case RelayFail(h) => StopOrderly(a, s, h);
    case _ => FlagOrderly(s, Step(a, s, e));
  }

  // ---- Nothing has failed ----

  predicate AllWhole(ls: seq<Link>) {
    forall h :: 0 <= h < |ls| ==> !ls[h].severed
  }

  /** Everyone is alive, no link is broken and the destination has not closed. */
  predicate Intact(s: State)
    requires Shape(s)
  {
    && s.client.alive && !s.relays[0].destEof
    && (forall h :: 0 <= h < s.n ==> s.relays[h].alive)
    && AllWhole(s.fwd) && AllWhole(s.back)
  }

  ghost predicate Good(a: Suite, s: State) {
    Shape(s) && Inv(a, s) && Orderly(s) && Intact(s)
  }

  /** No new bytes were read, and the dial went on by at most the reply that was under way. */
  predicate Onward(s: State, t: State)
    requires Shape(s) && Shape(t)
  {
    && t.n == s.n && t.userRead == s.userRead && t.destRead == s.destRead
    && if s.client.phase == Awaiting && t.client.phase == Ready then t.client.deepest + 1 == s.client.deepest
       else t.client.phase == s.client.phase && t.client.deepest == s.client.deepest
  }

  lemma OnwardTrans(s: State, m: State, t: State)
    requires Shape(s) && Shape(m) && Shape(t)
    ensures Onward(s, m) && Onward(m, t) ==> Onward(s, t)
    ensures Onward(s, s)
  {
  }

  lemma {:induction false} RunAppend(a: Suite, s: State, es: seq<Event>, m: State, fs: seq<Event>, t: State)
    requires Shape(s) && Run(a, s, es, m) && Shape(m) && Run(a, m, fs, t)
    ensures Run(a, s, es + fs, t)
    decreases |es|
  {
    hide Enabled, Step;
    if es == [] {
      assert es + fs == fs;
    } else {
      assert (es + fs)[1..] == es[1..] + fs;
      RunAppend(a, Step(a, s, es[0]), es[1..], m, fs, t);
    }
  }

  lemma RunSnoc(a: Suite, s: State, es: seq<Event>, m: State, e: Event)
    requires Shape(s) && Run(a, s, es, m) && Shape(m) && Enabled(m, e)
    ensures Run(a, s, es + [e], Step(a, m, e))
  {
    hide Enabled, Step;
    assert [e][1..] == [];
    assert Run(a, Step(a, m, e), [], Step(a, m, e));
    RunAppend(a, s, es, m, [e], Step(a, m, e));
  }

  // ---- A frame is read in full ----

  function Load(l: Link): nat {
    |l.buf| + |l.wire|
  }

  /** The frame buffer of one link is filled up. */
  function Filled(s: State, downward: bool, h: nat): (t: State)
    requires Shape(s) && h < s.n
    ensures Shape(t) && t.n == s.n
  {
    var l := (if downward then s.fwd else s.back)[h];
    var k := LinkCellLen(h + 1) - |l.buf|;
    if 0 < k <= |l.wire| then Deliver(s, downward, h, k) else s
  }

  /** An intact link that is not empty holds at least one whole frame. */
  lemma HoldsFrame(a: Suite, s: State, downward: bool, h: nat)
    requires Core(a, s) && h < s.n
    requires var l := (if downward then s.fwd else s.back)[h]; !l.severed && Load(l) > 0
    ensures var l := (if downward then s.fwd else s.back)[h]; Load(l) >= LinkCellLen(h + 1) >= |l.buf|
  {
    LinkBytes(a, s, h);
    assert DownAt(a, s, h) && UpAt(a, s, h);
    var l := (if downward then s.fwd else s.back)[h];
    var k := if downward then Pushed(s, h) - s.relays[h].rx else |s.up[h]| - Taken(s, h);
    assert Load(l) == |l.buf + l.wire| == k * LinkCellLen(h + 1);
    assert k >= 1;
  }

  lemma Fills(a: Suite, s: State, downward: bool, h: nat) returns (es: seq<Event>)
    requires Good(a, s) && h < s.n && Load((if downward then s.fwd else s.back)[h]) > 0
    ensures var t := Filled(s, downward, h);
            && Run(a, s, es, t) && Good(a, t) && Onward(s, t)
            && |(if downward then t.fwd else t.back)[h].buf| == LinkCellLen(h + 1)
  {
    hide Core, Telescope, Bytestreams, ExitOrder, Orderly;
    HoldsFrame(a, s, downward, h);
    var l := (if downward then s.fwd else s.back)[h];
    var k := LinkCellLen(h + 1) - |l.buf|;
    if k == 0 {
      es := [];
    } else {
      var e := Arrive(downward, h, k);
      StepInv(a, s, e);
      StepOrderly(a, s, e);
      assert Run(a, s, [], s);
      RunSnoc(a, s, [], s, e);
      es := [] + [e];
    }
  }

  // ---- A relay handles it ----

  /** A hop that has a frame to read is up. */
  lemma ReaderIsUp(a: Suite, s: State, h: nat)
    requires Inv(a, s) && Orderly(s) && h < s.n && |s.fwd[h].buf| == LinkCellLen(h + 1)
    ensures s.relays[h].up
  {
    hide Core, Bytestreams, ExitOrder, PeelFrame;
    TakePeels(a, s, h);
    assert h < s.client.deepest ==> Untouched(s, h);
    assert h + 1 < s.n ==> Forwarding(s, h + 1);
  }

  /** The frame is gone from its link and the links before it are as they were. */
  predicate TookFrame(s: State, t: State, h: nat)
    requires Shape(s) && Shape(t) && h < s.n
  {
    && Onward(s, t) && Intact(t) && t.client == s.client
    && t.fwd[h] == s.fwd[h].(buf := []) && forall j :: h < j < s.n ==> t.fwd[j] == s.fwd[j]
  }

  lemma ForwardTakes(a: Suite, s: State, h: nat, env: Choice)
    requires Inv(a, s) && Intact(s) && Enabled(s, RelayFrame(h, env))
    requires s.relays[h].rx < |s.down[h]| && s.down[h][s.relays[h].rx].Wrap?
    ensures TookFrame(s, RelayStep(a, s, h, env), h)
  {
    hide Core, Bytestreams, ExitOrder, PeelFrame;
    TakePeels(a, s, h);
    Addressee(s, h);
    var blob := s.down[h][s.relays[h].rx].blob;
    assert RelayStep(a, s, h, env) == TakeAndForward(s, h, blob);
    hide RelayStep, Telescope, Enabled;
  }

  lemma ExtendTakes(a: Suite, s: State, h: nat, env: Choice)
    requires Inv(a, s) && Intact(s) && Enabled(s, RelayFrame(h, env)) && env.ok && h > 0
    requires s.relays[h].rx < |s.down[h]| && s.down[h][s.relays[h].rx].Own?
    ensures TookFrame(s, RelayStep(a, s, h, env), h)
  {
    hide Core, Bytestreams, ExitOrder, PeelFrame, RelayStep, Telescope;
    ExtendActs(a, s, h, env);
  }

  lemma ExitTakes(a: Suite, s: State, env: Choice)
    requires Inv(a, s) && Orderly(s) && Intact(s) && Enabled(s, RelayFrame(0, env)) && env.ok
    requires s.relays[0].rx < |s.down[0]| && s.down[0][s.relays[0].rx].Own?
    ensures TookFrame(s, RelayStep(a, s, 0, env), 0)
  {
    hide Core, Bytestreams, PeelFrame, RelayStep, Telescope, DecodeConnect;
    var c := ExitActs(a, s, env);
  }

  lemma RelayTakes(a: Suite, s: State, h: nat, env: Choice)
    requires Good(a, s) && h < s.n && |s.fwd[h].buf| == LinkCellLen(h + 1) && env.ok
    ensures Enabled(s, RelayFrame(h, env))
    ensures TookFrame(s, Step(a, s, RelayFrame(h, env)), h) && Good(a, Step(a, s, RelayFrame(h, env)))
  {
    hide Core, Bytestreams, ExitOrder, RelayStep, Telescope, TookFrame;
    ReaderIsUp(a, s, h);
    var e := RelayFrame(h, env);
    TakePeels(a, s, h);
    if s.down[h][s.relays[h].rx].Wrap? {
      ForwardTakes(a, s, h, env);
    } else if h > 0 {
      ExtendTakes(a, s, h, env);
    } else {
      ExitTakes(a, s, env);
    }
    StepInv(a, s, e);
    StepOrderly(a, s, e);
    assert Intact(Step(a, s, e)) by { TookMeansIntact(s, Step(a, s, e), h); }
  }

  lemma TookMeansIntact(s: State, t: State, h: nat)
    requires Shape(s) && Shape(t) && h < s.n && TookFrame(s, t, h)
    ensures Intact(t) && Onward(s, t)
  {
  }

  // ---- The links toward the exit drain, guard first ----

  predicate IdleFrom(ls: seq<Link>, h: nat) {
    forall j :: h <= j < |ls| ==> Idle(ls[j])
  }

  lemma OneFrameDown(a: Suite, s: State, h: nat) returns (es: seq<Event>, t: State)
    requires Good(a, s) && h < s.n && IdleFrom(s.fwd, h + 1) && Load(s.fwd[h]) > 0
    ensures Good(a, t) && Run(a, s, es, t) && Onward(s, t)
    ensures t.n == s.n && IdleFrom(t.fwd, h + 1) && Load(t.fwd[h]) < Load(s.fwd[h])
  {
    hide Inv, Orderly, Run, Step, Onward;
    var first := Fills(a, s, true, h);
    var m := Filled(s, true, h);
    var e := RelayFrame(h, Choice(true, 0, Zeros(NOISE_MSG_LEN)));
    RelayTakes(a, m, h, e.env);
    t := Step(a, m, e);
    RunSnoc(a, s, first, m, e);
    es := first + [e];
    assert Onward(m, t);
    OnwardTrans(s, m, t);
  }

  lemma {:induction false} DrainLinkDown(a: Suite, s: State, h: nat) returns (es: seq<Event>, t: State)
    requires Good(a, s) && h < s.n && IdleFrom(s.fwd, h + 1)
    ensures Good(a, t) && Run(a, s, es, t) && Onward(s, t) && t.n == s.n && IdleFrom(t.fwd, h)
    decreases Load(s.fwd[h])
  {
    hide Inv, Orderly, Run, Step, Onward;
    if Load(s.fwd[h]) == 0 {
      es, t := [], s;
      NoSteps(a, s);
    } else {
      var first, m := OneFrameDown(a, s, h);
      var rest;
      rest, t := DrainLinkDown(a, m, h);
      Joined(a, s, first, m, rest, t);
      es := first + rest;
    }
  }

  lemma NoSteps(a: Suite, s: State)
    requires Shape(s)
    ensures Run(a, s, [], s) && Onward(s, s)
  {
  }

  lemma Joined(a: Suite, s: State, es: seq<Event>, m: State, fs: seq<Event>, t: State)
    requires Shape(s) && Shape(m) && Shape(t) && Run(a, s, es, m) && Run(a, m, fs, t) && Onward(s, m) && Onward(m, t)
    ensures Run(a, s, es + fs, t) && Onward(s, t)
  {
    hide Run, Onward;
    RunAppend(a, s, es, m, fs, t);
    OnwardTrans(s, m, t);
  }

  lemma {:induction false} DrainDown(a: Suite, s: State, h: nat) returns (es: seq<Event>, t: State)
    requires Good(a, s) && h <= s.n && IdleFrom(s.fwd, h)
    ensures Good(a, t) && Run(a, s, es, t) && Onward(s, t) && t.n == s.n && IdleFrom(t.fwd, 0)
    decreases h
  {
    hide Inv, Orderly, Run, Step, Onward, IdleFrom;
    if h == 0 {
      es, t := [], s;
      NoSteps(a, s);
    } else {
      var first, m := DrainLinkDown(a, s, h - 1);
      var rest;
      rest, t := DrainDown(a, m, h - 1);
      Joined(a, s, first, m, rest, t);
      es := first + rest;
    }
  }

  // ---- The links toward the client drain, exit first ----

  predicate IdleBelow(ls: seq<Link>, h: nat) {
    forall j :: 0 <= j < h && j < |ls| ==> Idle(ls[j])
  }

  predicate TookReturn(s: State, t: State, h: nat)
    requires Shape(s) && Shape(t) && h < s.n
  {
    && Onward(s, t) && Intact(t) && t.fwd == s.fwd
    && t.back[h] == s.back[h].(buf := []) && forall j :: 0 <= j < h ==> t.back[j] == s.back[j]
  }

  /** A frame comes back only through hops that have extended. */
  lemma ReturnerHasNext(a: Suite, s: State, h: nat)
    requires Inv(a, s) && 1 <= h < s.n && |s.back[h - 1].buf| == LinkCellLen(h)
    ensures s.relays[h].next
  {
    hide Core, Bytestreams, ExitOrder;
    ReturnsSomething(a, s, h);
    assert h - 1 < s.client.deepest ==> Untouched(s, h - 1);
    assert h > s.client.deepest ==> Forwarding(s, h);
  }

  lemma RelayReturns(a: Suite, s: State, h: nat)
    requires Good(a, s) && 1 <= h < s.n && |s.back[h - 1].buf| == LinkCellLen(h)
    ensures Enabled(s, RelayReturn(h))
    ensures TookReturn(s, Step(a, s, RelayReturn(h)), h - 1) && Good(a, Step(a, s, RelayReturn(h)))
  {
    hide Core, Bytestreams, ExitOrder, Telescope, Orderly;
    ReturnerHasNext(a, s, h);
    StepInv(a, s, RelayReturn(h));
    StepOrderly(a, s, RelayReturn(h));
  }

  /** Before the first EXTEND to a hop, nothing comes back from it. */
  lemma AwaitedOrRunning(a: Suite, s: State)
    requires Inv(a, s) && |s.back[s.n - 1].buf| == LinkCellLen(s.n)
    ensures s.client.phase != Ready
  {
    hide Lane, PeelDown, Bytestreams, ExitOrder;
    var g := s.n - 1;
    assert UpAt(a, s, g);
    LaneTake(a, UpKey(s.n), g, s.up[g], Taken(s, g), |s.up[g]|, s.back[g]);
    var k, c := ClientPeels(a, s, s.back[g].buf, g);
    Sender(s, k);
  }

  lemma ReplyTaken(a: Suite, s: State, env: Choice)
    requires Inv(a, s) && Intact(s) && Enabled(s, ClientReads(env)) && env.ok && s.client.phase == Awaiting
    ensures TookReturn(s, ClientFrame(a, s, env), s.n - 1)
  {
    hide Core, PeelDown, Bytestreams, ExitOrder;
    var k, c := ClientFinds(a, s, env);
    assert Dialling(s, k);
  }

  lemma CellTaken(a: Suite, s: State, env: Choice)
    requires Inv(a, s) && Orderly(s) && Intact(s) && Enabled(s, ClientReads(env)) && env.ok && s.client.phase == Running
    ensures TookReturn(s, ClientFrame(a, s, env), s.n - 1)
  {
    hide Core, PeelDown, Bytestreams, ExitOrder, Telescope;
    var k, c := ClientFinds(a, s, env);
    assert IsCell(s.up[0][s.client.rx[0]], Data);
  }

  lemma ClientTakes(a: Suite, s: State, env: Choice)
    requires Good(a, s) && |s.back[s.n - 1].buf| == LinkCellLen(s.n) && env.ok
    ensures Enabled(s, ClientReads(env))
    ensures TookReturn(s, Step(a, s, ClientReads(env)), s.n - 1) && Good(a, Step(a, s, ClientReads(env)))
  {
    hide Core, Bytestreams, ExitOrder, Telescope, ClientFrame, TookReturn;
    AwaitedOrRunning(a, s);
    var e := ClientReads(env);
    if s.client.phase == Awaiting {
      ReplyTaken(a, s, env);
    } else {
      CellTaken(a, s, env);
    }
    StepInv(a, s, e);
    StepOrderly(a, s, e);
    assert Intact(Step(a, s, e)) by { ReturnMeansIntact(s, Step(a, s, e), s.n - 1); }
  }

  lemma ReturnMeansIntact(s: State, t: State, h: nat)
    requires Shape(s) && Shape(t) && h < s.n && TookReturn(s, t, h)
    ensures Intact(t) && Onward(s, t)
  {
  }

  lemma OneFrameUp(a: Suite, s: State, h: nat) returns (es: seq<Event>, t: State)
    requires Good(a, s) && h < s.n && IdleBelow(s.back, h) && Load(s.back[h]) > 0
    ensures Good(a, t) && Run(a, s, es, t) && Onward(s, t) && t.n == s.n && t.fwd == s.fwd
    ensures IdleBelow(t.back, h) && Load(t.back[h]) < Load(s.back[h])
  {
    hide Inv, Orderly, Run, Step, Onward;
    var first := Fills(a, s, false, h);
    var m := Filled(s, false, h);
    var e;
    if h < s.n - 1 {
      e := RelayReturn(h + 1);
      RelayReturns(a, m, h + 1);
    } else {
      e := ClientReads(Choice(true, 0, Zeros(NOISE_MSG_LEN)));
      ClientTakes(a, m, e.env);
    }
    t := Step(a, m, e);
    RunSnoc(a, s, first, m, e);
    es := first + [e];
    assert TookReturn(m, t, h);
    OnwardTrans(s, m, t);
  }

  lemma {:induction false} DrainLinkUp(a: Suite, s: State, h: nat) returns (es: seq<Event>, t: State)
    requires Good(a, s) && h < s.n && IdleBelow(s.back, h)
    ensures Good(a, t) && Run(a, s, es, t) && Onward(s, t) && t.n == s.n && t.fwd == s.fwd && IdleBelow(t.back, h + 1)
    decreases Load(s.back[h])
  {
    hide Inv, Orderly, Run, Step, Onward;
    if Load(s.back[h]) == 0 {
      es, t := [], s;
      NoSteps(a, s);
    } else {
      var first, m := OneFrameUp(a, s, h);
      var rest;
      rest, t := DrainLinkUp(a, m, h);
      Joined(a, s, first, m, rest, t);
      es := first + rest;
    }
  }

  lemma {:induction false} DrainUp(a: Suite, s: State, h: nat) returns (es: seq<Event>, t: State)
    requires Good(a, s) && h <= s.n && IdleBelow(s.back, h)
    ensures Good(a, t) && Run(a, s, es, t) && Onward(s, t) && t.n == s.n && t.fwd == s.fwd && IdleBelow(t.back, s.n)
    decreases s.n - h
  {
    hide Inv, Orderly, Run, Step, Onward, IdleBelow;
    if h == s.n {
      es, t := [], s;
      NoSteps(a, s);
    } else {
      var first, m := DrainLinkUp(a, s, h);
      var rest;
      rest, t := DrainUp(a, m, h + 1);
      Joined(a, s, first, m, rest, t);
      es := first + rest;
    }
  }

  // ---- Main results ----

  /** Nothing is under way and nothing has failed. */
  ghost predicate Calm(a: Suite, s: State) {
    Good(a, s) && IdleFrom(s.fwd, 0) && IdleBelow(s.back, s.n)
  }

  lemma Drains(a: Suite, s: State) returns (es: seq<Event>, t: State)
    requires Good(a, s)
    ensures Calm(a, t) && Run(a, s, es, t) && Onward(s, t)
  {
    hide Inv, Orderly, Run, Step, Onward, Intact;
    var first, m := DrainDown(a, s, s.n);
    var rest;
    rest, t := DrainUp(a, m, 0);
    Joined(a, s, first, m, rest, t);
    es := first + rest;
  }

  /** In a calm state every byte read at one end has been written at the other, and no reply is awaited. */
  lemma CalmMeansDelivered(a: Suite, s: State)
    requires Calm(a, s)
    ensures s.destGot == s.userRead && s.userGot == s.destRead
    ensures s.client.phase != Awaiting
    ensures s.client.phase == Running ==> s.relays[0].dest
  {
    hide Core;
    DrainedDown(a, s, 0);
    DrainedUp(a, s, 0);
    assert Read(s.down[0], |s.down[0]|) == s.down[0] && Read(s.up[0], |s.up[0]|) == s.up[0];
    DrainedDown(a, s, s.client.deepest);
    DrainedUp(a, s, s.client.deepest);
    hide Bytestreams, Payload;
    assert s.client.phase == Awaiting ==> Dialling(s, s.client.deepest);
  }

  lemma {:induction false} RunOrderly(a: Suite, s: State, es: seq<Event>, t: State)
    requires Shape(s) && Shape(t) && Orderly(s) && Run(a, s, es, t)
    ensures Orderly(t)
    decreases |es|
  {
    hide Orderly, Step, Enabled;
    if es != [] {
      StepOrderly(a, s, es[0]);
      RunOrderly(a, Step(a, s, es[0]), es[1..], t);
    }
  }

  lemma ReachableGood(a: Suite, n: nat, s: State)
    requires Reachable(a, n, s) && Intact(s)
    ensures Good(a, s)
  {
    ReachableInv(a, n, s);
    var es :| Run(a, Init(n), es, s);
    RunOrderly(a, Init(n), es, s);
  }

  /**
   No circuit is ever stuck: as long as nothing has failed, whatever is under way can be carried to
   its end, without reading anything new, and then every byte has arrived, both ways.
   */
  lemma NeverStuck(a: Suite, n: nat, s: State) returns (es: seq<Event>, t: State)
    requires Reachable(a, n, s) && Intact(s)
    ensures Shape(t) && Run(a, s, es, t) && Intact(t)
    ensures t.userRead == s.userRead == t.destGot && t.destRead == s.destRead == t.userGot
    ensures (forall h :: 0 <= h < t.n ==> Idle(t.fwd[h]) && Idle(t.back[h])) && t.client.phase != Awaiting
  {
    hide Core, Telescope, Bytestreams, ExitOrder, Orderly, Run;
    ReachableGood(a, n, s);
    es, t := Drains(a, s);
    CalmMeansDelivered(a, t);
  }

  // ---- Any circuit can be built, and carries any bytes ----

  predicate SameReads(s: State, t: State) {
    t.n == s.n && t.userRead == s.userRead && t.destRead == s.destRead
  }

  /** One client step that breaks nothing, and then everything it caused. */
  lemma Settles(a: Suite, s: State, e: Event) returns (es: seq<Event>, t: State)
    requires Good(a, s) && Enabled(s, e) && Intact(Step(a, s, e))
    ensures Calm(a, t) && Run(a, s, es, t) && Onward(Step(a, s, e), t)
    ensures Routes.Wishes(es) == Routes.Wishes([e])
  {
    hide Core, Telescope, Bytestreams, ExitOrder, Orderly, Run, Step, Onward, Intact, Enabled;
    hide Routes.Wishes, Routes.Made;
    StepInv(a, s, e);
    StepOrderly(a, s, e);
    var rest;
    rest, t := Drains(a, Step(a, s, e));
    assert Run(a, s, [], s) by { NoSteps(a, s); }
    RunSnoc(a, s, [], s, e);
    RunAppend(a, s, [] + [e], Step(a, s, e), rest, t);
    es := [] + [e] + rest;
    assert [] + [e] == [e];
    Routes.RequestsMade(a, Step(a, s, e), rest, t);
    OnwardMade(Step(a, s, e), t);
    Routes.WishesAppend([e], rest);
  }

  lemma OnwardMade(s: State, t: State)
    requires Shape(s) && Shape(t) && Onward(s, t)
    ensures Routes.Made(t) == Routes.Made(s)
  {
  }

  /** What the client asks each hop for, from hop `h` inwards; `ext(j)` is what it sends to hop `j`. */
  function Route(ext: nat -> ExtendForward, dst: ConnectPayload, h: nat): (ds: seq<Dial>)
    ensures |ds| == h + 1
  {
    if h == 0 then [ToDest(dst)]
    else [ToRelay(ExtendForward(CanonicalAddr(ext(h).nextHop), ext(h).noiseMsg1))] + Route(ext, dst, h - 1)
  }

  lemma {:induction false} RouteAt(ext: nat -> ExtendForward, dst: ConnectPayload, top: nat, h: nat)
    requires h <= top
    ensures Route(ext, dst, top)[top - h]
         == if h == 0 then ToDest(dst) else ToRelay(ExtendForward(CanonicalAddr(ext(h).nextHop), ext(h).noiseMsg1))
  {
    if h < top {
      RouteAt(ext, dst, top - 1, h);
    }
  }

  /** What sending an EXTEND or the CONNECT changes, apart from the streams. */
  lemma AdvanceIntact(a: Suite, s: State, c: Cell)
    requires Shape(s) && Intact(s) && c.Fits()
    ensures var t := Advance(a, s, c);
            && Intact(t) && SameReads(s, t) && t.client.deepest == s.client.deepest
            && t.client.phase == if s.client.deepest > 0 then Awaiting else Running
  {
    hide Onion;
  }

  /** The circuit gets one hop longer. */
  lemma ExtendsByOne(a: Suite, s: State, ext: ExtendForward) returns (es: seq<Event>, t: State)
    requires Calm(a, s) && s.client.phase == Ready && s.client.deepest > 0
    ensures Calm(a, t) && Run(a, s, es, t) && SameReads(s, t)
    ensures t.client.phase == Ready && t.client.deepest == s.client.deepest - 1
    ensures Routes.Wishes(es) == [ToRelay(ExtendForward(CanonicalAddr(ext.nextHop), ext.noiseMsg1))]
  {
    hide Core, Telescope, Bytestreams, ExitOrder, Orderly, Run, Advance, EncodeExtend;
    Routes.OneWish(ClientExtend(ext));
    AdvanceIntact(a, s, Cell(Extend, EncodeExtend(ext)));
    es, t := Settles(a, s, ClientExtend(ext));
    CalmMeansDelivered(a, t);
  }

  lemma Connects(a: Suite, s: State, dst: ConnectPayload) returns (es: seq<Event>, t: State)
    requires Calm(a, s) && s.client.phase == Ready && s.client.deepest == 0 && |dst.host| <= MAX_CONNECT_HOST_LEN
    ensures Calm(a, t) && Run(a, s, es, t) && SameReads(s, t) && t.client.phase == Running
    ensures Routes.Wishes(es) == [ToDest(dst)]
  {
    hide Core, Telescope, Bytestreams, ExitOrder, Orderly, Run, Advance;
    Routes.OneWish(ClientConnect(dst));
    AdvanceIntact(a, s, Cell(Connect, EncodeConnect(dst).value));
    es, t := Settles(a, s, ClientConnect(dst));
  }

  /** Hop by hop and then the CONNECT; `ext(h)` is what the client sends to hop `h`. */
  lemma {:induction false} Builds(a: Suite, s: State, ext: nat -> ExtendForward, dst: ConnectPayload)
      returns (es: seq<Event>, t: State)
    requires Calm(a, s) && s.client.phase == Ready && |dst.host| <= MAX_CONNECT_HOST_LEN
    ensures Calm(a, t) && Run(a, s, es, t) && SameReads(s, t) && t.client.phase == Running
    ensures Routes.Wishes(es) == Route(ext, dst, s.client.deepest)
    decreases s.client.deepest
  {
    hide Inv, Orderly, Run, IdleFrom, IdleBelow, Routes.Wishes;
    if s.client.deepest == 0 {
      es, t := Connects(a, s, dst);
    } else {
      var first, m := ExtendsByOne(a, s, ext(s.client.deepest));
      var rest;
      rest, t := Builds(a, m, ext, dst);
      RunAppend(a, s, first, m, rest, t);
      Routes.WishesAppend(first, rest);
      es := first + rest;
    }
  }

  lemma {:induction false} SendAllIntact(a: Suite, s: State, cs: seq<Cell>)
    requires Shape(s) && Intact(s) && AllData(cs)
    ensures Intact(SendAll(a, s, cs)) && OnlyClientSent(s, SendAll(a, s, cs))
  {
    hide Onion, OnlyClientSent;
    SendAllBytes(a, s, cs);
    if cs != [] {
      SendAllIntact(a, s, cs[..|cs| - 1]);
    }
  }

  lemma {:induction false} EmitAllIntact(a: Suite, s: State, cs: seq<Cell>)
    requires Shape(s) && Intact(s)
    ensures Intact(EmitAll(a, s, cs)) && OnlyExitEmitted(s, EmitAll(a, s, cs))
  {
    hide OnlyExitEmitted;
    EmitAllBytes(a, s, cs);
    if cs != [] {
      EmitAllIntact(a, s, cs[..|cs| - 1]);
    }
  }

  /** The user writes up to one read buffer's worth, and it all arrives. */
  lemma UserSpeaks(a: Suite, s: State, bytes: seq<byte>) returns (es: seq<Event>, t: State)
    requires Calm(a, s) && s.client.phase == Running && 1 <= |bytes| <= USER_READ_BUF
    ensures Calm(a, t) && Run(a, s, es, t) && t.n == s.n && t.client.phase == Running
    ensures t.userRead == s.userRead + bytes && t.destRead == s.destRead
  {
    hide Inv, Orderly, Run, Chunks, SendAll;
    var chunks := Chunks(bytes, CELL_PAYLOAD_LEN);
    SendAllIntact(a, s.(userRead := s.userRead + bytes), DataCells(chunks));
    es, t := Settles(a, s, UserData(bytes, |chunks|));
  }

  lemma DestinationSpeaks(a: Suite, s: State, bytes: seq<byte>) returns (es: seq<Event>, t: State)
    requires Calm(a, s) && s.client.phase == Running && 1 <= |bytes| <= DEST_READ_BUF
    ensures Calm(a, t) && Run(a, s, es, t) && t.n == s.n && t.client.phase == Running
    ensures t.userRead == s.userRead && t.destRead == s.destRead + bytes
  {
    hide Inv, Orderly, Run, Chunks, EmitAll;
    CalmMeansDelivered(a, s);
    var chunks := Chunks(bytes, CELL_PAYLOAD_LEN);
    EmitAllIntact(a, s.(destRead := s.destRead + bytes), DataCells(chunks));
    es, t := Settles(a, s, DestData(bytes, |chunks|));
  }

  lemma {:induction false} BothSpeak(a: Suite, s: State, u: seq<byte>, d: seq<byte>) returns (es: seq<Event>, t: State)
    requires Calm(a, s) && s.client.phase == Running
    ensures Calm(a, t) && Run(a, s, es, t) && t.n == s.n && t.client.phase == Running
    ensures t.userRead == s.userRead + u && t.destRead == s.destRead + d
    decreases |u| + |d|
  {
    hide Inv, Orderly, Run, Intact, IdleFrom, IdleBelow;
    if u == [] && d == [] {
      es, t := [], s;
      NoSteps(a, s);
    } else {
      var first, m, rest;
      if u != [] {
        var k := if |u| <= USER_READ_BUF then |u| else USER_READ_BUF;
        first, m := UserSpeaks(a, s, u[..k]);
        rest, t := BothSpeak(a, m, u[k..], d);
        assert s.userRead + u[..k] + u[k..] == s.userRead + u;
      } else {
        var k := if |d| <= DEST_READ_BUF then |d| else DEST_READ_BUF;
        first, m := DestinationSpeaks(a, s, d[..k]);
        rest, t := BothSpeak(a, m, u, d[k..]);
        assert s.destRead + d[..k] + d[k..] == s.destRead + d;
      }
      RunAppend(a, s, first, m, rest, t);
      es := first + rest;
    }
  }

  lemma InitCalm(a: Suite, n: nat)
    requires n >= 1
    ensures Calm(a, Init(n)) && Run(a, Init(n), [], Init(n))
  {
    InitCore(a, n);
  }

  /**
   For every number of hops, every address on the way, every destination and all bytes either side
   wants to send, there is a run that builds the circuit through those addresses to that destination
   and delivers exactly those bytes.
   */
  lemma EverythingGetsThrough(a: Suite, n: nat, ext: nat -> ExtendForward, dst: ConnectPayload,
                              u: seq<byte>, d: seq<byte>)
      returns (s: State)
    requires n >= 1 && |dst.host| <= MAX_CONNECT_HOST_LEN
    ensures Reachable(a, n, s) && Intact(s) && s.client.phase == Running
    ensures s.userRead == u == s.destGot && s.destRead == d == s.userGot
    ensures s.n == n && s.relays[0].asked == [ToDest(dst)]
    ensures forall h :: 0 < h < n ==>
              s.relays[h].asked == [ToRelay(ExtendForward(CanonicalAddr(ext(h).nextHop), ext(h).noiseMsg1))]
  {
    hide Inv, Orderly, Run, IdleFrom, IdleBelow, Routes.Wishes;
    InitCalm(a, n);
    var first, m := Builds(a, Init(n), ext, dst);
    var rest;
    rest, s := BothSpeak(a, m, u, d);
    RunAppend(a, Init(n), first, m, rest, s);
    CalmMeansDelivered(a, s);
    Routes.RequestsMade(a, m, rest, s);
    RunningMade(a, m);
    RunningMade(a, s);
    Routes.WishesAppend(first, rest);
    assert Routes.Wishes(first + rest) == Route(ext, dst, n - 1);
    forall h | 0 <= h < n
      ensures s.relays[h].asked
           == [if h == 0 then ToDest(dst) else ToRelay(ExtendForward(CanonicalAddr(ext(h).nextHop), ext(h).noiseMsg1))]
    {
      Routes.DialsAreTheClients(a, n, first + rest, s, h);
      RouteAt(ext, dst, n - 1, h);
      CalmMeansReceived(a, s, h);
    }
  }

  lemma RunningMade(a: Suite, s: State)
    requires Calm(a, s) && s.client.phase == Running
    ensures Routes.Made(s) == s.n
  {
    hide Core, Bytestreams, ExitOrder, Orderly, Forwarding, Application;
  }

  lemma CalmMeansReceived(a: Suite, s: State, h: nat)
    requires Calm(a, s) && h < s.n
    ensures s.relays[h].rx == |s.down[h]|
  {
    hide Core, Telescope, Bytestreams, ExitOrder, Orderly;
    DrainedDown(a, s, h);
  }
}
