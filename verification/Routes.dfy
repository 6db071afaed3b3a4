/**
 Where a circuit goes: what each relay sets out to open is what the client's steps asked for, whatever
 the interleaving. The requests are read off the events of the run, not off the state.
 */
module Routes {
  import opened Bytes
  import opened Cells
  import opened Noise
  import opened Layer
  import opened Streams
  import opened Tunnel
  import opened Circuits

  // ---- What the client asks for ----

  /** The next hop of an EXTEND, its address canonical, or the destination. */
  function Wished(e: Event): Option<Dial> {
    match e
    case ClientExtend(ext) => Some(ToRelay(ExtendForward(CanonicalAddr(ext.nextHop), ext.noiseMsg1)))
    case ClientConnect(dst) => Some(ToDest(dst))
    case _ => None
  }

  /** Everything asked for in a run, in order. */
  function Wishes(es: seq<Event>): seq<Dial> {
    if es == [] then []
    else (match Wished(es[0]) case Some(d) => [d] case None => []) + Wishes(es[1..])
  }

  lemma {:induction false} WishesAppend(es: seq<Event>, fs: seq<Event>)
    ensures Wishes(es + fs) == Wishes(es) + Wishes(fs)
  {
    if es == [] {
      assert es + fs == fs;
    } else {
      assert (es + fs)[1..] == es[1..] + fs;
      WishesAppend(es[1..], fs);
    }
  }

  /** How many requests a client has made, by where it stands. */
  function Made(s: State): nat
    requires Shape(s)
  {
    s.n - 1 - s.client.deepest + if s.client.phase == Ready then 0 else 1
  }

  // ---- What holds of every hop ----

  /** What a cell asks the relay it is for to open. */
  function RequestIn(c: Cell): Option<Dial> {
    match c.cellType
    case Extend => (match DecodeExtend(c.payload) case Ok(ext) => Some(ToRelay(ext)) case Err(_) => None)
    case Connect => (match DecodeConnect(c.payload) case Ok(dst) => Some(ToDest(dst)) case Err(_) => None)
    case _ => None
  }

  /** The first item for the hop is this request, and the hop sets out on it, once, when it gets there. */
  predicate Served(s: State, h: nat, d: Dial)
    requires Shape(s) && h < s.n
  {
    && s.down[h] != [] && s.down[h][0].Own? && RequestIn(s.down[h][0].cell) == Some(d)
    && s.relays[h].asked == (if s.relays[h].rx == 0 then [] else [d])
    && (s.relays[h].next ==> s.relays[h].rx > 0)
  }

  predicate Unasked(s: State, h: nat)
    requires Shape(s) && h < s.n
  {
    s.down[h] == [] && s.relays[h].asked == [] && !s.relays[h].next && s.relays[h].rx == 0
  }

  /** The first request is for the guard, the next for the hop after it, and so on. */
  predicate RoutedAt(ds: seq<Dial>, s: State, h: nat)
    requires Shape(s) && h < s.n
  {
    if s.n - 1 - h < |ds| then Served(s, h, ds[s.n - 1 - h]) else Unasked(s, h)
  }

  predicate Routed(ds: seq<Dial>, s: State)
    requires Shape(s)
  {
    |ds| == Made(s) && forall h :: 0 <= h < s.n ==> RoutedAt(ds, s, h)
  }

  // ---- Steps that ask for nothing and take nothing ----

  /** The hops have received nothing, and the client has at most sealed more for hops it already asked. */
  predicate Quiet(s: State, t: State)
    requires Shape(s) && Shape(t)
  {
    && t.n == s.n && Made(t) == Made(s)
    && (forall h :: 0 <= h < s.n ==>
          && t.relays[h].rx == s.relays[h].rx && t.relays[h].asked == s.relays[h].asked
          && t.relays[h].next == s.relays[h].next && s.down[h] <= t.down[h])
    && (s.client.phase == Running || t.down == s.down)
  }

  lemma QuietTrans(s: State, m: State, t: State)
    requires Shape(s) && Shape(m) && Shape(t) && m.client.phase == s.client.phase
    ensures Quiet(s, m) && Quiet(m, t) ==> Quiet(s, t)
    ensures Quiet(s, s)
  {
    if Quiet(s, m) && Quiet(m, t) {
      forall h | 0 <= h < s.n ensures s.down[h] <= t.down[h] {
        assert s.down[h] <= m.down[h] <= t.down[h];
      }
    }
  }

  lemma QuietKeeps(ds: seq<Dial>, s: State, t: State)
    requires Shape(s) && Shape(t) && Routed(ds, s) && Telescope(s) && Quiet(s, t)
    ensures Routed(ds, t)
  {
    hide DecodeExtend, DecodeConnect;
    forall h | 0 <= h < s.n ensures RoutedAt(ds, t, h) {
      assert RoutedAt(ds, s, h);
      assert s.down[h] <= t.down[h];
    }
  }

  lemma SentQuiet(s: State, t: State)
    requires Shape(s) && Shape(t) && s.client.phase == Running && OnlyClientSent(s, t)
    ensures Quiet(s, t)
  {
    forall h | 0 <= h < s.n ensures s.down[h] <= t.down[h] {
      assert h > 0 ==> s.down[h] <= t.down[h];
    }
  }

  lemma TeardownQuiet(a: Suite, s: State)
    requires Shape(s) && s.client.phase == Running
    ensures Quiet(s, Teardown(a, s))
  {
    hide Send, Payload;
    var sent := Send(a, s, Cell(CloseRequest, []), 0);
    SendIsClientOutput(a, s, Cell(CloseRequest, []));
    SentQuiet(s, sent);
  }

  lemma UserBytesQuiet(a: Suite, s: State, bytes: seq<byte>, sent: nat)
    requires Shape(s) && s.client.phase == Running
    ensures Quiet(s, UserBytes(a, s, bytes, sent))
  {
    hide Chunks, SendAll, Teardown, Quiet, Payload;
    var chunks := Chunks(bytes, CELL_PAYLOAD_LEN);
    var cs := DataCells(if sent < |chunks| then chunks[..sent] else chunks);
    var s1 := s.(userRead := s.userRead + bytes);
    var s2 := SendAll(a, s1, cs);
    SendAllBytes(a, s1, cs);
    SentQuiet(s1, s2);
    assert Quiet(s, s1) by { SameQuiet(s, s1); }
    QuietTrans(s, s1, s2);
    assert s2.client.phase == Running;
    TeardownQuiet(a, s2);
    QuietTrans(s, s2, Teardown(a, s2));
  }

  lemma SameQuiet(s: State, t: State)
    requires Shape(s) && Shape(t) && t.n == s.n && t.relays == s.relays && t.down == s.down && Made(t) == Made(s)
    ensures Quiet(s, t)
  {
  }

  lemma DestBytesQuiet(a: Suite, s: State, bytes: seq<byte>, sent: nat)
    requires Shape(s)
    ensures Quiet(s, DestBytes(a, s, bytes, sent))
  {
    hide Chunks, EmitAll, Payload;
    var chunks := Chunks(bytes, CELL_PAYLOAD_LEN);
    var cs := DataCells(if sent < |chunks| then chunks[..sent] else chunks);
    EmitAllBytes(a, s.(destRead := s.destRead + bytes), cs);
  }

  lemma ClientFrameQuiet(a: Suite, s: State, env: Choice)
    requires Shape(s) && s.client.phase != Ready
    ensures Quiet(s, ClientFrame(a, s, env))
  {
    hide PeelDown, Teardown, ParseExtendBackward;
    if s.client.phase == Running {
      TeardownQuiet(a, s);
      match PeelDown(a, UpKey, Counter(s.client.rx), s.back[s.n - 1].buf, s.n)
      case Err(_) =>
      case Ok((c, l)) =>
        var t := Receive(s, l - 1);
        var u := t.(userGot := t.userGot + Prefix(c.payload, env.written));
        TeardownQuiet(a, t);
        TeardownQuiet(a, u);
        QuietTrans(s, t, Teardown(a, t));
        QuietTrans(s, u, Teardown(a, u));
    }
  }

  lemma StepQuiet(a: Suite, s: State, e: Event)
    requires Shape(s) && Enabled(s, e) && !e.RelayFrame? && Wished(e).None?
    ensures Quiet(s, Step(a, s, e))
  {
    hide ClientFrame, UserBytes, DestBytes, Teardown;
    match e
    case ClientReads(env) => ClientFrameQuiet(a, s, env);
    case UserData(bytes, sent) => UserBytesQuiet(a, s, bytes, sent);
    case UserEof => TeardownQuiet(a, s);
    case DestData(bytes, sent) => DestBytesQuiet(a, s, bytes, sent);
    case _ =>
  }

  // ---- A relay takes a frame ----

  /** Only hop `h` has moved: one item received, and perhaps a dial begun. */
  predicate Took(s: State, t: State, h: nat, asked: seq<Dial>)
    requires Shape(s) && Shape(t) && h < s.n
  {
    && t.n == s.n && t.client == s.client && t.down == s.down
    && t.relays[h].rx == s.relays[h].rx + 1 && t.relays[h].asked == s.relays[h].asked + asked
    && (forall j :: 0 <= j < s.n && j != h ==>
          && t.relays[j].rx == s.relays[j].rx && t.relays[j].asked == s.relays[j].asked
          && t.relays[j].next == s.relays[j].next)
  }

  lemma TookKeeps(ds: seq<Dial>, s: State, t: State, h: nat, asked: seq<Dial>)
    requires Shape(s) && Shape(t) && h < s.n && Routed(ds, s) && Took(s, t, h, asked) && s.relays[h].rx < |s.down[h]|
    requires if s.relays[h].rx > 0 then asked == []
             else s.down[h][0].Own? ==>
                    var d := RequestIn(s.down[h][0].cell); d.Some? && asked == [d.value]
    ensures Routed(ds, t)
  {
    hide RequestIn;
    forall j | 0 <= j < s.n ensures RoutedAt(ds, t, j) {
      assert RoutedAt(ds, s, j);
    }
  }

  lemma ForwardTook(a: Suite, s: State, h: nat, env: Choice)
    requires Inv(a, s) && Enabled(s, RelayFrame(h, env))
    requires s.relays[h].rx < |s.down[h]| && s.down[h][s.relays[h].rx].Wrap?
    ensures Took(s, RelayStep(a, s, h, env), h, [])
  {
    hide Core, Bytestreams, ExitOrder, PeelFrame;
    TakePeels(a, s, h);
    Addressee(s, h);
    assert RelayStep(a, s, h, env) == TakeAndForward(s, h, s.down[h][s.relays[h].rx].blob);
    hide RelayStep, Telescope, Enabled;
    assert s.relays[h].asked + [] == s.relays[h].asked;
  }

  lemma ExtendTook(a: Suite, s: State, h: nat, env: Choice)
    requires Inv(a, s) && Enabled(s, RelayFrame(h, env)) && h > 0
    requires s.relays[h].rx < |s.down[h]| && s.down[h][s.relays[h].rx].Own?
    ensures s.relays[h].rx == 0 && RequestIn(s.down[h][0].cell).Some?
    ensures Took(s, RelayStep(a, s, h, env), h, [RequestIn(s.down[h][0].cell).value])
  {
    hide Core, Bytestreams, ExitOrder, RelayStep, Telescope, DecodeExtend;
    ExtendActs(a, s, h, env);
  }

  lemma ExitTook(a: Suite, s: State, env: Choice)
    requires Inv(a, s) && Enabled(s, RelayFrame(0, env))
    requires s.relays[0].rx < |s.down[0]| && s.down[0][s.relays[0].rx].Own?
    ensures s.relays[0].rx == 0 ==> RequestIn(s.down[0][0].cell).Some?
    ensures var asked := if s.relays[0].rx == 0 then [RequestIn(s.down[0][0].cell).value] else [];
            Took(s, RelayStep(a, s, 0, env), 0, asked)
  {
    hide Core, Bytestreams, RelayStep, Telescope, DecodeConnect;
    var c := ExitActs(a, s, env);
    assert s.relays[0].asked + [] == s.relays[0].asked;
  }

  lemma RelayFrameKeeps(a: Suite, ds: seq<Dial>, s: State, h: nat, env: Choice)
    requires Inv(a, s) && Routed(ds, s) && Enabled(s, RelayFrame(h, env))
    ensures Routed(ds, RelayStep(a, s, h, env))
  {
    hide Core, Bytestreams, ExitOrder, Telescope, RelayStep, Took, RequestIn;
    TakePeels(a, s, h);
    assert RoutedAt(ds, s, h);
    var t := RelayStep(a, s, h, env);
    if s.down[h][s.relays[h].rx].Wrap? {
      ForwardTook(a, s, h, env);
      TookKeeps(ds, s, t, h, []);
    } else if h > 0 {
      ExtendTook(a, s, h, env);
      TookKeeps(ds, s, t, h, [RequestIn(s.down[h][0].cell).value]);
    } else {
      ExitTook(a, s, env);
      TookKeeps(ds, s, t, 0, if s.relays[0].rx == 0 then [RequestIn(s.down[0][0].cell).value] else []);
    }
  }

  // ---- The client asks ----

  lemma AdvanceAsks(a: Suite, ds: seq<Dial>, s: State, c: Cell, d: Dial)
    requires Shape(s) && Routed(ds, s) && c.Fits() && s.client.phase == Ready && RequestIn(c) == Some(d)
    ensures Routed(ds + [d], Advance(a, s, c))
  {
    hide Onion, RequestIn;
    var t, lo := Advance(a, s, c), s.client.deepest;
    forall h | 0 <= h < s.n ensures RoutedAt(ds + [d], t, h) {
      assert RoutedAt(ds, s, h);
      if h == lo {
        assert t.down[h] == [Own(c)];
      }
    }
  }

  lemma StepRoutes(a: Suite, ds: seq<Dial>, s: State, e: Event)
    requires Inv(a, s) && Routed(ds, s) && Enabled(s, e)
    ensures Routed(ds + Wishes([e]), Step(a, s, e))
  {
    hide Core, Bytestreams, ExitOrder, Routed, RelayStep, Advance, Quiet, DecodeExtend, DecodeConnect, EncodeExtend;
    assert Wishes([e]) == match Wished(e) case Some(d) => [d] case None => [] by { OneWish(e); }
    assert ds + [] == ds;
    match e
    case RelayFrame(h, env) => RelayFrameKeeps(a, ds, s, h, env);
    case ClientExtend(ext) =>
      ExtendDecodeAfterEncode(ext);
      AdvanceAsks(a, ds, s, Cell(Extend, EncodeExtend(ext)), Wished(e).value);
    case ClientConnect(dst) =>
      ConnectDecodeAfterEncode(dst);
      AdvanceAsks(a, ds, s, Cell(Connect, EncodeConnect(dst).value), Wished(e).value);
    case _ =>
      StepQuiet(a, s, e);
      QuietKeeps(ds, s, Step(a, s, e));
  }

  lemma OneWish(e: Event)
    ensures Wishes([e]) == match Wished(e) case Some(d) => [d] case None => []
  {
    assert [e][1..] == [];
  }

  lemma {:induction false} RunRoutes(a: Suite, ds: seq<Dial>, s: State, es: seq<Event>, t: State)
    requires Inv(a, s) && Routed(ds, s) && Run(a, s, es, t)
    ensures Shape(t) && Routed(ds + Wishes(es), t)
    decreases |es|
  {
    hide Core, Telescope, Bytestreams, ExitOrder, Routed, Step, Enabled, Wished;
    if es == [] {
      assert ds + [] == ds;
    } else {
      StepInv(a, s, es[0]);
      StepRoutes(a, ds, s, es[0]);
      RunRoutes(a, ds + Wishes([es[0]]), Step(a, s, es[0]), es[1..], t);
      assert es == [es[0]] + es[1..];
      WishesAppend([es[0]], es[1..]);
      assert ds + Wishes([es[0]]) + Wishes(es[1..]) == ds + Wishes(es);
    }
  }

  lemma InitRouted(a: Suite, n: nat)
    requires n >= 1
    ensures Inv(a, Init(n)) && Routed([], Init(n))
  {
    InitCore(a, n);
  }

  // ---- Main result ----

  /**
   In every run: the client's i-th request is the first cell it seals for hop n - 1 - i; that hop sets
   out on exactly that request, address, handshake message, host and port alike, and on nothing else;
   a hop that has a next link, or a destination that got a byte, was asked for by the client.
   */
  lemma DialsAreTheClients(a: Suite, n: nat, es: seq<Event>, s: State, h: nat)
    requires n >= 1 && Run(a, Init(n), es, s) && h < n
    ensures Shape(s) && s.n == n && |Wishes(es)| == Made(s)
    ensures n - 1 - h < |Wishes(es)| ==>
              s.down[h] != [] && s.down[h][0].Own? && RequestIn(s.down[h][0].cell) == Some(Wishes(es)[n - 1 - h])
    ensures s.relays[h].rx > 0 ==> n - 1 - h < |Wishes(es)| && s.relays[h].asked == [Wishes(es)[n - 1 - h]]
    ensures s.relays[h].rx == 0 ==> s.relays[h].asked == []
    ensures s.relays[h].next ==> s.relays[h].rx > 0
    ensures s.relays[0].dest || s.destGot != [] ==> s.relays[0].rx > 0
  {
    hide Core, Telescope, RequestIn, Bytestreams, ExitOrder, Routed, Run;
    InitRouted(a, n);
    RunInv(a, Init(n), es, s);
    RunRoutes(a, [], Init(n), es, s);
    RunKeepsN(a, Init(n), es, s);
    assert [] + Wishes(es) == Wishes(es);
    RoutedFacts(Wishes(es), s, h);
    NothingBeforeConnect(s);
  }

  lemma RoutedFacts(ds: seq<Dial>, s: State, h: nat)
    requires Shape(s) && Routed(ds, s) && h < s.n
    ensures |ds| == Made(s) && RoutedAt(ds, s, h)
  {
  }

  lemma NothingBeforeConnect(s: State)
    requires Shape(s) && Bytestreams(s) && ExitOrder(s)
    ensures s.relays[0].dest || s.destGot != [] ==> s.relays[0].rx > 0
  {
    assert Read(s.down[0], 0) == [];
  }

  lemma {:induction false} RunKeepsN(a: Suite, s: State, es: seq<Event>, t: State)
    requires Shape(s) && Run(a, s, es, t)
    ensures t.n == s.n
    decreases |es|
  {
    hide Step, Enabled;
    if es != [] {
      RunKeepsN(a, Step(a, s, es[0]), es[1..], t);
    }
  }

  /** Where a client stands says how many requests it has made. */
  lemma {:induction false} RequestsMade(a: Suite, s: State, es: seq<Event>, t: State)
    requires Shape(s) && Run(a, s, es, t)
    ensures Shape(t) && Made(t) == Made(s) + |Wishes(es)|
    decreases |es|
  {
    hide Step, Enabled, Wished;
    if es != [] {
      StepMakes(a, s, es[0]);
      RequestsMade(a, Step(a, s, es[0]), es[1..], t);
    }
  }

  lemma StepMakes(a: Suite, s: State, e: Event)
    requires Shape(s) && Enabled(s, e)
    ensures Made(Step(a, s, e)) == Made(s) + if Wished(e).Some? then 1 else 0
  {
    hide RelayStep, Onion, ClientFrame, UserBytes, DestBytes, EncodeExtend, Teardown;
    if Wished(e).None? && !e.RelayFrame? {
      StepQuiet(a, s, e);
    } else if e.RelayFrame? {
      RelayStepMakes(a, s, e.h, e.env);
    }
  }

  lemma RelayStepMakes(a: Suite, s: State, h: nat, env: Choice)
    requires Shape(s) && h < s.n
    ensures RelayStep(a, s, h, env).client == s.client
  {
    hide PeelFrame, DecodeExtend, DecodeConnect;
  }

  // ---- The handshake replies ----

  /** The step in which hop `h` answered its EXTEND, with the next hop's own handshake message. */
  predicate IsReply(e: Event, h: nat, x: Item) {
    e.RelayFrame? && e.h == h && e.env.ok && x == Own(Cell(Extend, e.env.msg2))
  }

  predicate HasReply(es: seq<Event>, h: nat, x: Item) {
    exists i :: 0 <= i < |es| && IsReply(es[i], h, x)
  }

  /** What hop `h` sent back first is such an answer, and nothing comes back from beyond it before. */
  predicate Replied(es: seq<Event>, s: State, h: nat)
    requires Shape(s) && h < s.n
  {
    && (s.relays[h].next ==> s.up[h] != [])
    && (s.up[h] != [] ==> HasReply(es, h, s.up[h][0]))
  }

  predicate AllReplied(es: seq<Event>, s: State)
    requires Shape(s)
  {
    forall h :: 0 < h < s.n ==> Replied(es, s, h)
  }

  lemma HasReplySnoc(es: seq<Event>, e: Event, h: nat, x: Item)
    ensures HasReply(es, h, x) ==> HasReply(es + [e], h, x)
    ensures IsReply(e, h, x) ==> HasReply(es + [e], h, x)
  {
    if HasReply(es, h, x) {
      var i :| 0 <= i < |es| && IsReply(es[i], h, x);
      assert (es + [e])[i] == es[i];
    }
    assert (es + [e])[|es|] == e;
  }

  /** No hop before the exit has begun to answer, except by adding to what it had sent. */
  predicate UpKeeps(s: State, t: State)
    requires Shape(s) && Shape(t)
  {
    && t.n == s.n
    && forall h :: 0 < h < s.n ==>
         t.relays[h].next == s.relays[h].next && s.up[h] <= t.up[h] && (s.up[h] == [] ==> t.up[h] == [])
  }

  lemma UpKeepsReplies(es: seq<Event>, e: Event, s: State, t: State)
    requires Shape(s) && Shape(t) && AllReplied(es, s) && UpKeeps(s, t)
    ensures AllReplied(es + [e], t)
  {
    hide HasReply;
    forall h | 0 < h < s.n ensures Replied(es + [e], t, h) {
      assert Replied(es, s, h);
      if t.up[h] != [] {
        HasReplySnoc(es, e, h, s.up[h][0]);
      }
    }
  }

  lemma TeardownUp(a: Suite, s: State)
    requires Shape(s)
    ensures Teardown(a, s).up == s.up && Teardown(a, s).relays == s.relays
  {
    hide Onion;
  }

  lemma StepUpKeeps(a: Suite, s: State, e: Event)
    requires Shape(s) && Enabled(s, e) && !e.RelayFrame? && !e.RelayReturn?
    ensures UpKeeps(s, Step(a, s, e))
  {
    hide PeelDown, Teardown, Onion, Chunks, SendAll, EmitAll, Payload, ParseExtendBackward, EncodeExtend, ClientFrame;
    match e
    case ClientReads(env) => ClientFrameUp(a, s, env);
    case UserEof => TeardownUp(a, s);
    case UserData(bytes, sent) =>
      var chunks := Chunks(bytes, CELL_PAYLOAD_LEN);
      var s1 := s.(userRead := s.userRead + bytes);
      var cs := DataCells(if sent < |chunks| then chunks[..sent] else chunks);
      SendAllBytes(a, s1, cs);
      TeardownUp(a, SendAll(a, s1, cs));
    case DestData(bytes, sent) =>
      var chunks := Chunks(bytes, CELL_PAYLOAD_LEN);
      var cs := DataCells(if sent < |chunks| then chunks[..sent] else chunks);
      EmitAllBytes(a, s.(destRead := s.destRead + bytes), cs);
    case _ =>
  }

  lemma ClientFrameUp(a: Suite, s: State, env: Choice)
    requires Shape(s)
    ensures ClientFrame(a, s, env).up == s.up && ClientFrame(a, s, env).relays == s.relays
  {
    hide PeelDown, Teardown, ParseExtendBackward;
    TeardownUp(a, s);
    match PeelDown(a, UpKey, Counter(s.client.rx), s.back[s.n - 1].buf, s.n)
    case Err(_) =>
    case Ok((c, l)) =>
      var t := Receive(s, l - 1);
      TeardownUp(a, t);
      TeardownUp(a, t.(userGot := t.userGot + Prefix(c.payload, env.written)));
  }

  /** A relay that can open the next link answers with the next hop's message and nothing else. */
  lemma ExtendReplies(a: Suite, s: State, h: nat, env: Choice)
    requires Inv(a, s) && Enabled(s, RelayFrame(h, env)) && h > 0
    requires s.relays[h].rx < |s.down[h]| && s.down[h][s.relays[h].rx].Own?
    ensures var t := RelayStep(a, s, h, env);
            && s.up[h] == [] && t.relays[h].next == env.ok
            && t.up == s.up[h := if env.ok then [Own(Cell(Extend, env.msg2))] else []]
            && forall j :: 0 <= j < s.n && j != h ==> t.relays[j].next == s.relays[j].next
  {
    hide Core, Bytestreams, ExitOrder, RelayStep, Telescope, DecodeExtend;
    ExtendActs(a, s, h, env);
    assert s.up[h := []] == s.up && s.up[h] + [Own(Cell(Extend, env.msg2))] == [Own(Cell(Extend, env.msg2))];
  }

  lemma ForwardUp(a: Suite, s: State, h: nat, env: Choice)
    requires Inv(a, s) && Enabled(s, RelayFrame(h, env))
    requires s.relays[h].rx < |s.down[h]| && s.down[h][s.relays[h].rx].Wrap?
    ensures UpKeeps(s, RelayStep(a, s, h, env))
  {
    hide Core, Bytestreams, ExitOrder, PeelFrame;
    TakePeels(a, s, h);
    Addressee(s, h);
    assert RelayStep(a, s, h, env) == TakeAndForward(s, h, s.down[h][s.relays[h].rx].blob);
  }

  lemma ExitUp(a: Suite, s: State, env: Choice)
    requires Inv(a, s) && Enabled(s, RelayFrame(0, env))
    requires s.relays[0].rx < |s.down[0]| && s.down[0][s.relays[0].rx].Own?
    ensures UpKeeps(s, RelayStep(a, s, 0, env))
  {
    hide Core, Bytestreams, ExitOrder, RelayStep, Telescope, DecodeConnect;
    var c := ExitActs(a, s, env);
  }

  lemma StepReplies(a: Suite, es: seq<Event>, s: State, e: Event)
    requires Inv(a, s) && AllReplied(es, s) && Enabled(s, e)
    ensures AllReplied(es + [e], Step(a, s, e))
  {
    hide Core, Bytestreams, ExitOrder, RelayStep, Telescope, HasReply, UpKeeps;
    var t := Step(a, s, e);
    match e
    case RelayFrame(h, env) =>
      TakePeels(a, s, h);
      if s.down[h][s.relays[h].rx].Wrap? {
        ForwardUp(a, s, h, env);
        UpKeepsReplies(es, e, s, t);
      } else if h == 0 {
        ExitUp(a, s, env);
        UpKeepsReplies(es, e, s, t);
      } else {
        ExtendReplies(a, s, h, env);
        forall j | 0 < j < s.n ensures Replied(es + [e], t, j) {
          assert Replied(es, s, j);
          if t.up[j] != [] {
            HasReplySnoc(es, e, j, t.up[j][0]);
          }
        }
      }
    case RelayReturn(h) =>
      assert Replied(es, s, h);
      assert UpKeeps(s, t) by { ReturnUp(a, s, h); }
      UpKeepsReplies(es, e, s, t);
    case _ =>
      StepUpKeeps(a, s, e);
      UpKeepsReplies(es, e, s, t);
  }

  lemma ReturnUp(a: Suite, s: State, h: nat)
    requires Shape(s) && 1 <= h < s.n && s.up[h] != []
    ensures UpKeeps(s, Return(a, s, h))
  {
  }

  lemma {:induction false} RunReplies(a: Suite, past: seq<Event>, s: State, es: seq<Event>, t: State)
    requires Inv(a, s) && AllReplied(past, s) && Run(a, s, es, t)
    ensures Shape(t) && AllReplied(past + es, t)
    decreases |es|
  {
    hide Core, Telescope, Bytestreams, ExitOrder, AllReplied, Step, Enabled;
    if es == [] {
      assert past + [] == past;
    } else {
      StepInv(a, s, es[0]);
      StepReplies(a, past, s, es[0]);
      RunReplies(a, past + [es[0]], Step(a, s, es[0]), es[1..], t);
      assert past + [es[0]] + es[1..] == past + es;
    }
  }

  /**
   In every run, what the client reads while it waits for a reply is the message of the handshake that
   the deepest hop's own dial began: the client completes the handshake with the hop it asked for.
   */
  lemma ReplyIsTheNextHops(a: Suite, n: nat, es: seq<Event>, s: State, env: Choice) returns (i: nat)
    requires n >= 1 && Run(a, Init(n), es, s) && Shape(s) && s.client.phase == Awaiting && Enabled(s, ClientReads(env))
    ensures i < |es| && es[i].RelayFrame? && es[i].h == s.client.deepest && es[i].env.ok
    ensures PeelDown(a, UpKey, Counter(s.client.rx), s.back[s.n - 1].buf, s.n)
         == Ok((Cell(Extend, es[i].env.msg2), s.client.deepest + 1))
  {
    hide Core, Bytestreams, ExitOrder, PeelDown, Run, AllReplied, DecodeExtend;
    InitRouted(a, n);
    RunInv(a, Init(n), es, s);
    assert AllReplied([], Init(n)) by { NoRepliesYet(n); }
    RunReplies(a, [], Init(n), es, s);
    assert [] + es == es;
    var k, c := ClientFinds(a, s, env);
    assert Dialling(s, k);
    assert Replied(es, s, k) by { RepliedAt(es, s, k); }
    i :| 0 <= i < |es| && IsReply(es[i], k, s.up[k][0]);
  }

  lemma NoRepliesYet(n: nat)
    requires n >= 1
    ensures AllReplied([], Init(n))
  {
  }

  lemma RepliedAt(es: seq<Event>, s: State, h: nat)
    requires Shape(s) && AllReplied(es, s) && 0 < h < s.n
    ensures Replied(es, s, h)
  {
  }
}
