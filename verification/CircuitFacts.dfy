/** What holds in every state a circuit can reach, whatever the interleaving. */
module CircuitFacts {
  import opened Bytes
  import opened Cells
  import opened Noise
  import opened Layer
  import opened Streams
  import opened Tunnel
  import opened Circuits

  /**
   In every interleaving, with any read splits, broken links and failures, the destination sees a
   prefix of what the user wrote and the user sees a prefix of what the destination wrote.
   */
  lemma PrefixSafety(a: Suite, n: nat, s: State)
    requires Reachable(a, n, s)
    ensures s.destGot <= s.userRead
    ensures s.userGot <= s.destRead
  {
    ReachableInv(a, n, s);
    Bounds(a, s, 0);
    PayloadPrefix(s.down[0], s.relays[0].rx);
    PayloadPrefix(s.up[0], s.client.rx[0]);
  }

  /** Every frame an honest relay or the client has read in full decrypts. */
  lemma NoDecryptionFails(a: Suite, n: nat, s: State, h: nat)
    requires Reachable(a, n, s) && h < s.n
    ensures |s.fwd[h].buf| == LinkCellLen(h + 1) ==>
              PeelFrame(a, DownKey(h + 1), s.relays[h].rx, s.fwd[h].buf, h + 1).0.Ok?
    ensures |s.back[s.n - 1].buf| == LinkCellLen(s.n) ==>
              PeelDown(a, UpKey, Counter(s.client.rx), s.back[s.n - 1].buf, s.n).Ok?
  {
    ReachableInv(a, n, s);
    hide Core, Telescope, Bytestreams, ExitOrder, Reachable, PeelDown, PeelFrame;
    if |s.fwd[h].buf| == LinkCellLen(h + 1) {
      TakePeels(a, s, h);
    }
    if |s.back[s.n - 1].buf| == LinkCellLen(s.n) {
      ClientDecrypts(a, s);
    }
  }

  lemma ClientDecrypts(a: Suite, s: State)
    requires Core(a, s) && |s.back[s.n - 1].buf| == LinkCellLen(s.n)
    ensures PeelDown(a, UpKey, Counter(s.client.rx), s.back[s.n - 1].buf, s.n).Ok?
  {
    hide Lane, PeelDown;
    var g := s.n - 1;
    assert UpAt(a, s, g);
    LaneTake(a, UpKey(s.n), g, s.up[g], Taken(s, g), |s.up[g]|, s.back[g]);
    var k, c := ClientPeels(a, s, s.back[g].buf, g);
  }

  /**
   No honest relay gives up on a frame unless a dial or write of its own failed, the exit is asked
   to close, or the destination has closed its side.
   */
  lemma RelaySurvives(a: Suite, n: nat, s: State, h: nat, env: Choice)
    requires Reachable(a, n, s) && Enabled(s, RelayFrame(h, env)) && env.ok
    requires h == 0 ==>
               && !s.relays[0].destEof && s.relays[0].rx < |s.down[0]|
               && !IsCell(s.down[0][s.relays[0].rx], CloseRequest)
    ensures Step(a, s, RelayFrame(h, env)).relays[h].alive
  {
    ReachableInv(a, n, s);
    hide Core, RelayStep, Telescope, Bytestreams, ExitOrder;
    TakePeels(a, s, h);
    if s.down[h][s.relays[h].rx].Wrap? {
      ForwardInv(a, s, h, env);
    } else if h > 0 {
      ExtendInv(a, s, h, env);
    } else {
      ExitInv(a, s, env);
    }
  }

  // ---- What keeps a circuit up, and how it closes ----

  /** The cells that leave a circuit up: one EXTEND at a hop before the exit; one CONNECT and then data at it. */
  lemma SurvivesIff(a: Suite, s: State, h: nat, c: Cell, env: Choice)
    requires Shape(s) && h < s.n && s.relays[h].alive
    ensures Act(a, s, h, c, env).relays[h].alive <==>
              || (h > 0 && c.cellType == Extend && !s.relays[h].next && |c.payload| == EXTEND_FORWARD_LEN && env.ok)
              || (h == 0 && c.cellType == Connect && !s.relays[0].dest && DecodeConnect(c.payload).Ok? && env.ok)
              || (h == 0 && c.cellType == Data && (c.payload == [] || (s.relays[0].dest && env.ok)))
  {
    hide DecodeConnect, Plain;
    match c.cellType
    case Extend =>
    case Connect =>
    case Data =>
    case CloseRequest =>
    case CloseAck =>
  }

  /** Unless it just fails, a client with data flowing ends its circuit by asking the exit to close. */
  lemma ClosingAsksTheExit(a: Suite, s: State, e: Event)
    requires Shape(s) && Enabled(s, e) && s.client.phase == Running && s.client.alive && !e.ClientFail?
    ensures var t := Step(a, s, e);
            !t.client.alive ==> t.down[0] != [] && t.down[0][|t.down[0]| - 1] == Own(Cell(CloseRequest, []))
  {
    hide PeelDown, Chunks, SendAll, EmitAll, RelayStep, Payload, Teardown, ParseExtendBackward;
    match e
    case RelayFrame(h, env) => RelayKeepsClient(a, s, h, env);
    case ClientReads(env) =>
      TeardownSends(a, s);
      match PeelDown(a, UpKey, Counter(s.client.rx), s.back[s.n - 1].buf, s.n) {
        case Err(_) =>
        case Ok((c, l)) =>
          var t := Receive(s, l - 1);
          TeardownSends(a, t);
          TeardownSends(a, t.(userGot := t.userGot + Prefix(c.payload, env.written)));
      }
    case UserData(bytes, sent) =>
      var chunks := Chunks(bytes, CELL_PAYLOAD_LEN);
      var s1 := s.(userRead := s.userRead + bytes);
      var cs := DataCells(if sent < |chunks| then chunks[..sent] else chunks);
      SendAllBytes(a, s1, cs);
      TeardownSends(a, SendAll(a, s1, cs));
    case DestData(bytes, sent) =>
      var chunks := Chunks(bytes, CELL_PAYLOAD_LEN);
      var cs := DataCells(if sent < |chunks| then chunks[..sent] else chunks);
      EmitAllBytes(a, s.(destRead := s.destRead + bytes), cs);
    case UserEof => TeardownSends(a, s);
    case _ =>
  }

  lemma RelayKeepsClient(a: Suite, s: State, h: nat, env: Choice)
    requires Shape(s) && h < s.n
    ensures RelayStep(a, s, h, env).client == s.client
  {
    hide PeelFrame, DecodeExtend, DecodeConnect;
  }

  lemma TeardownSends(a: Suite, s: State)
    requires Shape(s)
    ensures !Teardown(a, s).client.alive && Teardown(a, s).down[0] == s.down[0] + [Own(Cell(CloseRequest, []))]
  {
    hide Onion;
  }

  /** When that cell reaches the exit, the exit acknowledges it and ends. */
  lemma ExitAnswersClose(a: Suite, n: nat, s: State, env: Choice)
    requires Reachable(a, n, s) && Enabled(s, RelayFrame(0, env))
    requires s.relays[0].rx < |s.down[0]| && IsCell(s.down[0][s.relays[0].rx], CloseRequest)
    ensures var t := Step(a, s, RelayFrame(0, env));
            !t.relays[0].alive && t.up[0] == s.up[0] + [Own(Cell(CloseAck, []))] && t.destGot == s.destGot
  {
    ReachableInv(a, n, s);
    hide Core, RelayStep, Telescope, Bytestreams, ExitOrder, DecodeConnect, Reachable;
    var c := ExitActs(a, s, env);
  }

  // ---- Counters and frames under way ----

  /** Frame `i` of layer `j` carries layer `h`: its own, or that of the frame wrapped in it. */
  predicate FrameCarries(xs: seq<seq<Item>>, j: nat, i: nat, h: nat)
    requires h <= j < |xs|
    decreases j
  {
    j == h || (i < |xs[j]| && xs[j][i].Wrap? && FrameCarries(xs, j - 1, Passed(xs[j], i), h))
  }

  /** Of the frames `lo..hi` of layer `j`, how many carry layer `h`. */
  function CountCarrying(xs: seq<seq<Item>>, j: nat, lo: nat, hi: nat, h: nat): nat
    requires h <= j < |xs|
    decreases hi
  {
    if hi <= lo then 0
    else CountCarrying(xs, j, lo, hi - 1, h) + if FrameCarries(xs, j, hi - 1, h) then 1 else 0
  }

  /** How many layer-`h` frames the first `i` frames of layer `j` account for. */
  function CarriedIn(xs: seq<seq<Item>>, j: nat, i: nat, h: nat): nat
    requires h <= j < |xs|
    decreases j
  {
    if j == h then i else CarriedIn(xs, j - 1, Passed(xs[j], i), h)
  }

  lemma {:induction false} CarriedStep(xs: seq<seq<Item>>, j: nat, i: nat, h: nat)
    requires h <= j < |xs| && i < |xs[j]|
    requires forall k :: h <= k < j ==> |Blobs(xs[k + 1])| <= |xs[k]|
    ensures CarriedIn(xs, j, i + 1, h) == CarriedIn(xs, j, i, h) + if FrameCarries(xs, j, i, h) then 1 else 0
    decreases j
  {
    if j > h {
      PassedStep(xs[j], i);
      if xs[j][i].Wrap? {
        assert |Blobs(xs[(j - 1) + 1])| <= |xs[j - 1]|;
        CarriedStep(xs, j - 1, Passed(xs[j], i), h);
      }
    }
  }

  lemma {:induction false} CountIsDifference(xs: seq<seq<Item>>, j: nat, lo: nat, hi: nat, h: nat)
    requires h <= j < |xs| && lo <= hi <= |xs[j]|
    requires forall k :: h <= k < j ==> |Blobs(xs[k + 1])| <= |xs[k]|
    ensures CarriedIn(xs, j, lo, h) + CountCarrying(xs, j, lo, hi, h) == CarriedIn(xs, j, hi, h)
    decreases hi
  {
    if hi > lo {
      CountIsDifference(xs, j, lo, hi - 1, h);
      CarriedStep(xs, j, hi - 1, h);
    }
  }

  /** Layer-`h` frames under way toward the exit, on the links from hop `h`'s outward to hop `j`'s. */
  function UnderWayDown(s: State, h: nat, j: nat): nat
    requires Shape(s) && h <= j < s.n
    decreases j
  {
    CountCarrying(s.down, j, s.relays[j].rx, Pushed(s, j), h) + if j == h then 0 else UnderWayDown(s, h, j - 1)
  }

  function UnderWayUp(s: State, h: nat, j: nat): nat
    requires Shape(s) && h <= j < s.n
    decreases j
  {
    CountCarrying(s.up, j, Taken(s, j), |s.up[j]|, h) + if j == h then 0 else UnderWayUp(s, h, j - 1)
  }

  lemma NestedLengths(a: Suite, s: State)
    requires Core(a, s)
    ensures forall k :: 0 <= k < s.n - 1 ==> |Blobs(s.down[k + 1])| == |s.down[k]|
    ensures forall k :: 0 <= k < s.n - 1 ==> |Blobs(s.up[k + 1])| <= |s.up[k]|
  {
    forall k | 0 <= k < s.n - 1 ensures |Blobs(s.down[k + 1])| == |s.down[k]| && |Blobs(s.up[k + 1])| <= |s.up[k]| {
      assert DownAt(a, s, k + 1) && UpAt(a, s, k + 1);
    }
  }

  lemma {:induction false} DownTelescopes(a: Suite, s: State, h: nat, j: nat)
    requires Core(a, s) && h <= j < s.n
    ensures s.relays[h].rx + UnderWayDown(s, h, j) == CarriedIn(s.down, j, Pushed(s, j), h)
    decreases j
  {
    NestedLengths(a, s);
    Bounds(a, s, j);
    CountIsDifference(s.down, j, s.relays[j].rx, Pushed(s, j), h);
    if j > h {
      DownTelescopes(a, s, h, j - 1);
    }
  }

  lemma {:induction false} UpTelescopes(a: Suite, s: State, h: nat, j: nat)
    requires Core(a, s) && h <= j < s.n
    ensures CarriedIn(s.up, j, Taken(s, j), h) + UnderWayUp(s, h, j) == |s.up[h]|
    decreases j
  {
    NestedLengths(a, s);
    Bounds(a, s, j);
    CountIsDifference(s.up, j, Taken(s, j), |s.up[j]|, h);
    if j > h {
      UpTelescopes(a, s, h, j - 1);
      PassedAll(s.up[j]);
    }
  }

  lemma {:induction false} AllCarried(a: Suite, s: State, h: nat, j: nat)
    requires Core(a, s) && h <= j < s.n
    ensures CarriedIn(s.down, j, |s.down[j]|, h) == |s.down[h]|
    ensures CarriedIn(s.up, j, s.client.rx[j], h) == s.client.rx[h]
    decreases j
  {
    if j > h {
      NestedLengths(a, s);
      assert |Blobs(s.down[(j - 1) + 1])| == |s.down[j - 1]|;
      PassedAll(s.down[j]);
      assert UpAt(a, s, j);
      AllCarried(a, s, h, j - 1);
    }
  }

  /**
   For every hop and direction, the sender's counter is ahead of the receiver's by exactly the
   frames of that hop's layer still under way: on its own link, in a frame buffer, or nested in
   frames of outer layers. Frames a broken link has lost still count here, as they do in the counters;
   an unbroken link holds exactly its frames, byte for byte.
   */
  lemma CountersMatchFramesUnderWay(a: Suite, n: nat, s: State, h: nat)
    requires Reachable(a, n, s) && h < s.n
    ensures s.client.tx[h] == s.relays[h].rx + UnderWayDown(s, h, s.n - 1)
    ensures s.relays[h].tx == s.client.rx[h] + UnderWayUp(s, h, s.n - 1)
    ensures !s.fwd[h].severed ==>
              |s.fwd[h].buf + s.fwd[h].wire| == (Pushed(s, h) - s.relays[h].rx) * LinkCellLen(h + 1)
    ensures !s.back[h].severed ==>
              |s.back[h].buf + s.back[h].wire| == (|s.up[h]| - Taken(s, h)) * LinkCellLen(h + 1)
  {
    ReachableInv(a, n, s);
    hide Core, Telescope, Bytestreams, ExitOrder, Reachable;
    CounterGaps(a, s, h);
    LinkBytes(a, s, h);
  }

  lemma CounterGaps(a: Suite, s: State, h: nat)
    requires Core(a, s) && h < s.n
    ensures s.client.tx[h] == s.relays[h].rx + UnderWayDown(s, h, s.n - 1)
    ensures s.relays[h].tx == s.client.rx[h] + UnderWayUp(s, h, s.n - 1)
  {
    hide Lane, Frames, Blobs, UnderWayDown, UnderWayUp, CarriedIn;
    assert DownAt(a, s, h) && UpAt(a, s, h);
    DownTelescopes(a, s, h, s.n - 1);
    UpTelescopes(a, s, h, s.n - 1);
    AllCarried(a, s, h, s.n - 1);
  }

  lemma LinkBytes(a: Suite, s: State, h: nat)
    requires Core(a, s) && h < s.n
    ensures !s.fwd[h].severed ==>
              |s.fwd[h].buf + s.fwd[h].wire| == (Pushed(s, h) - s.relays[h].rx) * LinkCellLen(h + 1)
    ensures !s.back[h].severed ==>
              |s.back[h].buf + s.back[h].wire| == (|s.up[h]| - Taken(s, h)) * LinkCellLen(h + 1)
  {
    hide Lane, Frames, Blobs;
    assert DownAt(a, s, h) && UpAt(a, s, h);
    LaneLength(a, DownKey(h + 1), h, s.down[h], s.relays[h].rx, Pushed(s, h), s.fwd[h]);
    LaneLength(a, UpKey(h + 1), h, s.up[h], Taken(s, h), |s.up[h]|, s.back[h]);
  }

  lemma LaneLength(a: Suite, key: Key, h: nat, xs: seq<Item>, from: nat, to: nat, l: Link)
    requires Lane(a, key, h, xs, from, to, l)
    ensures !l.severed ==> |l.buf + l.wire| == (to - from) * LinkCellLen(h + 1)
  {
    FramesUniform(a, key, xs, h);
    FlattenLength(Frames(a, key, xs, h)[from..to], LinkCellLen(h + 1));
  }

  // ---- Nothing is lost on working links ----

  predicate Idle(l: Link) {
    !l.severed && l.buf == [] && l.wire == []
  }

  lemma LaneIdle(a: Suite, key: Key, h: nat, xs: seq<Item>, from: nat, to: nat, l: Link)
    requires Lane(a, key, h, xs, from, to, l) && Idle(l)
    ensures from == to
  {
    LaneLength(a, key, h, xs, from, to, l);
  }

  lemma {:induction false} DrainedDown(a: Suite, s: State, h: nat)
    requires Core(a, s) && h < s.n && forall j :: 0 <= j < s.n ==> Idle(s.fwd[j])
    ensures s.relays[h].rx == |s.down[h]|
    decreases s.n - h
  {
    assert DownAt(a, s, h);
    LaneIdle(a, DownKey(h + 1), h, s.down[h], s.relays[h].rx, Pushed(s, h), s.fwd[h]);
    if h < s.n - 1 {
      DrainedDown(a, s, h + 1);
      assert DownAt(a, s, h + 1);
      PassedAll(s.down[h + 1]);
    }
  }

  lemma {:induction false} DrainedUp(a: Suite, s: State, h: nat)
    requires Core(a, s) && h < s.n && forall j :: 0 <= j < s.n ==> Idle(s.back[j])
    ensures s.client.rx[h] == |s.up[h]|
    decreases s.n - h
  {
    assert UpAt(a, s, h);
    LaneIdle(a, UpKey(h + 1), h, s.up[h], Taken(s, h), |s.up[h]|, s.back[h]);
    if h < s.n - 1 {
      DrainedUp(a, s, h + 1);
      assert UpAt(a, s, h + 1);
      PassedAll(s.up[h + 1]);
    }
  }

  /** Once unbroken links have drained and both ends are up, every byte has arrived, both ways. */
  lemma DrainedMeansDelivered(a: Suite, n: nat, s: State)
    requires Reachable(a, n, s) && s.client.alive && s.relays[0].alive
    ensures (forall j :: 0 <= j < s.n ==> Idle(s.fwd[j])) ==> s.destGot == s.userRead
    ensures (forall j :: 0 <= j < s.n ==> Idle(s.back[j])) ==> s.userGot == s.destRead
  {
    ReachableInv(a, n, s);
    if forall j :: 0 <= j < s.n ==> Idle(s.fwd[j]) {
      DrainedDown(a, s, 0);
      assert Read(s.down[0], |s.down[0]|) == s.down[0];
    }
    if forall j :: 0 <= j < s.n ==> Idle(s.back[j]) {
      DrainedUp(a, s, 0);
      assert Read(s.up[0], |s.up[0]|) == s.up[0];
    }
  }
}
