/**
 A circuit as a step system: a client, a chain of relays, and one byte link in each direction
 between neighbours. Hop `n - 1` is the guard and hop 0 the exit; hop `h`'s inbound link carries
 `h + 1` layers. The relays' and the client's own state drives every step. The `down` and `up`
 fields are history: what the client sealed for each hop and what each hop sealed for the client.
 */
module Tunnel {
  import opened Bytes
  import opened Cells
  import opened Noise
  import opened Layer
  import opened Streams

  // ---- State ----

  /** What a relay can be asked to open: a link to a next relay, or a connection to the destination. */
  datatype Dial = ToRelay(ext: ExtendForward) | ToDest(dst: ConnectPayload)

  /** `asked` is every dial the relay set out on, in order. */
  datatype Relay = Relay(
    up: bool,
    alive: bool,
    rx: nat,
    tx: nat,
    next: bool,
    dest: bool,
    destEof: bool,
    asked: seq<Dial>)

  /** Ready to send the next EXTEND or the CONNECT, waiting for an EXTEND reply, or carrying data. */
  datatype Phase = Ready | Awaiting | Running

  /** `deepest` is the innermost hop a handshake has completed with. */
  datatype Client = Client(alive: bool, phase: Phase, deepest: nat, tx: seq<nat>, rx: seq<nat>)

  datatype State = State(
    n: nat,
    client: Client,
    relays: seq<Relay>,
    fwd: seq<Link>,
    back: seq<Link>,
    userRead: seq<byte>,
    userGot: seq<byte>,
    destRead: seq<byte>,
    destGot: seq<byte>,
    down: seq<seq<Item>>,
    up: seq<seq<Item>>)

  predicate Shape(s: State) {
    && s.n >= 1
    && |s.client.tx| == |s.client.rx| == |s.relays| == |s.fwd| == |s.back| == |s.down| == |s.up| == s.n
    && s.client.deepest < s.n
  }

  /** After the handshake with the guard: one hop known, nothing on any link. */
  function Init(n: nat): (s: State)
    requires n >= 1
    ensures Shape(s)
  {
    var idle := Relay(false, true, 0, 0, false, false, false, []);
    var zero := seq(n, _ => 0);
    var quiet := seq(n, _ => Link([], [], false));
    var none := seq(n, _ => []);
    State(n, Client(true, Ready, n - 1, zero, zero), seq(n, _ => idle)[n - 1 := idle.(up := true)],
          quiet, quiet, [], [], [], [], none, none)
  }

  // ---- What holds of the layered streams ----

  /** How many of the frames sealed for hop `h` have been put on its inbound link. */
  function Pushed(s: State, h: nat): nat
    requires Shape(s) && h < s.n
  {
    if h == s.n - 1 then |s.down[h]| else Passed(s.down[h + 1], s.relays[h + 1].rx)
  }

  /** How many of hop `h`'s return frames its upstream neighbour has taken off the link. */
  function Taken(s: State, h: nat): nat
    requires Shape(s) && h < s.n
  {
    if h == s.n - 1 then s.client.rx[h] else |Blobs(s.up[h + 1])|
  }

  /**
   Downward, hop `h`: the client's counter counts what it sealed for the hop; what it wrapped in
   that layer is exactly what it sealed for the next hop in; and the inbound link carries the
   frames that were pushed and not yet received.
   */
  ghost predicate DownAt(a: Suite, s: State, h: nat)
    requires Shape(s) && h < s.n
  {
    && s.client.tx[h] == |s.down[h]|
    && (h > 0 ==> Blobs(s.down[h]) == Frames(a, DownKey(h), s.down[h - 1], h - 1))
    && Lane(a, DownKey(h + 1), h, s.down[h], s.relays[h].rx, Pushed(s, h), s.fwd[h])
  }

  /** Upward, hop `h`: the mirror image, with the relays doing the wrapping. */
  ghost predicate UpAt(a: Suite, s: State, h: nat)
    requires Shape(s) && h < s.n
  {
    && s.relays[h].tx == |s.up[h]|
    && s.client.rx[h] <= Taken(s, h)
    && (h > 0 ==> Blobs(s.up[h]) <= Frames(a, UpKey(h), s.up[h - 1], h - 1))
    && (h > 0 ==> s.client.rx[h - 1] == Passed(s.up[h], s.client.rx[h]))
    && Lane(a, UpKey(h + 1), h, s.up[h], Taken(s, h), |s.up[h]|, s.back[h])
  }

  ghost predicate Downward(a: Suite, s: State)
    requires Shape(s)
  {
    forall h :: 0 <= h < s.n ==> DownAt(a, s, h)
  }

  ghost predicate Upward(a: Suite, s: State)
    requires Shape(s)
  {
    forall h :: 0 <= h < s.n ==> UpAt(a, s, h)
  }

  ghost predicate Core(a: Suite, s: State) {
    Shape(s) && Downward(a, s) && Upward(a, s)
  }

  // ---- The six ways a step touches the streams ----

  function Counter(ctr: seq<nat>): nat -> nat {
    l => if 1 <= l <= |ctr| then ctr[l - 1] else 0
  }

  /** What the client adds to hop `h`'s stream when it seals `c` for hop `target`. */
  function SealedFor(a: Suite, tx: seq<nat>, c: Cell, target: nat, h: nat): Item
    requires c.Fits() && target <= h
  {
    if h == target then Own(c) else Wrap(Onion(a, DownKey, Counter(tx), c, target + 1, h))
  }

  /** The client seals a cell for one hop, wraps it for every hop before, and writes the frame. */
  function Send(a: Suite, s: State, c: Cell, target: nat): (t: State)
    requires Shape(s) && c.Fits() && target < s.n
    ensures Shape(t) && t.n == s.n
  {
    var frame := Onion(a, DownKey, Counter(s.client.tx), c, target + 1, s.n);
    s.(client := s.client.(tx := seq(s.n, h requires 0 <= h < s.n => s.client.tx[h] + if h < target then 0 else 1)),
       fwd := s.fwd[s.n - 1 := s.fwd[s.n - 1].Push(frame)],
       down := seq(s.n, h requires 0 <= h < s.n =>
         if h < target then s.down[h] else s.down[h] + [SealedFor(a, s.client.tx, c, target, h)]))
  }

  /** Relay `h` takes a frame off its inbound link. */
  function Take(s: State, h: nat): (t: State)
    requires Shape(s) && h < s.n
    ensures Shape(t) && t.n == s.n
  {
    s.(relays := s.relays[h := s.relays[h].(rx := s.relays[h].rx + 1)],
       fwd := s.fwd[h := s.fwd[h].(buf := [])])
  }

  /** ... and passes a forwarded one on verbatim. */
  function TakeAndForward(s: State, h: nat, blob: seq<byte>): (t: State)
    requires Shape(s) && 1 <= h < s.n
    ensures Shape(t) && t.n == s.n
  {
    s.(relays := s.relays[h := s.relays[h].(rx := s.relays[h].rx + 1)],
       fwd := s.fwd[h := s.fwd[h].(buf := [])][h - 1 := s.fwd[h - 1].Push(blob)])
  }

  /** Relay `h` seals a cell of its own toward the client. */
  function Emit(a: Suite, s: State, h: nat, c: Cell): (t: State)
    requires Shape(s) && h < s.n
    ensures Shape(t) && t.n == s.n
  {
    var frame := a.seal(UpKey(h + 1), s.relays[h].tx, Plain(Own(c), h));
    s.(relays := s.relays[h := s.relays[h].(tx := s.relays[h].tx + 1)],
       back := s.back[h := s.back[h].Push(frame)],
       up := s.up[h := s.up[h] + [Own(c)]])
  }

  /** Relay `h` takes the next hop's frame and wraps it in its own layer. */
  function Return(a: Suite, s: State, h: nat): (t: State)
    requires Shape(s) && 1 <= h < s.n
    ensures Shape(t) && t.n == s.n
  {
    var blob := s.back[h - 1].buf;
    var frame := a.seal(UpKey(h + 1), s.relays[h].tx, ForwardPlain(blob));
    s.(relays := s.relays[h := s.relays[h].(tx := s.relays[h].tx + 1)],
       back := s.back[h := s.back[h].Push(frame)][h - 1 := s.back[h - 1].(buf := [])],
       up := s.up[h := s.up[h] + [Wrap(blob)]])
  }

  /** The client takes a frame and peels it down to hop `k`. */
  function Receive(s: State, k: nat): (t: State)
    requires Shape(s) && k < s.n
    ensures Shape(t) && t.n == s.n
  {
    s.(client := s.client.(rx := seq(s.n, h requires 0 <= h < s.n => s.client.rx[h] + if h < k then 0 else 1)),
       back := s.back[s.n - 1 := s.back[s.n - 1].(buf := [])])
  }

  // ---- Each keeps the streams in step ----

  lemma DownKept(a: Suite, s: State, t: State)
    requires Core(a, s) && Shape(t) && t.n == s.n
    requires t.client.tx == s.client.tx && t.fwd == s.fwd && t.down == s.down
    requires forall h :: 0 <= h < s.n ==> t.relays[h].rx == s.relays[h].rx
    ensures Downward(a, t)
  {
    hide Lane, Frames, Blobs;
    forall h | 0 <= h < s.n ensures DownAt(a, t, h) {
      assert DownAt(a, s, h);
    }
  }

  lemma UpKept(a: Suite, s: State, t: State)
    requires Core(a, s) && Shape(t) && t.n == s.n
    requires t.client.rx == s.client.rx && t.back == s.back && t.up == s.up
    requires forall h :: 0 <= h < s.n ==> t.relays[h].tx == s.relays[h].tx
    ensures Upward(a, t)
  {
    hide Lane, Frames, Blobs;
    forall h | 0 <= h < s.n ensures UpAt(a, t, h) {
      assert UpAt(a, s, h);
    }
  }

  /** The new outermost frame at hop `h` is the next frame of that hop's session. */
  lemma OnionIsNextFrame(a: Suite, tx: seq<nat>, xs: seq<Item>, c: Cell, target: nat, h: nat)
    requires c.Fits() && target <= h < |tx| && tx[h] == |xs|
    ensures var onion := Onion(a, DownKey, Counter(tx), c, target + 1, h + 1);
            var item := SealedFor(a, tx, c, target, h);
            Frames(a, DownKey(h + 1), xs + [item], h) == Frames(a, DownKey(h + 1), xs, h) + [onion]
  {
    FramesSnoc(a, DownKey(h + 1), xs, SealedFor(a, tx, c, target, h), h);
  }

  lemma Bounds(a: Suite, s: State, h: nat)
    requires Core(a, s) && h < s.n
    ensures s.relays[h].rx <= Pushed(s, h) <= |s.down[h]| && AllSound(s.down[h], h)
    ensures s.client.rx[h] <= Taken(s, h) <= |s.up[h]| && AllSound(s.up[h], h)
  {
    assert DownAt(a, s, h) && UpAt(a, s, h);
  }

  lemma SendNesting(a: Suite, s: State, c: Cell, target: nat, h: nat)
    requires Core(a, s) && c.Fits() && target < s.n && 0 < h < s.n
    ensures var t := Send(a, s, c, target); Blobs(t.down[h]) == Frames(a, DownKey(h), t.down[h - 1], h - 1)
  {
    hide Onion, Lane;
    assert DownAt(a, s, h) && DownAt(a, s, h - 1);
    if h >= target {
      BlobsSnoc(s.down[h], SealedFor(a, s.client.tx, c, target, h));
    }
    if h > target {
      OnionIsNextFrame(a, s.client.tx, s.down[h - 1], c, target, h - 1);
    }
  }

  lemma SendLane(a: Suite, s: State, c: Cell, target: nat, h: nat)
    requires Core(a, s) && c.Fits() && target < s.n && h < s.n
    ensures var t := Send(a, s, c, target);
            Lane(a, DownKey(h + 1), h, t.down[h], s.relays[h].rx, Pushed(t, h), t.fwd[h])
  {
    hide Lane;
    var t := Send(a, s, c, target);
    assert DownAt(a, s, h);
    if h >= target {
      var x := SealedFor(a, s.client.tx, c, target, h);
      LaneSnoc(a, DownKey(h + 1), h, s.down[h], s.relays[h].rx, Pushed(s, h), s.fwd[h], x);
      if h == s.n - 1 {
        OnionIsNextFrame(a, s.client.tx, s.down[h], c, target, h);
        LanePush(a, DownKey(h + 1), h, t.down[h], s.relays[h].rx, |s.down[h]|, s.fwd[h],
                 Onion(a, DownKey, Counter(s.client.tx), c, target + 1, s.n));
      }
    }
    if h < s.n - 1 {
      Bounds(a, s, h + 1);
      if h + 1 >= target {
        PassedSnoc(s.down[h + 1], SealedFor(a, s.client.tx, c, target, h + 1), s.relays[h + 1].rx);
      }
    }
  }

  lemma SendCore(a: Suite, s: State, c: Cell, target: nat)
    requires Core(a, s) && c.Fits() && target < s.n
    ensures Core(a, Send(a, s, c, target))
  {
    var t := Send(a, s, c, target);
    forall h | 0 <= h < s.n ensures DownAt(a, t, h) {
      assert DownAt(a, s, h);
      SendLane(a, s, c, target, h);
      if h > 0 {
        SendNesting(a, s, c, target, h);
      }
    }
    UpKept(a, s, t);
  }

  /** A relay with a full frame buffer decrypts it, and finds the next item the client sealed for it. */
  lemma TakePeels(a: Suite, s: State, h: nat)
    requires Core(a, s) && h < s.n && |s.fwd[h].buf| == LinkCellLen(h + 1)
    ensures s.relays[h].rx < |s.down[h]| && Sound(s.down[h][s.relays[h].rx], h)
    ensures PeelFrame(a, DownKey(h + 1), s.relays[h].rx, s.fwd[h].buf, h + 1)
         == (match s.down[h][s.relays[h].rx]
             case Own(c) => (Ok(ToMe(c)), s.relays[h].rx + 1)
             case Wrap(b) => (Ok(Forward(b)), s.relays[h].rx + 1))
    ensures Lane(a, DownKey(h + 1), h, s.down[h], s.relays[h].rx + 1, Pushed(s, h), s.fwd[h].(buf := []))
  {
    assert DownAt(a, s, h);
    LaneTake(a, DownKey(h + 1), h, s.down[h], s.relays[h].rx, Pushed(s, h), s.fwd[h]);
    FramePeels(a, DownKey(h + 1), s.down[h], h, s.relays[h].rx);
  }

  lemma TakeCore(a: Suite, s: State, h: nat)
    requires Core(a, s) && h < s.n && |s.fwd[h].buf| == LinkCellLen(h + 1)
    requires s.relays[h].rx < |s.down[h]| && s.down[h][s.relays[h].rx].Own?
    ensures Core(a, Take(s, h))
  {
    hide Lane, Frames, Blobs;
    var t := Take(s, h);
    TakePeels(a, s, h);
    PassedStep(s.down[h], s.relays[h].rx);
    forall j | 0 <= j < s.n ensures DownAt(a, t, j) {
      assert DownAt(a, s, j);
    }
    UpKept(a, s, t);
  }

  lemma TakeAndForwardCore(a: Suite, s: State, h: nat)
    requires Core(a, s) && h < s.n && |s.fwd[h].buf| == LinkCellLen(h + 1)
    requires s.relays[h].rx < |s.down[h]| && s.down[h][s.relays[h].rx].Wrap?
    ensures h >= 1 && Core(a, TakeAndForward(s, h, s.down[h][s.relays[h].rx].blob))
  {
    hide Lane, Frames, Blobs;
    var blob := s.down[h][s.relays[h].rx].blob;
    TakePeels(a, s, h);
    var t := TakeAndForward(s, h, blob);
    PassedStep(s.down[h], s.relays[h].rx);
    assert DownAt(a, s, h) && DownAt(a, s, h - 1);
    LanePush(a, DownKey(h), h - 1, s.down[h - 1], s.relays[h - 1].rx, Pushed(s, h - 1), s.fwd[h - 1], blob);
    forall j | 0 <= j < s.n ensures DownAt(a, t, j) {
      assert DownAt(a, s, j);
    }
    UpKept(a, s, t);
  }

  lemma EmitCore(a: Suite, s: State, h: nat, c: Cell)
    requires Core(a, s) && h < s.n && c.Fits()
    ensures Core(a, Emit(a, s, h, c))
  {
    hide Lane, Frames, Blobs;
    var t := Emit(a, s, h, c);
    var frame := a.seal(UpKey(h + 1), s.relays[h].tx, Plain(Own(c), h));
    assert UpAt(a, s, h);
    FramesSnoc(a, UpKey(h + 1), s.up[h], Own(c), h);
    BlobsSnoc(s.up[h], Own(c));
    Bounds(a, s, h);
    PassedSnoc(s.up[h], Own(c), s.client.rx[h]);
    LaneSnoc(a, UpKey(h + 1), h, s.up[h], Taken(s, h), |s.up[h]|, s.back[h], Own(c));
    LanePush(a, UpKey(h + 1), h, t.up[h], Taken(s, h), |s.up[h]|, s.back[h], frame);
    forall j | 0 <= j < s.n ensures UpAt(a, t, j) {
      assert UpAt(a, s, j);
    }
    DownKept(a, s, t);
  }

  /** The wrapped frame is the next one of hop `h`'s return session. */
  lemma ReturnLane(a: Suite, s: State, h: nat)
    requires Core(a, s) && 1 <= h < s.n && |s.back[h - 1].buf| == LinkCellLen(h)
    ensures var t := Return(a, s, h); Lane(a, UpKey(h + 1), h, t.up[h], Taken(s, h), |t.up[h]|, t.back[h])
  {
    hide Lane, Frames, Blobs;
    var t := Return(a, s, h);
    var x := Wrap(s.back[h - 1].buf);
    var frame := a.seal(UpKey(h + 1), s.relays[h].tx, Plain(x, h));
    assert UpAt(a, s, h);
    FramesSnoc(a, UpKey(h + 1), s.up[h], x, h);
    LaneSnoc(a, UpKey(h + 1), h, s.up[h], Taken(s, h), |s.up[h]|, s.back[h], x);
    LanePush(a, UpKey(h + 1), h, t.up[h], Taken(s, h), |s.up[h]|, s.back[h], frame);
  }

  lemma ReturnCore(a: Suite, s: State, h: nat)
    requires Core(a, s) && 1 <= h < s.n && |s.back[h - 1].buf| == LinkCellLen(h)
    ensures Core(a, Return(a, s, h))
  {
    hide Lane, Frames, Blobs;
    var t := Return(a, s, h);
    var x := Wrap(s.back[h - 1].buf);
    assert UpAt(a, s, h) && UpAt(a, s, h - 1);
    LaneTake(a, UpKey(h), h - 1, s.up[h - 1], Taken(s, h - 1), |s.up[h - 1]|, s.back[h - 1]);
    BlobsSnoc(s.up[h], x);
    Bounds(a, s, h);
    PassedSnoc(s.up[h], x, s.client.rx[h]);
    ReturnLane(a, s, h);
    forall j | 0 <= j < s.n ensures UpAt(a, t, j) {
      assert UpAt(a, s, j);
    }
    DownKept(a, s, t);
  }

  /** The client decrypts every layer of a return frame, down to the hop that sealed the cell in it. */
  lemma {:induction false} ClientPeels(a: Suite, s: State, wire: seq<byte>, h: nat) returns (k: nat, c: Cell)
    requires Core(a, s) && h < s.n && s.client.rx[h] < |s.up[h]|
    requires wire == Frames(a, UpKey(h + 1), s.up[h], h)[s.client.rx[h]]
    ensures k <= h && s.client.rx[k] < |s.up[k]| && s.up[k][s.client.rx[k]] == Own(c)
    ensures forall j :: k < j <= h ==> s.client.rx[j] < |s.up[j]| && s.up[j][s.client.rx[j]].Wrap?
    ensures PeelDown(a, UpKey, Counter(s.client.rx), wire, h + 1) == Ok((c, k + 1))
    decreases h
  {
    hide Lane, Blobs, Frames, PeelFrame;
    Bounds(a, s, h);
    FramePeels(a, UpKey(h + 1), s.up[h], h, s.client.rx[h]);
    match s.up[h][s.client.rx[h]]
    case Own(own) => k, c := h, own;
    case Wrap(blob) =>
      assert Sound(s.up[h][s.client.rx[h]], h);
      assert UpAt(a, s, h);
      PassedStep(s.up[h], s.client.rx[h]);
      k, c := ClientPeels(a, s, blob, h - 1);
  }

  lemma ReceiveCore(a: Suite, s: State, k: nat)
    requires Core(a, s) && k < s.n && |s.back[s.n - 1].buf| == LinkCellLen(s.n)
    requires forall j :: k <= j < s.n ==> s.client.rx[j] < |s.up[j]| && s.up[j][s.client.rx[j]].Wrap? == (j != k)
    ensures Core(a, Receive(s, k))
  {
    hide Lane, Frames, Blobs;
    var t := Receive(s, k);
    var g := s.n - 1;
    assert UpAt(a, s, g);
    LaneTake(a, UpKey(s.n), g, s.up[g], Taken(s, g), |s.up[g]|, s.back[g]);
    forall j | 0 <= j < s.n ensures UpAt(a, t, j) {
      assert UpAt(a, s, j);
      if j >= k {
        PassedStep(s.up[j], s.client.rx[j]);
      }
      if k <= j + 1 < s.n {
        assert UpAt(a, s, j + 1);
        PassedStep(s.up[j + 1], s.client.rx[j + 1]);
      }
    }
    DownKept(a, s, t);
  }

  // ---- The network ----

  /** Some bytes arrive in a reader's buffer, never beyond the frame being assembled. */
  function Deliver(s: State, downward: bool, h: nat, k: nat): (t: State)
    requires Shape(s) && h < s.n
    requires k <= |(if downward then s.fwd else s.back)[h].wire|
    ensures Shape(t) && t.n == s.n
  {
    if downward then s.(fwd := s.fwd[h := s.fwd[h].Deliver(k)])
    else s.(back := s.back[h := s.back[h].Deliver(k)])
  }

  /** A link breaks: a tail of what was under way is lost, and later writes go nowhere. */
  function Sever(s: State, downward: bool, h: nat, keep: nat): (t: State)
    requires Shape(s) && h < s.n
    requires keep <= |(if downward then s.fwd else s.back)[h].wire|
    ensures Shape(t) && t.n == s.n
  {
    if downward then s.(fwd := s.fwd[h := s.fwd[h].(wire := s.fwd[h].wire[..keep], severed := true)])
    else s.(back := s.back[h := s.back[h].(wire := s.back[h].wire[..keep], severed := true)])
  }

  lemma DeliverCore(a: Suite, s: State, downward: bool, h: nat, k: nat)
    requires Core(a, s) && h < s.n
    requires var l := (if downward then s.fwd else s.back)[h]; k <= |l.wire| && |l.buf| + k <= LinkCellLen(h + 1)
    ensures Core(a, Deliver(s, downward, h, k))
  {
    hide Lane, Frames, Blobs;
    var t := Deliver(s, downward, h, k);
    assert DownAt(a, s, h) && UpAt(a, s, h);
    if downward {
      LaneDeliver(a, DownKey(h + 1), h, s.down[h], s.relays[h].rx, Pushed(s, h), s.fwd[h], k);
    } else {
      LaneDeliver(a, UpKey(h + 1), h, s.up[h], Taken(s, h), |s.up[h]|, s.back[h], k);
    }
    forall j | 0 <= j < s.n ensures DownAt(a, t, j) {
      assert DownAt(a, s, j);
    }
    forall j | 0 <= j < s.n ensures UpAt(a, t, j) {
      assert UpAt(a, s, j);
    }
  }

  lemma SeverCore(a: Suite, s: State, downward: bool, h: nat, keep: nat)
    requires Core(a, s) && h < s.n && keep <= |(if downward then s.fwd else s.back)[h].wire|
    ensures Core(a, Sever(s, downward, h, keep))
  {
    hide Lane, Frames, Blobs;
    var t := Sever(s, downward, h, keep);
    assert DownAt(a, s, h) && UpAt(a, s, h);
    if downward {
      LaneSever(a, DownKey(h + 1), h, s.down[h], s.relays[h].rx, Pushed(s, h), s.fwd[h], keep);
    } else {
      LaneSever(a, UpKey(h + 1), h, s.up[h], Taken(s, h), |s.up[h]|, s.back[h], keep);
    }
    forall j | 0 <= j < s.n ensures DownAt(a, t, j) {
      assert DownAt(a, s, j);
    }
    forall j | 0 <= j < s.n ensures UpAt(a, t, j) {
      assert UpAt(a, s, j);
    }
  }

  lemma InitCore(a: Suite, n: nat)
    requires n >= 1
    ensures Core(a, Init(n))
  {
    var s := Init(n);
    forall h | 0 <= h < n ensures DownAt(a, s, h) && UpAt(a, s, h) {
      assert Frames(a, DownKey(h + 1), s.down[h], h) == [] && Frames(a, UpKey(h + 1), s.up[h], h) == [];
    }
  }
}
