/** Streams of layered items and the byte links that carry them, used by the circuit model. */
module Streams {
  import opened Bytes
  import opened Cells
  import opened Noise
  import opened Layer

  // ---- Streams of sealed items ----

  /** What one layer's plaintext holds: a cell for the layer's owner, or an adjacent frame. */
  datatype Item = Own(cell: Cell) | Wrap(blob: seq<byte>)

  predicate Sound(x: Item, h: nat) {
    match x
    case Own(c) => c.Fits()
    case Wrap(blob) => h >= 1 && |blob| == LinkCellLen(h)
  }

  predicate AllSound(xs: seq<Item>, h: nat) {
    forall i :: 0 <= i < |xs| ==> Sound(xs[i], h)
  }

  /** The layer's plaintext; an item no cell can hold has none. */
  function Plain(x: Item, h: nat): (p: seq<byte>)
    ensures Sound(x, h) ==> |p| == PeeledLen(h + 1)
  {
    match x
    case Own(c) => if c.Fits() then ToMePlain(c, h + 1) else []
    case Wrap(blob) => ForwardPlain(blob)
  }

  /** The frames a session emits for a list of items, counters running from zero. */
  function Frames(a: Suite, key: Key, xs: seq<Item>, h: nat): (fs: seq<seq<byte>>)
    ensures |fs| == |xs|
    ensures forall n :: 0 <= n < |fs| ==> fs[n] == a.seal(key, n, Plain(xs[n], h))
  {
    seq(|xs|, n requires 0 <= n < |xs| => a.seal(key, n, Plain(xs[n], h)))
  }

  lemma FramesUniform(a: Suite, key: Key, xs: seq<Item>, h: nat)
    requires AllSound(xs, h)
    ensures Uniform(Frames(a, key, xs, h), LinkCellLen(h + 1))
  {
  }

  lemma FramesSnoc(a: Suite, key: Key, xs: seq<Item>, x: Item, h: nat)
    ensures Frames(a, key, xs + [x], h) == Frames(a, key, xs, h) + [a.seal(key, |xs|, Plain(x, h))]
  {
  }

  /** A receiver whose counter is `n` reads item `n` out of frame `n`. */
  lemma FramePeels(a: Suite, key: Key, xs: seq<Item>, h: nat, n: nat)
    requires AllSound(xs, h) && n < |xs|
    ensures PeelFrame(a, key, n, Frames(a, key, xs, h)[n], h + 1)
         == (match xs[n] case Own(c) => (Ok(ToMe(c)), n + 1) case Wrap(b) => (Ok(Forward(b)), n + 1))
  {
    match xs[n]
    case Own(c) => PeelToMe(c, h + 1);
    case Wrap(b) => PeelForward(b, h + 1);
  }

  /** The forwarded frames among some items, in order. */
  function Blobs(xs: seq<Item>): seq<seq<byte>> {
    if xs == [] then []
    else Blobs(xs[..|xs| - 1]) + (match xs[|xs| - 1] case Wrap(b) => [b] case Own(_) => [])
  }

  lemma BlobsSnoc(xs: seq<Item>, x: Item)
    ensures Blobs(xs + [x]) == Blobs(xs) + (match x case Wrap(b) => [b] case Own(_) => [])
  {
    assert (xs + [x])[..|xs|] == xs;
  }

  lemma {:induction false} BlobsPrefix(xs: seq<Item>, n: nat)
    requires n <= |xs|
    ensures Blobs(xs[..n]) <= Blobs(xs)
  {
    if n < |xs| {
      BlobsPrefix(xs[..|xs| - 1], n);
      assert xs[..|xs| - 1][..n] == xs[..n];
    } else {
      assert xs[..n] == xs;
    }
  }

  /** How many blobs the first `n` items hold. */
  function Passed(xs: seq<Item>, n: nat): nat {
    if n <= |xs| then |Blobs(xs[..n])| else 0
  }

  lemma PassedSnoc(xs: seq<Item>, x: Item, n: nat)
    requires n <= |xs|
    ensures Passed(xs + [x], n) == Passed(xs, n)
  {
    assert (xs + [x])[..n] == xs[..n];
  }

  lemma PassedAll(xs: seq<Item>)
    ensures Passed(xs, |xs|) == |Blobs(xs)|
  {
    assert xs[..|xs|] == xs;
  }

  /** Passing item `n` passes one more blob exactly when it is a forwarded frame, and which one. */
  lemma PassedStep(xs: seq<Item>, n: nat)
    requires n < |xs|
    ensures Passed(xs, n + 1) == Passed(xs, n) + (if xs[n].Wrap? then 1 else 0)
    ensures Passed(xs, n + 1) <= |Blobs(xs)|
    ensures xs[n].Wrap? ==> Blobs(xs)[Passed(xs, n)] == xs[n].blob
  {
    assert xs[..n + 1] == xs[..n] + [xs[n]];
    BlobsSnoc(xs[..n], xs[n]);
    BlobsPrefix(xs, n + 1);
  }

  /** The application bytes carried by the DATA cells among some items. */
  function Payload(xs: seq<Item>): seq<byte> {
    if xs == [] then []
    else Payload(xs[..|xs| - 1]) + DataOf(xs[|xs| - 1])
  }

  function DataOf(x: Item): seq<byte> {
    if x.Own? && x.cell.cellType == Data then x.cell.payload else []
  }

  lemma PayloadSnoc(xs: seq<Item>, x: Item)
    ensures Payload(xs + [x]) == Payload(xs) + DataOf(x)
  {
    assert (xs + [x])[..|xs|] == xs;
  }

  lemma {:induction false} PayloadPrefix(xs: seq<Item>, n: nat)
    requires n <= |xs|
    ensures Payload(xs[..n]) <= Payload(xs)
  {
    if n < |xs| {
      PayloadPrefix(xs[..|xs| - 1], n);
      assert xs[..|xs| - 1][..n] == xs[..n];
    } else {
      assert xs[..n] == xs;
    }
  }

  // ---- Links ----

  /** Bytes under way, bytes in the reader's frame buffer, and whether the link has been severed. */
  datatype Link = Link(wire: seq<byte>, buf: seq<byte>, severed: bool) {
    function Push(frame: seq<byte>): Link {
      if severed then this else this.(wire := wire + frame)
    }

    function Deliver(k: nat): Link
      requires k <= |wire|
    {
      this.(wire := wire[k..], buf := buf + wire[..k])
    }
  }

  /** A severed link may have lost a tail, at any byte; an intact one holds exactly these frames. */
  ghost predicate Carries(l: Link, frames: seq<seq<byte>>, h: nat) {
    && l.buf + l.wire <= Flatten(frames)
    && (!l.severed ==> l.buf + l.wire == Flatten(frames))
    && |l.buf| <= LinkCellLen(h + 1)
  }

  lemma CarriesPush(l: Link, frames: seq<seq<byte>>, f: seq<byte>, h: nat)
    requires Carries(l, frames, h)
    ensures Carries(l.Push(f), frames + [f], h)
  {
    FlattenSnoc(frames, f);
    assert !l.severed ==> l.buf + (l.wire + f) == (l.buf + l.wire) + f;
  }

  /** A full frame buffer holds exactly the oldest frame under way. */
  lemma CarriesTake(l: Link, frames: seq<seq<byte>>, h: nat)
    requires Carries(l, frames, h) && Uniform(frames, LinkCellLen(h + 1))
    requires |l.buf| == LinkCellLen(h + 1)
    ensures frames != [] && l.buf == frames[0]
    ensures Carries(l.(buf := []), frames[1..], h)
  {
    var len := LinkCellLen(h + 1);
    assert frames != [];
    var all := Flatten(frames);
    assert all == frames[0] + Flatten(frames[1..]);
    assert l.buf == (l.buf + l.wire)[..len] == all[..len] == frames[0];
    assert l.wire == (l.buf + l.wire)[len..];
    assert Flatten(frames[1..]) == all[len..];
  }

  lemma CarriesDeliver(l: Link, frames: seq<seq<byte>>, h: nat, k: nat)
    requires Carries(l, frames, h) && k <= |l.wire| && |l.buf| + k <= LinkCellLen(h + 1)
    ensures Carries(l.Deliver(k), frames, h)
  {
    assert l.buf + l.wire[..k] + l.wire[k..] == l.buf + l.wire;
  }

  lemma CarriesSever(l: Link, frames: seq<seq<byte>>, h: nat, keep: nat)
    requires Carries(l, frames, h) && keep <= |l.wire|
    ensures Carries(l.(wire := l.wire[..keep], severed := true), frames, h)
  {
    assert l.buf + l.wire[..keep] == (l.buf + l.wire)[..|l.buf| + keep];
  }

  // ---- One session's frames on one link ----

  /** Of the items sealed so far, those from `from` to `to` are on the link, in order. */
  ghost predicate Lane(a: Suite, key: Key, h: nat, xs: seq<Item>, from: nat, to: nat, l: Link) {
    && AllSound(xs, h)
    && from <= to <= |xs|
    && Carries(l, Frames(a, key, xs, h)[from..to], h)
  }

  lemma LaneSnoc(a: Suite, key: Key, h: nat, xs: seq<Item>, from: nat, to: nat, l: Link, x: Item)
    requires Lane(a, key, h, xs, from, to, l) && Sound(x, h)
    ensures Lane(a, key, h, xs + [x], from, to, l)
  {
    FramesSnoc(a, key, xs, x, h);
    assert Frames(a, key, xs + [x], h)[from..to] == Frames(a, key, xs, h)[from..to];
  }

  lemma LanePush(a: Suite, key: Key, h: nat, xs: seq<Item>, from: nat, to: nat, l: Link, f: seq<byte>)
    requires Lane(a, key, h, xs, from, to, l)
    requires to < |xs| && f == Frames(a, key, xs, h)[to]
    ensures Lane(a, key, h, xs, from, to + 1, l.Push(f))
  {
    CarriesPush(l, Frames(a, key, xs, h)[from..to], f, h);
    assert Frames(a, key, xs, h)[from..to + 1] == Frames(a, key, xs, h)[from..to] + [f];
  }

  /** A full buffer holds the oldest frame, which the receiver at counter `from` peels to its item. */
  lemma LaneTake(a: Suite, key: Key, h: nat, xs: seq<Item>, from: nat, to: nat, l: Link)
    requires Lane(a, key, h, xs, from, to, l) && |l.buf| == LinkCellLen(h + 1)
    ensures from < to && l.buf == Frames(a, key, xs, h)[from]
    ensures Lane(a, key, h, xs, from + 1, to, l.(buf := []))
  {
    var waiting := Frames(a, key, xs, h)[from..to];
    FramesUniform(a, key, xs, h);
    CarriesTake(l, waiting, h);
    assert waiting[1..] == Frames(a, key, xs, h)[from + 1..to];
  }

  lemma LaneDeliver(a: Suite, key: Key, h: nat, xs: seq<Item>, from: nat, to: nat, l: Link, k: nat)
    requires Lane(a, key, h, xs, from, to, l)
    requires k <= |l.wire| && |l.buf| + k <= LinkCellLen(h + 1)
    ensures Lane(a, key, h, xs, from, to, l.Deliver(k))
  {
    CarriesDeliver(l, Frames(a, key, xs, h)[from..to], h, k);
  }

  lemma LaneSever(a: Suite, key: Key, h: nat, xs: seq<Item>, from: nat, to: nat, l: Link, keep: nat)
    requires Lane(a, key, h, xs, from, to, l) && keep <= |l.wire|
    ensures Lane(a, key, h, xs, from, to, l.(wire := l.wire[..keep], severed := true))
  {
    CarriesSever(l, Frames(a, key, xs, h)[from..to], h, keep);
  }
}
