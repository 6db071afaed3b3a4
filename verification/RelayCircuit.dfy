/** One relay's circuit over a link an attacker controls: what it accepts, and how it ends. */
module RelayCircuit {
  import opened Bytes
  import opened Cells
  import opened Noise
  import opened Layer
  import opened Streams
  import Tunnel
  import Circuits

  datatype Status = Pending | Active | Closed | Failed

  /** Closed and Failed are final. */
  predicate Moves(was: Status, next: Status) {
    was == next || was == Pending || (was == Active && next != Pending)
  }

  class Circuit {
    var state: Status

    constructor ()
      ensures state == Pending
    {
      state := Pending;
    }

    method Activate() returns (ok: bool)
      modifies this
      ensures ok <==> old(state) == Pending
      ensures state == (if ok then Active else old(state)) && Moves(old(state), state)
    {
      if state != Pending {
        return false;
      }
      state := Active;
      return true;
    }

    method Close() returns (ok: bool)
      modifies this
      ensures ok <==> old(state) == Pending || old(state) == Active
      ensures state == (if ok then Closed else old(state)) && Moves(old(state), state)
    {
      match state
      case Pending => state := Closed; return true;
      case Active => state := Closed; return true;
      case Closed => return false;
      case Failed => return false;
    }

    method Fail()
      modifies this
      ensures state == (if old(state) == Closed then Closed else Failed) && Moves(old(state), state)
    {
      match state
      case Pending => state := Failed;
      case Active => state := Failed;
      case Failed =>
      case Closed =>
    }
  }

  // ---- An attacker on the link ----

  /**
   Ideal authenticity: whatever the network hands over opens at a counter only if it is the very
   frame the peer sealed at that counter.
   */
  ghost predicate Unforged(a: Suite, key: Key, h: nat, xs: seq<Item>, wire: seq<byte>) {
    forall n: nat :: a.open(key, n, wire).Some? ==> n < |xs| && wire == Frames(a, key, xs, h)[n]
  }

  /** A frame is accepted exactly if it is the next one the peer sealed; then it yields that item. */
  lemma AcceptsOnlyTheNextFrame(a: Suite, key: Key, h: nat, xs: seq<Item>, wire: seq<byte>, rx: nat)
    requires AllSound(xs, h) && Unforged(a, key, h, xs, wire)
    ensures var (r, _) := PeelFrame(a, key, rx, wire, h + 1);
            if rx < |xs| && wire == Frames(a, key, xs, h)[rx]
            then r == Ok(match xs[rx] case Own(c) => ToMe(c) case Wrap(b) => Forward(b))
            else r.Err?
  {
    if rx < |xs| && wire == Frames(a, key, xs, h)[rx] {
      FramePeels(a, key, xs, h, rx);
    }
  }

  /** The assumption can be met: under a lawful cipher every frame the peer sealed is unforged. */
  lemma SealedFramesAreUnforged(key: Key, h: nat, xs: seq<Item>, n: nat)
    requires n < |xs| && n < 255
    ensures Lawful(TAGGED_SUITE) && Unforged(TAGGED_SUITE, key, h, xs, Frames(TAGGED_SUITE, key, xs, h)[n])
  {
    TaggedSuiteIsLawful();
    var a: Suite := TAGGED_SUITE;
    var wire := Frames(a, key, xs, h)[n];
    forall m: nat | a.open(key, m, wire).Some? ensures m == n {
      OpensAtItsOwnCounter(key, n, Plain(xs[n], h), m);
    }
  }

  /** What a peeled frame says, as an item of the peer's stream. */
  function AsItem(p: Peeled): Item {
    match p
    case ToMe(c) => Own(c)
    case Forward(b) => Wrap(b)
  }

  /** An accepted item and how the dial or the write it led to went. */
  datatype Deed = Deed(item: Item, env: Circuits.Choice)

  function Items(ds: seq<Deed>): (xs: seq<Item>)
    ensures |xs| == |ds| && forall i :: 0 <= i < |ds| ==> xs[i] == ds[i].item
  {
    seq(|ds|, i requires 0 <= i < |ds| => ds[i].item)
  }

  lemma ItemsGrow(ds: seq<Deed>, d: Deed, xs: seq<Item>)
    requires Items(ds) <= xs && |ds| < |xs| && xs[|ds|] == d.item
    ensures Items(ds + [d]) <= xs
  {
    assert Items(ds + [d]) == Items(ds) + [d.item];
    assert xs[..|ds| + 1] == xs[..|ds|] + [d.item];
  }

  /** One end of a session: what the peer has sealed, what was accepted, and what acting on it did. */
  datatype Session<M> = Session(sealed: seq<Item>, rx: nat, got: seq<Deed>, status: Status, mem: M)

  datatype Net = Seals(x: Item) | Delivers(wire: seq<byte>, env: Circuits.Choice) | Fails

  /** The peer seals, the network delivers anything it likes in any order, and anything may fail. */
  function Handle<M>(a: Suite, key: Key, h: nat, act: (M, Deed) -> (M, Status), s: Session<M>, e: Net): Session<M> {
    match e
    case Seals(x) => s.(sealed := s.sealed + [x])
    case Fails => if s.status == Active then s.(status := Failed) else s
    case Delivers(wire, env) =>
      if s.status != Active then s
      else
        match PeelFrame(a, key, s.rx, wire, h + 1)
        case (Err(_), rx) => s.(rx := rx, status := Failed)
        case (Ok(p), rx) =>
          var d := Deed(AsItem(p), env);
          var (mem, status) := act(s.mem, d);
          s.(rx := rx, got := s.got + [d], mem := mem, status := status)
  }

  ghost predicate Allowed<M>(a: Suite, key: Key, h: nat, s: Session<M>, e: Net) {
    match e
    case Seals(x) => Sound(x, h)
    case Delivers(wire, _) => Unforged(a, key, h, s.sealed, wire)
    case Fails => true
  }

  ghost predicate Attack<M(!new)>(a: Suite, key: Key, h: nat, act: (M, Deed) -> (M, Status), s: Session<M>,
                                  es: seq<Net>, t: Session<M>)
    decreases |es|
  {
    if es == [] then t == s
    else Allowed(a, key, h, s, es[0]) && Attack(a, key, h, act, Handle(a, key, h, act, s, es[0]), es[1..], t)
  }

  function Fold<M>(act: (M, Deed) -> (M, Status), m: M, xs: seq<Deed>): M {
    if xs == [] then m else act(Fold(act, m, xs[..|xs| - 1]), xs[|xs| - 1]).0
  }

  /** Acting on each of these in turn leaves the circuit active. */
  ghost predicate Flowing<M>(act: (M, Deed) -> (M, Status), m: M, xs: seq<Deed>) {
    forall i :: 0 <= i < |xs| ==> act(Fold(act, m, xs[..i]), xs[i]).1 == Active
  }

  /** Only the last accepted item can have ended the circuit. */
  ghost predicate InStep<M>(h: nat, act: (M, Deed) -> (M, Status), m0: M, s: Session<M>) {
    && AllSound(s.sealed, h)
    && Items(s.got) <= s.sealed
    && s.mem == Fold(act, m0, s.got)
    && (s.status == Active ==> s.rx == |s.got| && Flowing(act, m0, s.got))
    && (s.got != [] ==> Flowing(act, m0, s.got[..|s.got| - 1]))
  }

  lemma FoldSnoc<M>(act: (M, Deed) -> (M, Status), m: M, xs: seq<Deed>, x: Deed)
    ensures Fold(act, m, xs + [x]) == act(Fold(act, m, xs), x).0
  {
    assert (xs + [x])[..|xs|] == xs;
  }

  lemma FlowingSnoc<M>(act: (M, Deed) -> (M, Status), m: M, xs: seq<Deed>, x: Deed)
    requires Flowing(act, m, xs)
    ensures Flowing(act, m, xs + [x]) <==> act(Fold(act, m, xs), x).1 == Active
  {
    var ys := xs + [x];
    assert forall i :: 0 <= i <= |xs| ==> ys[..i] == xs[..i];
    assert xs[..|xs|] == xs && ys[|xs|] == x;
  }

  lemma PeelCounter(a: Suite, key: Key, rx: nat, wire: seq<byte>, layers: nat)
    requires layers >= 1
    ensures PeelFrame(a, key, rx, wire, layers).0.Ok? ==> PeelFrame(a, key, rx, wire, layers).1 == rx + 1
    ensures rx <= PeelFrame(a, key, rx, wire, layers).1 <= rx + 1
  {
  }

  lemma HandleKeepsStep<M>(a: Suite, key: Key, h: nat, act: (M, Deed) -> (M, Status), m0: M, s: Session<M>, e: Net)
    requires InStep(h, act, m0, s) && Allowed(a, key, h, s, e)
    ensures InStep(h, act, m0, Handle(a, key, h, act, s, e))
  {
    hide PeelFrame, Flowing, Unforged, Fold, Items, Frames;
    if e.Delivers? && s.status == Active {
      AcceptsOnlyTheNextFrame(a, key, h, s.sealed, e.wire, s.rx);
      PeelCounter(a, key, s.rx, e.wire, h + 1);
      var t := Handle(a, key, h, act, s, e);
      if t.got != s.got {
        var x := s.sealed[s.rx];
        var d := Deed(x, e.env);
        assert t.got == s.got + [d];
        assert t.got[..|t.got| - 1] == s.got;
        FlowingSnoc(act, m0, s.got, d);
        FoldSnoc(act, m0, s.got, d);
        ItemsGrow(s.got, d, s.sealed);
      }
    }
  }

  /**
   Whatever is dropped, reordered, replayed or altered, what a receiver has accepted is a prefix of
   what its peer sealed, and its state is what acting on that prefix alone gives.
   */
  lemma {:induction false} AcceptedIsPrefix<M(!new)>(a: Suite, key: Key, h: nat, act: (M, Deed) -> (M, Status), m0: M,
                                                     s: Session<M>, es: seq<Net>, t: Session<M>)
    requires InStep(h, act, m0, s) && Attack(a, key, h, act, s, es, t)
    ensures Items(t.got) <= t.sealed && t.mem == Fold(act, m0, t.got) && InStep(h, act, m0, t)
    decreases |es|
  {
    if es != [] {
      HandleKeepsStep(a, key, h, act, m0, s, es[0]);
      AcceptedIsPrefix(a, key, h, act, m0, Handle(a, key, h, act, s, es[0]), es[1..], t);
    }
  }

  /** Once a circuit has ended, nothing delivered later is acted on, and it stays as it ended. */
  lemma {:induction false} EndIsFinal<M(!new)>(a: Suite, key: Key, h: nat, act: (M, Deed) -> (M, Status),
                                               s: Session<M>, es: seq<Net>, t: Session<M>)
    requires s.status != Active && Attack(a, key, h, act, s, es, t)
    ensures t.status == s.status && t.got == s.got && t.mem == s.mem && t.rx == s.rx
    decreases |es|
  {
    if es != [] {
      EndIsFinal(a, key, h, act, Handle(a, key, h, act, s, es[0]), es[1..], t);
    }
  }

  /** Any frame but the next genuine one fails the circuit on the spot, for good. */
  lemma FirstRejectionIsFinal<M(!new)>(a: Suite, key: Key, h: nat, act: (M, Deed) -> (M, Status), m0: M,
                                       s: Session<M>, wire: seq<byte>, env: Circuits.Choice, es: seq<Net>,
                                       t: Session<M>)
    requires InStep(h, act, m0, s) && s.status == Active && Unforged(a, key, h, s.sealed, wire)
    requires !(s.rx < |s.sealed| && wire == Frames(a, key, s.sealed, h)[s.rx])
    requires Attack(a, key, h, act, Handle(a, key, h, act, s, Delivers(wire, env)), es, t)
    ensures t.status == Failed && t.got == s.got && t.mem == s.mem
  {
    AcceptsOnlyTheNextFrame(a, key, h, s.sealed, wire, s.rx);
    EndIsFinal(a, key, h, act, Handle(a, key, h, act, s, Delivers(wire, env)), es, t);
  }

  // ---- The exit under attack ----

  datatype ExitMem = ExitMem(dest: bool, out: seq<byte>)

  /** The exit's role dispatch; a write that fails may have put out part of the payload. */
  function ExitAct(m: ExitMem, d: Deed): (ExitMem, Status) {
    match d.item
    case Wrap(_) => (m, Failed)
    case Own(c) =>
      match c.cellType
      case Connect =>
        if m.dest || DecodeConnect(c.payload).Err? || !d.env.ok then (m, Failed) else (m.(dest := true), Active)
      case Data =>
        if c.payload == [] then (m, Active)
        else if !m.dest then (m, Failed)
        else if !d.env.ok then (m.(out := m.out + Circuits.Prefix(c.payload, d.env.written)), Failed)
        else (m.(out := m.out + c.payload), Active)
      case CloseRequest => (m, Closed)
      case Extend => (m, Failed)
      case CloseAck => (m, Failed)
  }

  /** It is the dispatch of the circuit model, seen from the exit alone. */
  lemma ExitActIsAct(a: Suite, s: Tunnel.State, c: Cell, env: Circuits.Choice)
    requires Tunnel.Shape(s) && s.relays[0].alive
    ensures var (m, status) := ExitAct(ExitMem(s.relays[0].dest, s.destGot), Deed(Own(c), env));
            var t := Circuits.Act(a, s, 0, c, env);
            && t.relays[0].dest == m.dest && t.destGot == m.out
            && (t.relays[0].alive <==> status == Active)
            && (status == Closed <==> c.cellType == CloseRequest)
  {
    hide DecodeConnect, DecodeExtend, Plain;
    match c.cellType
    case Extend =>
    case Connect =>
    case Data =>
    case CloseRequest =>
    case CloseAck =>
  }

  lemma ExitActOutput(m: ExitMem, d: Deed)
    ensures ExitAct(m, d).1 == Active ==> ExitAct(m, d).0.out == m.out + DataOf(d.item)
    ensures ExitAct(m, d).0.out <= m.out + DataOf(d.item)
  {
    hide DecodeConnect;
  }

  lemma FlowingInit<M>(act: (M, Deed) -> (M, Status), m: M, ds: seq<Deed>)
    requires Flowing(act, m, ds) && ds != []
    ensures Flowing(act, m, ds[..|ds| - 1])
    ensures act(Fold(act, m, ds[..|ds| - 1]), ds[|ds| - 1]).1 == Active
  {
    var init := ds[..|ds| - 1];
    assert forall i :: 0 <= i < |init| ==> init[..i] == ds[..i];
  }

  lemma ItemsSnoc(ds: seq<Deed>)
    requires ds != []
    ensures Payload(Items(ds)) == Payload(Items(ds[..|ds| - 1])) + DataOf(ds[|ds| - 1].item)
  {
    var init, d := ds[..|ds| - 1], ds[|ds| - 1];
    assert Items(ds) == Items(init) + [d.item];
    PayloadSnoc(Items(init), d.item);
  }

  lemma {:induction false} FlowingOutput(m: ExitMem, ds: seq<Deed>)
    requires Flowing(ExitAct, m, ds)
    ensures Fold(ExitAct, m, ds).out == m.out + Payload(Items(ds))
  {
    hide Flowing, ExitAct;
    if ds == [] {
      assert m.out + [] == m.out;
    } else {
      var init, d := ds[..|ds| - 1], ds[|ds| - 1];
      FlowingInit(ExitAct, m, ds);
      FlowingOutput(m, init);
      ExitActOutput(Fold(ExitAct, m, init), d);
      ItemsSnoc(ds);
      assert m.out + (Payload(Items(init)) + DataOf(d.item)) == m.out + Payload(Items(init)) + DataOf(d.item);
    }
  }

  /**
   With the guard, the middle and every link in an attacker's hands, and dials and writes that fail at
   any point, the bytes an honest exit writes to the destination are still a prefix of the bytes the
   client sealed for it.
   */
  lemma ExitWritesPrefixUnderAttack(a: Suite, key: Key, es: seq<Net>, t: Session<ExitMem>)
    requires Attack(a, key, 0, ExitAct, Session([], 0, [], Active, ExitMem(false, [])), es, t)
    ensures t.mem.out <= Payload(t.sealed)
  {
    var m0 := ExitMem(false, []);
    var s0: Session<ExitMem> := Session([], 0, [], Active, m0);
    assert InStep(0, ExitAct, m0, s0);
    AcceptedIsPrefix(a, key, 0, ExitAct, m0, s0, es, t);
    PayloadPrefix(t.sealed, |t.got|);
    if t.got != [] {
      var init, d := t.got[..|t.got| - 1], t.got[|t.got| - 1];
      FlowingOutput(m0, init);
      ExitActOutput(Fold(ExitAct, m0, init), d);
      ItemsSnoc(t.got);
      assert [] + Payload(Items(init)) == Payload(Items(init));
    }
    assert Items(t.got) == t.sealed[..|t.got|];
  }

  // ---- The relay's inbound loop ----

  /**
   Peel frame after frame with the circuit's transport and act on each by role, until a frame fails
   to peel or acting on it ends the circuit. What is accepted is the leading genuine frames, what was
   done is the fold over them, and the circuit's end says why the loop stopped.
   */
  method Serve<M(!new)>(c: Circuit, t: Transport, h: nat, act: (M, Deed) -> (M, Status), m0: M, frames: seq<seq<byte>>,
                        envs: seq<Circuits.Choice>, ghost xs: seq<Item>)
    returns (got: seq<Deed>, mem: M)
    requires c.state == Active && t.rx == 0 && AllSound(xs, h) && |envs| == |frames|
    requires forall i :: 0 <= i < |frames| ==> Unforged(t.suite, t.recvKey, h, xs, frames[i])
    requires forall m, d :: act(m, d).1 != Pending
    modifies c, t`rx
    ensures Items(got) <= xs && |got| <= |frames| && frames[..|got|] == Frames(t.suite, t.recvKey, xs, h)[..|got|]
    ensures forall i :: 0 <= i < |got| ==> got[i].env == envs[i]
    ensures mem == Fold(act, m0, got) && t.rx >= |got|
    ensures Flowing(act, m0, got) ==>
              if |got| == |frames| then c.state == Active
              else c.state == Failed && (|got| == |xs| || frames[|got|] != Frames(t.suite, t.recvKey, xs, h)[|got|])
    ensures !Flowing(act, m0, got) ==>
              && got != [] && Flowing(act, m0, got[..|got| - 1])
              && c.state == act(Fold(act, m0, got[..|got| - 1]), got[|got| - 1]).1 != Active
  {
    hide PeelFrame, Unforged, Plain, AllSound, Flowing, Fold, Frames;
    got, mem := [], m0;
    var i := 0;
    FlowingNothing(act, m0);
    while i < |frames|
      invariant 0 <= i == |got| == t.rx <= |frames| && c.state == Active
      invariant Items(got) <= xs && frames[..i] == Frames(t.suite, t.recvKey, xs, h)[..i]
      invariant forall k :: 0 <= k < i ==> got[k].env == envs[k]
      invariant mem == Fold(act, m0, got) && Flowing(act, m0, got)
    {
      AcceptsOnlyTheNextFrame(t.suite, t.recvKey, h, xs, frames[i], i);
      PeelCounter(t.suite, t.recvKey, i, frames[i], h + 1);
      var r := Peel(t, frames[i], h + 1);
      if r.Err? {
        c.Fail();
        return;
      }
      var d := Deed(AsItem(r.value), envs[i]);
      assert xs[..i + 1] == xs[..i] + [d.item];
      FlowingSnoc(act, m0, got, d);
      FoldSnoc(act, m0, got, d);
      ghost var before := got;
      var status;
      mem, status := act(mem, d).0, act(mem, d).1;
      got := got + [d];
      assert Items(got) == Items(before) + [d.item];
      assert got[..|got| - 1] == before;
      i := i + 1;
      if status == Closed {
        var closed := c.Close();
        return;
      }
      if status == Failed {
        c.Fail();
        return;
      }
    }
  }

  lemma FlowingNothing<M>(act: (M, Deed) -> (M, Status), m: M)
    ensures Flowing(act, m, []) && Fold(act, m, []) == m
  {
  }
}
