/** One AEAD layer per hop: sealing, forwarding and peeling, with a fixed frame size on every link. */
module Layer {
  import opened Bytes
  import opened Cells
  import opened Noise

  datatype Peeled = ToMe(cell: Cell) | Forward(blob: seq<byte>)

  datatype LayerError =
    | NoiseFailed
    | BadCell(cell: CellError)
    | UnknownDisposition(b: byte)
    | DirtyPadding
    | WrongFrameSize(got: nat, want: nat)
    | ForwardAtInnermost

  // ---- What the methods below compute ----

  /** Disposition, cell, and zero padding up to the fixed body length. */
  function ToMePlain(c: Cell, layers: nat): (p: seq<byte>)
    requires c.Fits() && layers >= 1
    ensures |p| == PeeledLen(layers)
  {
    [DISPOSITION_TO_ME] + Encoded(c) + Zeros(BodyLen(layers) - CELL_PLAINTEXT_LEN)
  }

  function ForwardPlain(blob: seq<byte>): seq<byte> {
    [DISPOSITION_FORWARD] + blob
  }

  function PeelPlain(plain: seq<byte>, layers: nat): Result<Peeled, LayerError>
    requires layers >= 1 && |plain| == PeeledLen(layers)
  {
    if plain[0] == DISPOSITION_TO_ME then
      var cell := Decode(plain[DISPOSITION_LEN..DISPOSITION_LEN + CELL_PLAINTEXT_LEN]);
      if cell.Err? then Err(BadCell(cell.error))
      else if !AllZero(plain[DISPOSITION_LEN + CELL_PLAINTEXT_LEN..]) then Err(DirtyPadding)
      else Ok(ToMe(cell.value))
    else if plain[0] == DISPOSITION_FORWARD then
      if layers == 1 then Err(ForwardAtInnermost) else Ok(Forward(plain[DISPOSITION_LEN..]))
    else Err(UnknownDisposition(plain[0]))
  }

  /** The plaintext a frame authenticates to at counter `n`, if its size and tag are right. */
  function OpenFrame(a: Suite, key: Key, n: nat, wire: seq<byte>, layers: nat): (r: Result<seq<byte>, LayerError>)
    ensures r.Ok? ==> |r.value| == PeeledLen(layers)
  {
    if |wire| != LinkCellLen(layers) then Err(WrongFrameSize(|wire|, LinkCellLen(layers)))
    else match a.open(key, n, wire)
      case None => Err(NoiseFailed)
      case Some(plain) => Ok(plain)
  }

  /** The counter moves once the frame authenticates, even if its plaintext is then refused. */
  function PeelFrame(a: Suite, key: Key, n: nat, wire: seq<byte>, layers: nat): (Result<Peeled, LayerError>, nat)
    requires layers >= 1
  {
    match OpenFrame(a, key, n, wire, layers)
    case Err(e) => (Err(e), n)
    case Ok(plain) => (PeelPlain(plain, layers), n + 1)
  }

  /** Peeling the plaintext of a sealed cell gives the cell, whatever the depth. */
  lemma PeelToMe(c: Cell, layers: nat)
    requires c.Fits() && layers >= 1
    ensures PeelPlain(ToMePlain(c, layers), layers) == Ok(ToMe(c))
  {
    var plain := ToMePlain(c, layers);
    assert plain[1..1 + CELL_PLAINTEXT_LEN] == Encoded(c);
    assert plain[1 + CELL_PLAINTEXT_LEN..] == Zeros(BodyLen(layers) - CELL_PLAINTEXT_LEN);
    DecodeInvertsEncode(c);
  }

  lemma PeelForward(blob: seq<byte>, layers: nat)
    requires layers >= 2 && |blob| == LinkCellLen(layers - 1)
    ensures |ForwardPlain(blob)| == PeeledLen(layers)
    ensures PeelPlain(ForwardPlain(blob), layers) == Ok(Forward(blob))
  {
    assert ForwardPlain(blob)[1..] == blob;
  }

  /**
   Exactly which plaintexts peel: a cell is found behind its own header and payload, whatever is in the
   rest of the cell, with nothing but zeros after the cell; a frame is forwarded verbatim.
   */
  lemma PeelExactly(plain: seq<byte>, layers: nat, c: Cell, blob: seq<byte>)
    requires layers >= 1 && |plain| == PeeledLen(layers)
    ensures PeelPlain(plain, layers) == Ok(ToMe(c)) <==>
              c.Fits() && exists rest :: |rest| == CELL_PAYLOAD_LEN - |c.payload| && plain == Dirty(c, rest, layers)
    ensures PeelPlain(plain, layers) == Ok(Forward(blob)) <==> layers >= 2 && plain == ForwardPlain(blob)
  {
    var cell, after := plain[1..1 + CELL_PLAINTEXT_LEN], plain[1 + CELL_PLAINTEXT_LEN..];
    assert plain == [plain[0]] + cell + after;
    if PeelPlain(plain, layers) == Ok(ToMe(c)) {
      DecodedIs(cell, c);
      ZerosUnique(after);
      assert plain == Dirty(c, cell[CELL_HEADER_LEN + |c.payload|..], layers);
    }
    if rest :| c.Fits() && |rest| == CELL_PAYLOAD_LEN - |c.payload| && plain == Dirty(c, rest, layers) {
      assert cell == Header(c) + c.payload + rest;
      assert after == Zeros(BodyLen(layers) - CELL_PLAINTEXT_LEN);
      DecodedIs(cell, c);
    }
    if plain[0] == DISPOSITION_FORWARD {
      assert plain == [DISPOSITION_FORWARD] + plain[1..];
      assert ForwardPlain(blob)[1..] == blob;
    }
  }

  function Header(c: Cell): (h: seq<byte>)
    requires c.Fits()
    ensures |h| == CELL_HEADER_LEN
  {
    [TypeByte(c.cellType), 0] + Be16(|c.payload|)
  }

  /** A plaintext for a hop with any bytes in the part of the cell the payload leaves free. */
  function Dirty(c: Cell, rest: seq<byte>, layers: nat): seq<byte>
    requires c.Fits() && layers >= 1
  {
    [DISPOSITION_TO_ME] + (Header(c) + c.payload + rest) + Zeros(BodyLen(layers) - CELL_PLAINTEXT_LEN)
  }

  /** A cell's bytes decode to it exactly if they begin with its header and payload. */
  lemma DecodedIs(s: seq<byte>, c: Cell)
    requires |s| == CELL_PLAINTEXT_LEN
    ensures Decode(s) == Ok(c) <==> c.Fits() && s[..CELL_HEADER_LEN + |c.payload|] == Header(c) + c.payload
  {
    if Decode(s) == Ok(c) {
      assert s[..CELL_HEADER_LEN] == [s[0], s[1], s[2], s[3]] == Header(c);
      var end := CELL_HEADER_LEN + |c.payload|;
      assert s[..end] == s[..CELL_HEADER_LEN] + s[CELL_HEADER_LEN..end];
    }
    if c.Fits() && s[..CELL_HEADER_LEN + |c.payload|] == Header(c) + c.payload {
      var t := s[..CELL_HEADER_LEN + |c.payload|];
      assert s[0] == t[0] && s[1] == t[1] && s[2] == t[2] && s[3] == t[3];
      assert s[CELL_HEADER_LEN..CELL_HEADER_LEN + |c.payload|] == t[CELL_HEADER_LEN..] == c.payload;
    }
  }

  /** A relay can only ever forward a frame of exactly the next link's size. */
  lemma ForwardedBlobFitsNextLink(a: Suite, key: Key, n: nat, wire: seq<byte>, layers: nat)
    requires layers >= 1
    requires PeelFrame(a, key, n, wire, layers).0.Ok? && PeelFrame(a, key, n, wire, layers).0.value.Forward?
    ensures layers >= 2 && |PeelFrame(a, key, n, wire, layers).0.value.blob| == LinkCellLen(layers - 1)
  {
    BodyIsInnerLink(layers);
  }

  // ---- The operations themselves ----

  method SealToMe(t: Transport, c: Cell, layers: nat) returns (r: Result<seq<byte>, LayerError>)
    requires layers >= 1
    modifies t`tx
    ensures c.Fits() ==> t.tx == old(t.tx) + 1
                         && r == Ok(t.suite.seal(t.sendKey, old(t.tx), ToMePlain(c, layers)))
                         && |r.value| == LinkCellLen(layers)
    ensures !c.Fits() ==> r == Err(BadCell(TooLarge(|c.payload|))) && t.tx == old(t.tx)
  {
    var body := BodyLen(layers);
    var plain := new byte[DISPOSITION_LEN + body](_ => 0);
    plain[0] := DISPOSITION_TO_ME;
    ghost var blank := plain[..];
    var encoded := EncodeInto(c, plain, DISPOSITION_LEN, CELL_PLAINTEXT_LEN);
    if encoded.Err? {
      return Err(BadCell(encoded.error));
    }
    assert blank[1 + CELL_PLAINTEXT_LEN..] == Zeros(body - CELL_PLAINTEXT_LEN);
    assert plain[..] == ToMePlain(c, layers);
    var out := new byte[plain.Length + NOISE_TAG_LEN](_ => 0);
    var sealed := t.Encrypt(plain[..], out);
    return Ok(out[..]);
  }

  method SealForward(t: Transport, blob: seq<byte>, layers: nat) returns (r: Result<seq<byte>, LayerError>)
    requires layers >= 1
    modifies t`tx
    ensures |blob| == LinkCellLen(layers - 1) ==>
              t.tx == old(t.tx) + 1 && r == Ok(t.suite.seal(t.sendKey, old(t.tx), ForwardPlain(blob)))
              && |r.value| == LinkCellLen(layers)
    ensures |blob| != LinkCellLen(layers - 1) ==>
              t.tx == old(t.tx) && r == Err(WrongFrameSize(|blob|, LinkCellLen(layers - 1)))
  {
    var want := LinkCellLen(layers - 1);
    if |blob| != want {
      return Err(WrongFrameSize(|blob|, want));
    }
    var plain := [DISPOSITION_FORWARD] + blob;
    var out := new byte[|plain| + NOISE_TAG_LEN](_ => 0);
    var sealed := t.Encrypt(plain, out);
    return Ok(out[..]);
  }

  method Peel(t: Transport, wire: seq<byte>, layers: nat) returns (r: Result<Peeled, LayerError>)
    requires layers >= 1
    modifies t`rx
    ensures (r, t.rx) == PeelFrame(t.suite, t.recvKey, old(t.rx), wire, layers)
  {
    var want := LinkCellLen(layers);
    if |wire| != want {
      return Err(WrongFrameSize(|wire|, want));
    }
    var buf := new byte[DISPOSITION_LEN + BodyLen(layers)](_ => 0);
    var outcome := t.Decrypt(wire, buf);
    if outcome.Err? {
      return Err(NoiseFailed);
    }
    var plain := buf[..];
    if plain[0] == DISPOSITION_TO_ME {
      var cell := Decode(plain[DISPOSITION_LEN..DISPOSITION_LEN + CELL_PLAINTEXT_LEN]);
      if cell.Err? {
        return Err(BadCell(cell.error));
      }
      if exists i :: DISPOSITION_LEN + CELL_PLAINTEXT_LEN <= i < |plain| && plain[i] != 0 {
        ghost var i :| DISPOSITION_LEN + CELL_PLAINTEXT_LEN <= i < |plain| && plain[i] != 0;
        assert plain[DISPOSITION_LEN + CELL_PLAINTEXT_LEN..][i - DISPOSITION_LEN - CELL_PLAINTEXT_LEN] != 0;
        return Err(DirtyPadding);
      }
      return Ok(ToMe(cell.value));
    }
    if plain[0] == DISPOSITION_FORWARD {
      if layers == 1 {
        return Err(ForwardAtInnermost);
      }
      return Ok(Forward(plain[DISPOSITION_LEN..]));
    }
    return Err(UnknownDisposition(plain[0]));
  }

  // ---- Any number of hops ----

  /** Hop `l`'s key on the way from the client, and on the way back to it. */
  function DownKey(l: nat): Key { Key(l, false) }

  function UpKey(l: nat): Key { Key(l, true) }

  /** The frame on a link with `outer` layers for a cell sealed to the hop `inner` layers deep. */
  function Onion(a: Suite, key: nat -> Key, ctr: nat -> nat, c: Cell, inner: nat, outer: nat): (wire: seq<byte>)
    requires c.Fits() && 1 <= inner <= outer
    ensures |wire| == LinkCellLen(outer)
    decreases outer
  {
    if outer == inner then a.seal(key(outer), ctr(outer), ToMePlain(c, inner))
    else a.seal(key(outer), ctr(outer), ForwardPlain(Onion(a, key, ctr, c, inner, outer - 1)))
  }

  /** Peel layer after layer until some hop finds a cell for itself: the cell and that hop's depth. */
  function PeelDown(a: Suite, key: nat -> Key, ctr: nat -> nat, wire: seq<byte>, outer: nat)
    : (r: Result<(Cell, nat), LayerError>)
    requires outer >= 1
    ensures r.Ok? ==> 1 <= r.value.1 <= outer
    decreases outer
  {
    match PeelFrame(a, key(outer), ctr(outer), wire, outer).0
    case Err(e) => Err(e)
    case Ok(ToMe(c)) => Ok((c, outer))
    case Ok(Forward(blob)) => if outer == 1 then Err(ForwardAtInnermost) else PeelDown(a, key, ctr, blob, outer - 1)
  }

  /** Every relay on the way gets a frame of its own link's size, and exactly the target finds the cell. */
  lemma {:induction false} OnionRoundTrip(a: Suite, key: nat -> Key, ctr: nat -> nat, c: Cell, inner: nat, outer: nat)
    requires c.Fits() && 1 <= inner <= outer
    ensures PeelDown(a, key, ctr, Onion(a, key, ctr, c, inner, outer), outer) == Ok((c, inner))
    decreases outer
  {
    if outer == inner {
      PeelToMe(c, inner);
    } else {
      PeelForward(Onion(a, key, ctr, c, inner, outer - 1), outer);
      OnionRoundTrip(a, key, ctr, c, inner, outer - 1);
    }
  }

  // ---- What each session accepts on the way in ----

  /** Plaintexts of consecutive layers, outermost first. */
  predicate LayerSized(ps: seq<seq<byte>>, outer: nat) {
    |ps| <= outer && forall i :: 0 <= i < |ps| ==> |ps[i]| == PeeledLen(outer - i)
  }

  /**
   The plaintexts one frame opens to, from layer `outer` inwards; `floor` is the innermost layer there
   is a session for. Each of these sessions advances its counter, whether or not the peel succeeds.
   */
  function Opens(a: Suite, key: nat -> Key, ctr: nat -> nat, wire: seq<byte>, outer: nat, floor: nat)
    : (ps: seq<seq<byte>>)
    requires 1 <= floor <= outer
    ensures |ps| <= outer - floor + 1 && LayerSized(ps, outer)
    decreases outer
  {
    match OpenFrame(a, key(outer), ctr(outer), wire, outer)
    case Err(_) => []
    case Ok(plain) =>
      match PeelPlain(plain, outer)
      case Ok(Forward(blob)) => [plain] + if outer == floor then [] else Opens(a, key, ctr, blob, outer - 1, floor)
      case _ => [plain]
  }

  /** The cell in the innermost plaintext that opened, if it holds one. */
  function CellIn(ps: seq<seq<byte>>, outer: nat): Option<Cell>
    requires LayerSized(ps, outer)
  {
    if ps == [] then None
    else match PeelPlain(ps[|ps| - 1], outer - |ps| + 1)
      case Ok(ToMe(c)) => Some(c)
      case _ => None
  }

  /** Peeling finds a cell at or above the floor exactly if the innermost plaintext that opens holds it. */
  lemma {:induction false} OpensIsPeelDown(a: Suite, key: nat -> Key, ctr: nat -> nat, wire: seq<byte>,
                                           outer: nat, floor: nat)
    requires 1 <= floor <= outer
    ensures var ps, r := Opens(a, key, ctr, wire, outer, floor), PeelDown(a, key, ctr, wire, outer);
            if r.Ok? && r.value.1 >= floor then CellIn(ps, outer) == Some(r.value.0) && r.value.1 == outer - |ps| + 1
            else CellIn(ps, outer) == None
    decreases outer
  {
    hide PeelPlain, OpenFrame;
    var r := OpenFrame(a, key(outer), ctr(outer), wire, outer);
    if r.Ok? && PeelPlain(r.value, outer).Ok? && PeelPlain(r.value, outer).value.Forward? {
      var blob := PeelPlain(r.value, outer).value.blob;
      assert outer > 1 by { ForwardedBlobFitsNextLink(a, key(outer), ctr(outer), wire, outer); }
      if outer > floor {
        OpensIsPeelDown(a, key, ctr, blob, outer - 1, floor);
        var inner := Opens(a, key, ctr, blob, outer - 1, floor);
        var ps := Opens(a, key, ctr, wire, outer, floor);
        assert ps == [r.value] + inner;
        if inner != [] {
          assert ps[|ps| - 1] == inner[|inner| - 1];
        }
      }
    }
  }

  // ---- The client's three layers ----

  const CLIENT_LAYERS: nat := 3

  /** The three per-hop transports, outermost first. */
  class Layers {
    const guard: Transport
    const middle: Transport
    const exit: Transport

    /** Three separate sessions over one cipher, keyed by depth. */
    ghost predicate Valid() {
      && guard != middle && guard != exit && middle != exit
      && guard.suite == middle.suite == exit.suite
      && guard.sendKey == DownKey(3) && middle.sendKey == DownKey(2) && exit.sendKey == DownKey(1)
      && guard.recvKey == UpKey(3) && middle.recvKey == UpKey(2) && exit.recvKey == UpKey(1)
    }

    constructor (guard: Transport, middle: Transport, exit: Transport)
      ensures this.guard == guard && this.middle == middle && this.exit == exit
    {
      this.guard, this.middle, this.exit := guard, middle, exit;
    }

    /** One cell for the exit costs every hop exactly one counter value. */
    method SealForExit(c: Cell) returns (r: Result<seq<byte>, LayerError>)
      requires Valid()
      modifies guard`tx, middle`tx, exit`tx
      ensures c.Fits() ==>
                var counters := map[1 := old(exit.tx), 2 := old(middle.tx), 3 := old(guard.tx)];
                r == Ok(Onion(guard.suite, DownKey, l => if l in counters then counters[l] else 0, c, 1, CLIENT_LAYERS))
      ensures c.Fits() ==>
                guard.tx == old(guard.tx) + 1 && middle.tx == old(middle.tx) + 1 && exit.tx == old(exit.tx) + 1
      ensures !c.Fits() ==>
                r.Err? && guard.tx == old(guard.tx) && middle.tx == old(middle.tx) && exit.tx == old(exit.tx)
    {
      ghost var ctr := map[1 := exit.tx, 2 := middle.tx, 3 := guard.tx];
      ghost var at := (l: nat) => if l in ctr then ctr[l] else 0;
      var inner := SealToMe(exit, c, 1);
      if inner.Err? {
        return inner;
      }
      var mid := SealForward(middle, inner.value, CLIENT_LAYERS - 1);
      if mid.Err? {
        return mid;
      }
      r := SealForward(guard, mid.value, CLIENT_LAYERS);
      assert inner.value == Onion(guard.suite, DownKey, at, c, 1, 1);
      assert mid.value == Onion(guard.suite, DownKey, at, c, 1, 2);
    }

    /** The cell, if peeling from the guard inwards finds one; only layers that opened advance. */
    method PeelInbound(wire: seq<byte>) returns (r: Result<Cell, LayerError>)
      requires Valid()
      modifies guard`rx, middle`rx, exit`rx
      ensures var counters := map[1 := old(exit.rx), 2 := old(middle.rx), 3 := old(guard.rx)];
              var at := (l: nat) => if l in counters then counters[l] else 0;
              var opens := |Opens(guard.suite, UpKey, at, wire, CLIENT_LAYERS, 1)|;
              && r == (match PeelDown(guard.suite, UpKey, at, wire, CLIENT_LAYERS)
                       case Ok((c, _)) => Ok(c)
                       case Err(e) => Err(e))
              && guard.rx == old(guard.rx) + (if opens >= 1 then 1 else 0)
              && middle.rx == old(middle.rx) + (if opens >= 2 then 1 else 0)
              && exit.rx == old(exit.rx) + (if opens >= 3 then 1 else 0)
    {
      hide PeelPlain, OpenFrame;
      ghost var ctr := map[1 := exit.rx, 2 := middle.rx, 3 := guard.rx];
      ghost var at := (l: nat) => if l in ctr then ctr[l] else 0;
      ghost var a := guard.suite;
      ghost var found, ps := PeelDown(a, UpKey, at, wire, CLIENT_LAYERS), Opens(a, UpKey, at, wire, CLIENT_LAYERS, 1);
      var first := Peel(guard, wire, CLIENT_LAYERS);
      if first.Err? {
        return Err(first.error);
      }
      if first.value.ToMe? {
        return Ok(first.value.cell);
      }
      assert found == PeelDown(a, UpKey, at, first.value.blob, 2);
      assert |ps| == 1 + |Opens(a, UpKey, at, first.value.blob, 2, 1)|;
      var second := Peel(middle, first.value.blob, CLIENT_LAYERS - 1);
      if second.Err? {
        return Err(second.error);
      }
      if second.value.ToMe? {
        return Ok(second.value.cell);
      }
      assert found == PeelDown(a, UpKey, at, second.value.blob, 1);
      assert |ps| == 2 + |Opens(a, UpKey, at, second.value.blob, 1, 1)|;
      var third := Peel(exit, second.value.blob, 1);
      if third.Err? {
        return Err(third.error);
      }
      if third.value.ToMe? {
        return Ok(third.value.cell);
      }
      return Err(ForwardAtInnermost);
    }
  }
}
