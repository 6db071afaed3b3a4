/** Fixed-length cells and the EXTEND and CONNECT payloads they carry. */
module Cells {
  import opened Bytes

  const CELL_PAYLOAD_LEN: nat := 509
  const CELL_HEADER_LEN: nat := 4
  const CELL_PLAINTEXT_LEN: nat := CELL_HEADER_LEN + CELL_PAYLOAD_LEN
  const DISPOSITION_LEN: nat := 1
  const DISPOSITION_TO_ME: byte := 0x01
  const DISPOSITION_FORWARD: byte := 0x02
  const NOISE_TAG_LEN: nat := 16
  const NOISE_MSG_LEN: nat := 48

  /** Frame size on a link that carries `layers` AEAD layers. */
  function LinkCellLen(layers: nat): nat {
    CELL_PLAINTEXT_LEN + layers * (DISPOSITION_LEN + NOISE_TAG_LEN)
  }

  /** Bytes left after removing the tag of the outermost layer. */
  function PeeledLen(layers: nat): nat {
    LinkCellLen(layers) - NOISE_TAG_LEN
  }

  /** The body inside one layer: `usize` subtraction, so it needs at least one layer. */
  function BodyLen(layers: nat): nat
    requires layers >= 1
  {
    PeeledLen(layers) - DISPOSITION_LEN
  }

  /** A layer's body is exactly the adjacent inner link's frame, and the innermost one is a cell. */
  lemma BodyIsInnerLink(layers: nat)
    requires layers >= 1
    ensures BodyLen(layers) == LinkCellLen(layers - 1)
    ensures BodyLen(1) == CELL_PLAINTEXT_LEN
    ensures LinkCellLen(1) == 530 && LinkCellLen(2) == 547 && LinkCellLen(3) == 564
    ensures BodyLen(layers) >= CELL_PLAINTEXT_LEN
    ensures LinkCellLen(layers) == LinkCellLen(layers - 1) + DISPOSITION_LEN + NOISE_TAG_LEN
  {
  }

  datatype CellType = Extend | Connect | Data | CloseRequest | CloseAck

  function TypeByte(t: CellType): byte {
    match t
    case Extend => 0x01
    case Connect => 0x03
    case Data => 0x04
    case CloseRequest => 0x05
    case CloseAck => 0x06
  }

  function TypeOf(b: byte): (t: Option<CellType>)
    ensures t.Some? ==> TypeByte(t.value) == b
    ensures t.None? ==> forall u :: TypeByte(u) != b
  {
    match b
    case 0x01 => Some(Extend)
    case 0x03 => Some(Connect)
    case 0x04 => Some(Data)
    case 0x05 => Some(CloseRequest)
    case 0x06 => Some(CloseAck)
    case _ => None
  }

  datatype CellError =
    | WrongSize(n: nat)
    | TooLarge(n: nat)
    | UnknownType(b: byte)
    | ReservedFlags
    | BadExtend
    | BadConnect
    | BadAddress

  datatype Cell = Cell(cellType: CellType, payload: seq<byte>) {
    predicate Fits() {
      |payload| <= CELL_PAYLOAD_LEN
    }
  }

  /** The 513 bytes of a cell that fits: header, payload, zero padding. */
  function Encoded(c: Cell): (s: seq<byte>)
    requires c.Fits()
    ensures |s| == CELL_PLAINTEXT_LEN
  {
    [TypeByte(c.cellType), 0] + Be16(|c.payload|) + c.payload + Zeros(CELL_PAYLOAD_LEN - |c.payload|)
  }

  function Encode(c: Cell): Result<seq<byte>, CellError> {
    if c.Fits() then Ok(Encoded(c)) else Err(TooLarge(|c.payload|))
  }

  function Decode(bytes: seq<byte>): (r: Result<Cell, CellError>)
    ensures r.Ok? ==> r.value.Fits()
  {
    if |bytes| != CELL_PLAINTEXT_LEN then Err(WrongSize(|bytes|))
    else if TypeOf(bytes[0]).None? then Err(UnknownType(bytes[0]))
    else if bytes[1] != 0 then Err(ReservedFlags)
    else
      var n := FromBe16(bytes[2], bytes[3]);
      if n > CELL_PAYLOAD_LEN then Err(TooLarge(n))
      else Ok(Cell(TypeOf(bytes[0]).value, bytes[CELL_HEADER_LEN..CELL_HEADER_LEN + n]))
  }

  /**
   Write the cell into the slice `out[off..off + len]` of a caller's buffer. The payload is copied
   and the rest of the slice is zeroed byte by byte, so whatever the buffer held before is gone.
   */
  method EncodeInto(c: Cell, out: array<byte>, off: nat, len: nat) returns (r: Result<(), CellError>)
    requires off + len <= out.Length
    modifies out
    ensures r == (if len != CELL_PLAINTEXT_LEN then Err(WrongSize(len))
                  else if !c.Fits() then Err(TooLarge(|c.payload|)) else Ok(()))
    ensures r.Ok? ==> out[..] == old(out[..off]) + Encoded(c) + old(out[off + len..])
    ensures r.Err? ==> out[..] == old(out[..])
  {
    if len != CELL_PLAINTEXT_LEN {
      return Err(WrongSize(len));
    }
    var n := |c.payload|;
    if n > CELL_PAYLOAD_LEN {
      return Err(TooLarge(n));
    }
    ghost var was := out[..];
    out[off] := TypeByte(c.cellType);
    out[off + 1] := 0;
    var be := Be16(n);
    out[off + 2] := be[0];
    out[off + 3] := be[1];
    forall k | 0 <= k < n {
      out[off + CELL_HEADER_LEN + k] := c.payload[k];
    }
    var i := off + CELL_HEADER_LEN + n;
    while i < off + len
      invariant off + CELL_HEADER_LEN + n <= i <= off + len
      invariant forall k :: 0 <= k < out.Length && !(off <= k < off + len) ==> out[k] == was[k]
      invariant out[off] == TypeByte(c.cellType) && out[off + 1] == 0
      invariant out[off + 2] == be[0] && out[off + 3] == be[1]
      invariant forall k :: off + CELL_HEADER_LEN <= k < off + CELL_HEADER_LEN + n ==>
                              out[k] == c.payload[k - off - CELL_HEADER_LEN]
      invariant forall k :: off + CELL_HEADER_LEN + n <= k < i ==> out[k] == 0
    {
      out[i] := 0;
      i := i + 1;
    }
    SlotIsEncoded(c, out[off..off + len]);
    Spliced(was, out[..], off, len);
    return Ok(());
  }

  lemma SlotIsEncoded(c: Cell, slot: seq<byte>)
    requires c.Fits() && |slot| == CELL_PLAINTEXT_LEN
    requires slot[0] == TypeByte(c.cellType) && slot[1] == 0
    requires slot[2] == Be16(|c.payload|)[0] && slot[3] == Be16(|c.payload|)[1]
    requires forall k :: CELL_HEADER_LEN <= k < CELL_HEADER_LEN + |c.payload| ==>
                           slot[k] == c.payload[k - CELL_HEADER_LEN]
    requires forall k :: CELL_HEADER_LEN + |c.payload| <= k < CELL_PLAINTEXT_LEN ==> slot[k] == 0
    ensures slot == Encoded(c)
  {
    hide TypeByte, Be16;
    var want := Encoded(c);
    forall k | 0 <= k < |slot| ensures slot[k] == want[k] {
    }
  }

  lemma Spliced(was: seq<byte>, now: seq<byte>, off: nat, len: nat)
    requires |now| == |was| && off + len <= |was|
    requires forall k :: 0 <= k < |was| && !(off <= k < off + len) ==> now[k] == was[k]
    ensures now == was[..off] + now[off..off + len] + was[off + len..]
  {
  }

  lemma DecodeInvertsEncode(c: Cell)
    requires c.Fits()
    ensures Decode(Encoded(c)) == Ok(c)
  {
    var s := Encoded(c);
    var n := |c.payload|;
    assert s[2..4] == Be16(n);
    assert s[2] == Be16(n)[0] && s[3] == Be16(n)[1];
    assert s[CELL_HEADER_LEN..CELL_HEADER_LEN + n] == c.payload;
  }

  /** The bytes after `data_len` inside the payload; `Decode` does not look at them. */
  function InCellPadding(bytes: seq<byte>): seq<byte>
    requires Decode(bytes).Ok?
  {
    bytes[CELL_HEADER_LEN + |Decode(bytes).value.payload|..]
  }

  /** Encoding inverts decoding exactly on the byte strings whose in-cell padding is zero. */
  lemma EncodeInvertsDecode(bytes: seq<byte>)
    requires Decode(bytes).Ok?
    ensures Encode(Decode(bytes).value) == Ok(bytes) <==> AllZero(InCellPadding(bytes))
  {
    var c := Decode(bytes).value;
    var n := |c.payload|;
    var s := Encoded(c);
    assert bytes[..4] == [bytes[0], bytes[1], bytes[2], bytes[3]] == s[..4];
    assert s[4..4 + n] == bytes[4..4 + n];
    assert s[4 + n..] == Zeros(CELL_PAYLOAD_LEN - n);
    assert bytes == bytes[..4] + bytes[4..4 + n] + bytes[4 + n..];
    if AllZero(InCellPadding(bytes)) {
      ZerosUnique(InCellPadding(bytes));
      assert s == s[..4] + s[4..4 + n] + s[4 + n..];
    }
  }

  lemma PaddingIsZero(c: Cell, i: nat)
    requires c.Fits() && CELL_HEADER_LEN + |c.payload| <= i < CELL_PLAINTEXT_LEN
    ensures Encoded(c)[i] == 0
  {
  }

  /** Any cell with any one padding byte dirty decodes to that cell, and encodes back to other bytes. */
  lemma DirtyPaddingDecodes(c: Cell, i: nat, b: byte)
    requires c.Fits() && CELL_HEADER_LEN + |c.payload| <= i < CELL_PLAINTEXT_LEN && b != 0
    ensures var s := Encoded(c)[i := b]; Decode(s) == Ok(c) && Encode(Decode(s).value) != Ok(s)
  {
    hide Encoded;
    DecodeInvertsEncode(c);
    PaddingIsZero(c, i);
    var e := Encoded(c);
    var s, n := e[i := b], |c.payload|;
    assert s[CELL_HEADER_LEN..CELL_HEADER_LEN + n] == e[CELL_HEADER_LEN..CELL_HEADER_LEN + n];
    assert s[i] != e[i];
  }

  // ---- EXTEND ----

  type Octets4 = s: seq<byte> | |s| == 4 witness [0, 0, 0, 0]
  type Octets16 = s: seq<byte> | |s| == 16 witness [0, 0, 0, 0, 0, 0, 0, 0, 0, 0, 0, 0, 0, 0, 0, 0]
  type NoiseMsg = s: seq<byte> | |s| == NOISE_MSG_LEN witness Zeros(NOISE_MSG_LEN)
  type Port = p: int | 0 <= p < 0x1_0000

  datatype Ip = V4(o4: Octets4) | V6(o6: Octets16)

  datatype SocketAddr = SocketAddr(ip: Ip, port: Port)

  /** The first twelve bytes of an IPv4-mapped IPv6 address, section 2.5.5.2 of RFC 4291. */
  const MAPPED_PREFIX: seq<byte> := [0, 0, 0, 0, 0, 0, 0, 0, 0, 0, 0xff, 0xff]

  /** The 16-byte spelling: an IPv4 address is carried IPv4-mapped. */
  function ToV6(ip: Ip): Octets16 {
    match ip
    case V4(o) => MAPPED_PREFIX + o
    case V6(o) => o
  }

  /** An IPv4-mapped address names the IPv4 host; any other IPv6 address is left alone. */
  function OfV6(o: Octets16): Ip {
    if o[..12] == MAPPED_PREFIX then V4(o[12..]) else V6(o)
  }

  function CanonicalIp(ip: Ip): Ip {
    match ip
    case V4(_) => ip
    case V6(o) => OfV6(o)
  }

  function CanonicalAddr(a: SocketAddr): SocketAddr {
    SocketAddr(CanonicalIp(a.ip), a.port)
  }

  lemma OfV6InvertsToV6(ip: Ip)
    ensures OfV6(ToV6(ip)) == CanonicalIp(ip)
    ensures ToV6(CanonicalIp(ip)) == ToV6(ip)
  {
    match ip
    case V4(o) =>
      assert (MAPPED_PREFIX + o)[..12] == MAPPED_PREFIX;
      assert (MAPPED_PREFIX + o)[12..] == o;
    case V6(o) =>
      assert o[..12] + o[12..] == o;
  }

  /** Two addresses reduce to the same one exactly when they have the same 16-byte spelling. */
  lemma SameHost(a: Ip, b: Ip)
    ensures CanonicalIp(a) == CanonicalIp(b) <==> ToV6(a) == ToV6(b)
    ensures CanonicalIp(CanonicalIp(a)) == CanonicalIp(a)
  {
    OfV6InvertsToV6(a);
    OfV6InvertsToV6(b);
    OfV6InvertsToV6(CanonicalIp(a));
  }

  const EXTEND_ADDR_LEN: nat := 16
  const EXTEND_FORWARD_LEN: nat := EXTEND_ADDR_LEN + 2 + NOISE_MSG_LEN

  datatype ExtendForward = ExtendForward(nextHop: SocketAddr, noiseMsg1: NoiseMsg)

  function EncodeExtend(x: ExtendForward): (s: seq<byte>)
    ensures |s| == EXTEND_FORWARD_LEN
  {
    ToV6(x.nextHop.ip) + Be16(x.nextHop.port) + x.noiseMsg1
  }

  function DecodeExtend(bytes: seq<byte>): (r: Result<ExtendForward, CellError>)
    ensures r.Ok? <==> |bytes| == EXTEND_FORWARD_LEN
  {
    if |bytes| != EXTEND_FORWARD_LEN then Err(BadExtend)
    else
      var ip := OfV6(bytes[..EXTEND_ADDR_LEN]);
      var port := FromBe16(bytes[EXTEND_ADDR_LEN], bytes[EXTEND_ADDR_LEN + 1]);
      Ok(ExtendForward(SocketAddr(ip, port), bytes[EXTEND_ADDR_LEN + 2..]))
  }

  /** Decoding after encoding gives the same hop in its canonical spelling. */
  lemma ExtendDecodeAfterEncode(x: ExtendForward)
    ensures DecodeExtend(EncodeExtend(x)) == Ok(ExtendForward(CanonicalAddr(x.nextHop), x.noiseMsg1))
  {
    var s := EncodeExtend(x);
    OfV6InvertsToV6(x.nextHop.ip);
    assert s[..16] == ToV6(x.nextHop.ip);
    assert s[16..18] == Be16(x.nextHop.port);
    assert s[16] == s[16..18][0] && s[17] == s[16..18][1];
    assert s[18..] == x.noiseMsg1;
  }

  /** Encoding after decoding is the identity on every 66-byte string. */
  lemma ExtendEncodeAfterDecode(bytes: seq<byte>)
    requires |bytes| == EXTEND_FORWARD_LEN
    ensures EncodeExtend(DecodeExtend(bytes).value) == bytes
  {
    var x := DecodeExtend(bytes).value;
    var o: Octets16 := bytes[..16];
    OfV6InvertsToV6(V6(o));
    assert Be16(x.nextHop.port) == [bytes[16], bytes[17]] == bytes[16..18];
    assert bytes == bytes[..16] + bytes[16..18] + bytes[18..];
  }

  /** The EXTEND reply carries exactly one Noise message. */
  function ParseExtendBackward(bytes: seq<byte>): (r: Result<NoiseMsg, CellError>)
    ensures r.Ok? <==> |bytes| == NOISE_MSG_LEN
    ensures r.Ok? ==> r.value == bytes
  {
    if |bytes| != NOISE_MSG_LEN then Err(BadExtend) else Ok(bytes)
  }

  // ---- CONNECT ----

  predicate Tail(s: seq<byte>, k: nat) {
    k < |s| && 0x80 <= s[k] <= 0xBF
  }

  /** Length of the well-formed UTF-8 sequence at the head of `s`, or 0 (section 4 of RFC 3629). */
  function Utf8Step(s: seq<byte>): (n: nat)
    requires s != []
    ensures n <= |s|
  {
    var b := s[0];
    if b <= 0x7F then 1
    else if 0xC2 <= b <= 0xDF && Tail(s, 1) then 2
    else if b == 0xE0 && Tail(s, 1) && s[1] >= 0xA0 && Tail(s, 2) then 3
    else if (0xE1 <= b <= 0xEC || 0xEE <= b <= 0xEF) && Tail(s, 1) && Tail(s, 2) then 3
    else if b == 0xED && Tail(s, 1) && s[1] <= 0x9F && Tail(s, 2) then 3
    else if b == 0xF0 && Tail(s, 1) && s[1] >= 0x90 && Tail(s, 2) && Tail(s, 3) then 4
    else if 0xF1 <= b <= 0xF3 && Tail(s, 1) && Tail(s, 2) && Tail(s, 3) then 4
    else if b == 0xF4 && Tail(s, 1) && s[1] <= 0x8F && Tail(s, 2) && Tail(s, 3) then 4
    else 0
  }

  predicate ValidUtf8(s: seq<byte>)
    decreases |s|
  {
    s == [] || (Utf8Step(s) > 0 && ValidUtf8(s[Utf8Step(s)..]))
  }

  // The reference: UTF-8 is what code points are encoded as.

  /** A Unicode scalar value. */
  predicate Scalar(c: nat) {
    c <= 0x10FFFF && !(0xD800 <= c <= 0xDFFF)
  }

  function Utf8Of(c: nat): (s: seq<byte>)
    requires Scalar(c)
    ensures s != []
  {
    if c < 0x80 then [c]
    else if c < 0x800 then [0xC0 + c / 64, 0x80 + c % 64]
    else if c < 0x10000 then [0xE0 + c / 4096, 0x80 + c / 64 % 64, 0x80 + c % 64]
    else [0xF0 + c / 262144, 0x80 + c / 4096 % 64, 0x80 + c / 64 % 64, 0x80 + c % 64]
  }

  ghost predicate AllScalar(cs: seq<nat>) {
    forall i :: 0 <= i < |cs| ==> Scalar(cs[i])
  }

  function Utf8(cs: seq<nat>): seq<byte>
    requires AllScalar(cs)
  {
    if cs == [] then [] else Utf8Of(cs[0]) + Utf8(cs[1..])
  }

  /** Six bits at a time. */
  lemma Sextets(a: nat, b: nat, c: nat, d: nat)
    requires b < 64 && c < 64 && d < 64
    ensures var x := a * 262144 + b * 4096 + c * 64 + d;
            x % 64 == d && x / 64 % 64 == c && x / 4096 % 64 == b && x / 262144 == a
  {
    var x := a * 262144 + b * 4096 + c * 64 + d;
    assert x / 64 == a * 4096 + b * 64 + c;
    assert x / 4096 == a * 64 + b;
  }

  lemma TwoByteHead(s: seq<byte>) returns (c: nat)
    requires s != [] && Utf8Step(s) == 2
    ensures Scalar(c) && Utf8Of(c) == s[..2]
  {
    var x, y := s[0] as int - 0xC0, s[1] as int - 0x80;
    Sextets(0, 0, x, y);
    c := x * 64 + y;
    assert c / 64 == x;
  }

  lemma ThreeByteHead(s: seq<byte>) returns (c: nat)
    requires s != [] && Utf8Step(s) == 3
    ensures Scalar(c) && Utf8Of(c) == s[..3]
  {
    var x, y, z := s[0] as int - 0xE0, s[1] as int - 0x80, s[2] as int - 0x80;
    Sextets(0, x, y, z);
    c := x * 4096 + y * 64 + z;
    assert c / 4096 == x && 0x800 <= c < 0x10000;
    assert s[..3] == [s[0], s[1], s[2]];
  }

  lemma FourByteHead(s: seq<byte>) returns (c: nat)
    requires s != [] && Utf8Step(s) == 4
    ensures Scalar(c) && Utf8Of(c) == s[..4]
  {
    var w, x, y, z := s[0] as int - 0xF0, s[1] as int - 0x80, s[2] as int - 0x80, s[3] as int - 0x80;
    Sextets(w, x, y, z);
    c := w * 262144 + x * 4096 + y * 64 + z;
    assert 0x10000 <= c <= 0x10FFFF;
    assert s[..4] == [s[0], s[1], s[2], s[3]];
  }

  /** The code point a well-formed head encodes. */
  lemma HeadIsScalar(s: seq<byte>) returns (c: nat)
    requires s != [] && Utf8Step(s) > 0
    ensures Scalar(c) && Utf8Of(c) == s[..Utf8Step(s)]
  {
    if Utf8Step(s) == 1 {
      c := s[0];
    } else {
      assert 2 <= Utf8Step(s) <= 4;
      hide Utf8Step, Utf8Of, Scalar;
      if Utf8Step(s) == 2 {
        c := TwoByteHead(s);
      } else if Utf8Step(s) == 3 {
        c := ThreeByteHead(s);
      } else {
        c := FourByteHead(s);
      }
    }
  }

  lemma StepOverScalar(c: nat, rest: seq<byte>)
    requires Scalar(c)
    ensures Utf8Step(Utf8Of(c) + rest) == |Utf8Of(c)|
  {
  }

  lemma {:induction false} Utf8IsValid(cs: seq<nat>)
    requires AllScalar(cs)
    ensures ValidUtf8(Utf8(cs))
  {
    hide Utf8Step, Utf8Of;
    if cs != [] {
      Utf8IsValid(cs[1..]);
      var head, rest := Utf8Of(cs[0]), Utf8(cs[1..]);
      StepOverScalar(cs[0], rest);
      assert (head + rest)[|head|..] == rest;
    }
  }

  lemma {:induction false} ValidIsUtf8(s: seq<byte>) returns (cs: seq<nat>)
    requires ValidUtf8(s)
    ensures AllScalar(cs) && Utf8(cs) == s
    decreases |s|
  {
    hide Utf8Step, Utf8Of;
    if s == [] {
      cs := [];
    } else {
      var n := Utf8Step(s);
      var c := HeadIsScalar(s);
      var rest := ValidIsUtf8(s[n..]);
      cs := [c] + rest;
      assert cs[1..] == rest && s == s[..n] + s[n..];
    }
  }

  /** The check on a host name accepts exactly the encodings of code points. */
  lemma Utf8Exactly(s: seq<byte>)
    ensures ValidUtf8(s) <==> exists cs :: AllScalar(cs) && Utf8(cs) == s
  {
    if ValidUtf8(s) {
      var cs := ValidIsUtf8(s);
    }
    if cs :| AllScalar(cs) && Utf8(cs) == s {
      Utf8IsValid(cs);
    }
  }

  /** A host name as Rust holds it: bytes known to be UTF-8. */
  type Host = s: seq<byte> | ValidUtf8(s) witness []

  datatype ConnectPayload = ConnectPayload(host: Host, port: Port)

  const MAX_CONNECT_HOST_LEN: nat := CELL_PAYLOAD_LEN - 4

  function EncodeConnect(p: ConnectPayload): (r: Result<seq<byte>, CellError>)
    ensures r.Ok? ==> 4 <= |r.value| <= CELL_PAYLOAD_LEN
  {
    if |p.host| > MAX_CONNECT_HOST_LEN then Err(BadConnect)
    else Ok(Be16(|p.host|) + p.host + Be16(p.port))
  }

  function DecodeConnect(bytes: seq<byte>): Result<ConnectPayload, CellError> {
    if |bytes| < 4 then Err(BadConnect)
    else
      var hostLen := FromBe16(bytes[0], bytes[1]);
      if |bytes| != 2 + hostLen + 2 then Err(BadConnect)
      else if !ValidUtf8(bytes[2..2 + hostLen]) then Err(BadAddress)
      else Ok(ConnectPayload(bytes[2..2 + hostLen], FromBe16(bytes[2 + hostLen], bytes[2 + hostLen + 1])))
  }

  lemma ConnectDecodeAfterEncode(p: ConnectPayload)
    requires |p.host| <= MAX_CONNECT_HOST_LEN
    ensures EncodeConnect(p).Ok? && DecodeConnect(EncodeConnect(p).value) == Ok(p)
  {
    var s := EncodeConnect(p).value;
    var n := |p.host|;
    assert s[..2] == Be16(n) && s[0] == s[..2][0] && s[1] == s[..2][1];
    assert s[2..2 + n] == p.host;
    assert s[2 + n..] == Be16(p.port) && s[2 + n] == s[2 + n..][0] && s[3 + n] == s[2 + n..][1];
  }

  /** A decodable CONNECT payload encodes back to itself exactly when it fits a cell. */
  lemma ConnectEncodeAfterDecode(bytes: seq<byte>)
    requires DecodeConnect(bytes).Ok?
    ensures EncodeConnect(DecodeConnect(bytes).value) == Ok(bytes) <==> |bytes| <= CELL_PAYLOAD_LEN
  {
    var p := DecodeConnect(bytes).value;
    var n := |p.host|;
    assert Be16(n) == [bytes[0], bytes[1]] == bytes[..2];
    assert Be16(p.port) == [bytes[2 + n], bytes[3 + n]] == bytes[2 + n..];
    assert bytes == bytes[..2] + bytes[2..2 + n] + bytes[2 + n..];
  }
}
