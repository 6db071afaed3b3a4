/**
 A codec and an encoder that meet the laws publication is proved under, so those results are about
 something: prefix-free byte strings, and readers that pick the one value a string spells.
 */
module PlainCodec {
  import opened Bytes
  import opened Cells
  import opened Registry
  import opened Publisher

  // Each writer puts a value in front of a tail; both can be read off the result.

  function PutNat(n: nat, tail: seq<byte>): seq<byte> {
    if n == 0 then [0] + tail else [1] + PutNat(n - 1, tail)
  }

  lemma {:induction false} NatReadable(n: nat, t: seq<byte>, m: nat, u: seq<byte>)
    requires PutNat(n, t) == PutNat(m, u)
    ensures n == m && t == u
  {
    assert PutNat(n, t)[0] == PutNat(m, u)[0];
    assert PutNat(n, t)[1..] == PutNat(m, u)[1..];
    if n > 0 {
      NatReadable(n - 1, t, m - 1, u);
    }
  }

  function PutInt(i: int, tail: seq<byte>): seq<byte> {
    if i < 0 then [1] + PutNat(-i, tail) else [0] + PutNat(i, tail)
  }

  lemma IntReadable(i: int, t: seq<byte>, j: int, u: seq<byte>)
    requires PutInt(i, t) == PutInt(j, u)
    ensures i == j && t == u
  {
    assert PutInt(i, t)[0] == PutInt(j, u)[0];
    assert PutInt(i, t)[1..] == PutInt(j, u)[1..];
    NatReadable(if i < 0 then -i else i, t, if j < 0 then -j else j, u);
  }

  function PutText(s: string, tail: seq<byte>): seq<byte> {
    if s == [] then [0] + tail else [1] + PutNat(s[0] as int, PutText(s[1..], tail))
  }

  lemma {:induction false} TextReadable(s: string, t: seq<byte>, r: string, u: seq<byte>)
    requires PutText(s, t) == PutText(r, u)
    ensures s == r && t == u
  {
    assert PutText(s, t)[0] == PutText(r, u)[0];
    assert PutText(s, t)[1..] == PutText(r, u)[1..];
    if s != [] {
      NatReadable(s[0] as int, PutText(s[1..], t), r[0] as int, PutText(r[1..], u));
      TextReadable(s[1..], t, r[1..], u);
      assert s == [s[0]] + s[1..] && r == [r[0]] + r[1..];
    }
  }

  function PutBytes(s: seq<byte>, tail: seq<byte>): seq<byte> {
    if s == [] then [0] + tail else [1] + ([s[0]] + PutBytes(s[1..], tail))
  }

  lemma {:induction false} BytesReadable(s: seq<byte>, t: seq<byte>, r: seq<byte>, u: seq<byte>)
    requires PutBytes(s, t) == PutBytes(r, u)
    ensures s == r && t == u
  {
    var a, b := PutBytes(s, t), PutBytes(r, u);
    assert a[0] == b[0];
    assert a[1..] == b[1..];
    if s != [] {
      assert a[1..][0] == b[1..][0] && a[1..][1..] == b[1..][1..];
      BytesReadable(s[1..], t, r[1..], u);
      assert s == [s[0]] + s[1..] && r == [r[0]] + r[1..];
    }
  }

  function PutIp(ip: Option<Ip>, tail: seq<byte>): seq<byte> {
    match ip
    case None => [0] + tail
    case Some(V4(o)) => [1] + PutBytes(o, tail)
    case Some(V6(o)) => [2] + PutBytes(o, tail)
  }

  lemma IpReadable(ip: Option<Ip>, t: seq<byte>, jp: Option<Ip>, u: seq<byte>)
    requires PutIp(ip, t) == PutIp(jp, u)
    ensures ip == jp && t == u
  {
    assert PutIp(ip, t)[0] == PutIp(jp, u)[0];
    assert PutIp(ip, t)[1..] == PutIp(jp, u)[1..];
    match (ip, jp)
    case (Some(V4(o)), Some(V4(q))) => BytesReadable(o, t, q, u);
    case (Some(V6(o)), Some(V6(q))) => BytesReadable(o, t, q, u);
    case _ =>
  }

  function PutPlace(e: RelayEntry, tail: seq<byte>): seq<byte> {
    PutIp(e.ip, PutNat(e.port, PutText(e.tlsName, PutBytes(e.staticPubkey, tail))))
  }

  function PutRelay(e: RelayEntry, tail: seq<byte>): seq<byte> {
    PutText(e.id, PutText(e.operatorId, PutText(e.hostId, PutText(e.role, PutPlace(e, tail)))))
  }

  lemma RelayReadable(e: RelayEntry, t: seq<byte>, f: RelayEntry, u: seq<byte>)
    requires PutRelay(e, t) == PutRelay(f, u)
    ensures e == f && t == u
  {
    hide PutText, PutPlace;
    var e3, f3 := PutText(e.role, PutPlace(e, t)), PutText(f.role, PutPlace(f, u));
    var e2, f2 := PutText(e.hostId, e3), PutText(f.hostId, f3);
    TextReadable(e.id, PutText(e.operatorId, e2), f.id, PutText(f.operatorId, f2));
    TextReadable(e.operatorId, e2, f.operatorId, f2);
    TextReadable(e.hostId, e3, f.hostId, f3);
    TextReadable(e.role, PutPlace(e, t), f.role, PutPlace(f, u));
    PlaceReadable(e, t, f, u);
  }

  lemma PlaceReadable(e: RelayEntry, t: seq<byte>, f: RelayEntry, u: seq<byte>)
    requires PutPlace(e, t) == PutPlace(f, u)
    ensures e.ip == f.ip && e.port == f.port && e.tlsName == f.tlsName && e.staticPubkey == f.staticPubkey && t == u
  {
    hide PutText, PutBytes, PutNat, PutIp;
    var e3, f3 := PutBytes(e.staticPubkey, t), PutBytes(f.staticPubkey, u);
    var e2, f2 := PutText(e.tlsName, e3), PutText(f.tlsName, f3);
    IpReadable(e.ip, PutNat(e.port, e2), f.ip, PutNat(f.port, f2));
    NatReadable(e.port, e2, f.port, f2);
    TextReadable(e.tlsName, e3, f.tlsName, f3);
    BytesReadable(e.staticPubkey, t, f.staticPubkey, u);
  }

  function PutRelays(es: seq<RelayEntry>, tail: seq<byte>): seq<byte> {
    if es == [] then [0] + tail else [1] + PutRelay(es[0], PutRelays(es[1..], tail))
  }

  lemma {:induction false} RelaysReadable(es: seq<RelayEntry>, t: seq<byte>, fs: seq<RelayEntry>, u: seq<byte>)
    requires PutRelays(es, t) == PutRelays(fs, u)
    ensures es == fs && t == u
  {
    hide PutRelay;
    assert PutRelays(es, t)[0] == PutRelays(fs, u)[0];
    assert PutRelays(es, t)[1..] == PutRelays(fs, u)[1..];
    if es != [] {
      RelayReadable(es[0], PutRelays(es[1..], t), fs[0], PutRelays(fs[1..], u));
      RelaysReadable(es[1..], t, fs[1..], u);
      assert es == [es[0]] + es[1..] && fs == [fs[0]] + fs[1..];
    }
  }

  function Marshal(d: Document): seq<byte> {
    PutInt(d.version, PutBytes(d.validAfter, PutBytes(d.freshUntil, PutBytes(d.validUntil, PutRelays(d.relays, [])))))
  }

  lemma DocumentReadable(d: Document, e: Document)
    requires Marshal(d) == Marshal(e)
    ensures d == e
  {
    hide PutInt, PutBytes, PutRelays;
    var d3, e3 := PutBytes(d.validUntil, PutRelays(d.relays, [])), PutBytes(e.validUntil, PutRelays(e.relays, []));
    var d2, e2 := PutBytes(d.freshUntil, d3), PutBytes(e.freshUntil, e3);
    IntReadable(d.version, PutBytes(d.validAfter, d2), e.version, PutBytes(e.validAfter, e2));
    BytesReadable(d.validAfter, d2, e.validAfter, e2);
    BytesReadable(d.freshUntil, d3, e.freshUntil, e3);
    BytesReadable(d.validUntil, PutRelays(d.relays, []), e.validUntil, PutRelays(e.relays, []));
    RelaysReadable(d.relays, [], e.relays, []);
  }

  function PutSignatures(es: seq<SignatureEntry>): seq<byte> {
    if es == [] then [0] else [1] + PutText(es[0].keyId, PutBytes(es[0].sig, PutSignatures(es[1..])))
  }

  lemma {:induction false} SignaturesReadable(es: seq<SignatureEntry>, fs: seq<SignatureEntry>)
    requires PutSignatures(es) == PutSignatures(fs)
    ensures es == fs
  {
    hide PutText, PutBytes;
    assert PutSignatures(es)[0] == PutSignatures(fs)[0];
    assert PutSignatures(es)[1..] == PutSignatures(fs)[1..];
    if es != [] {
      var e, f := PutSignatures(es[1..]), PutSignatures(fs[1..]);
      TextReadable(es[0].keyId, PutBytes(es[0].sig, e), fs[0].keyId, PutBytes(fs[0].sig, f));
      BytesReadable(es[0].sig, e, fs[0].sig, f);
      SignaturesReadable(es[1..], fs[1..]);
      assert es == [es[0]] + es[1..] && fs == [fs[0]] + fs[1..];
    }
  }

  function Wrap(bytes: seq<byte>, sigs: seq<SignatureEntry>): seq<byte> {
    PutBytes(bytes, PutSignatures(sigs))
  }

  ghost function ReadDocument(b: seq<byte>): Option<Document> {
    if d :| Marshal(d) == b then Some(d) else None
  }

  ghost function ReadEnvelope(b: seq<byte>): Option<Envelope> {
    if env: Envelope :| Wrap(env.document, env.signatures) == b then Some(env) else None
  }

  const WRITER := Encoder(Marshal, Wrap)

  ghost const READER: Codec := EAGER_CODEC.(
    parseDocument := (b: seq<byte>) => ReadDocument(b),
    parseEnvelope := (b: seq<byte>) => ReadEnvelope(b))

  lemma WrapReadable(bytes: seq<byte>, sigs: seq<SignatureEntry>)
    ensures ReadEnvelope(Wrap(bytes, sigs)) == Some(Envelope(bytes, sigs))
  {
    var whole := Envelope(bytes, sigs);
    assert Wrap(whole.document, whole.signatures) == Wrap(bytes, sigs);
    var env := ReadEnvelope(Wrap(bytes, sigs)).value;
    BytesReadable(env.document, PutSignatures(env.signatures), bytes, PutSignatures(sigs));
    SignaturesReadable(env.signatures, sigs);
  }

  /** The laws hold together. */
  lemma ReaderReadsBack()
    ensures LawfulCodec(READER) && ReadsBack(READER, WRITER)
  {
    hide Marshal, Wrap, DocumentFor;
    forall hour, relays
      ensures READER.parseDocument(WRITER.marshal(DocumentFor(hour, relays))) == Some(DocumentFor(hour, relays))
    {
      var d := DocumentFor(hour, relays);
      assert Marshal(d) == Marshal(d);
      DocumentReadable(ReadDocument(Marshal(d)).value, d);
    }
    forall bytes, sigs
      ensures EnvelopeBytes(READER, WRITER.wrap(bytes, sigs)) == Ok(bytes)
      ensures READER.parseEnvelope(WRITER.wrap(bytes, sigs)).value.signatures == sigs
    {
      WrapReadable(bytes, sigs);
    }
  }
}
