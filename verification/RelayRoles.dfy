/** What a relay in each role accepts, and that it is what the client's selector and dialler produce. */
module RelayRoles {
  import opened Bytes
  import opened Cells
  import opened Registry
  import opened Paths
  import Tokens

  datatype Role = Guard | Middle | Exit

  function RoleName(r: Role): string {
    match r
    case Guard => "guard"
    case Middle => "middle"
    case Exit => "exit"
  }

  /** How far along a path a role stands. */
  function Rank(r: Role): nat {
    match r
    case Guard => 0
    case Middle => 1
    case Exit => 2
  }

  // ---- Frame sizes by role ----

  function InboundLayers(r: Role): nat {
    match r
    case Guard => 3
    case Middle => 2
    case Exit => 1
  }

  function InboundLen(r: Role): nat {
    LinkCellLen(InboundLayers(r))
  }

  function OutboundLen(r: Role): Option<nat> {
    if r == Exit then None else Some(LinkCellLen(InboundLayers(r) - 1))
  }

  // ---- Adjacent roles ----

  function UpstreamRole(r: Role): Option<string> {
    match r
    case Guard => None
    case Middle => Some("guard")
    case Exit => Some("middle")
  }

  function DownstreamRole(r: Role): Option<string> {
    match r
    case Guard => Some("middle")
    case Middle => Some("exit")
    case Exit => None
  }

  /** The two ends of every relay link agree on who may be there and on the size of a frame. */
  lemma LinkEndsAgree(up: Role, down: Role)
    ensures DownstreamRole(up) == Some(RoleName(down)) <==> UpstreamRole(down) == Some(RoleName(up))
    ensures DownstreamRole(up) == Some(RoleName(down)) <==> Rank(down) == Rank(up) + 1
    ensures DownstreamRole(up) == Some(RoleName(down)) ==> OutboundLen(up) == Some(InboundLen(down))
    ensures OutboundLen(up).None? <==> DownstreamRole(up).None?
  {
  }

  // ---- Entries as dialled ----

  function EntryAddr(e: RelayEntry): Option<SocketAddr> {
    if EntryIp(e).None? || e.port == 0 then None else Some(SocketAddr(EntryIp(e).value, e.port))
  }

  function StaticKey(e: RelayEntry): Option<seq<byte>> {
    match Tokens.HexValue(e.staticPubkey)
    case None => None
    case Some(raw) => if |raw| == STATIC_KEY_LEN then Some(raw) else None
  }

  lemma {:induction false} HexDigitsDecode(s: seq<byte>)
    requires AllHex(s) && |s| % 2 == 0
    ensures Tokens.HexValue(s).Some?
  {
    if s != [] {
      HexDigitsDecode(s[..|s| - 2]);
    }
  }

  lemma EligibleIsDialable(e: RelayEntry)
    requires Eligible(e)
    ensures EntryAddr(e).Some? && CanonicalAddr(EntryAddr(e).value) == EntryAddr(e).value
    ensures ToV6(EntryAddr(e).value.ip) == ToV6(e.ip.value) && EntryAddr(e).value.port == e.port
    ensures StaticKey(e).Some? && Tokens.HexOf(StaticKey(e).value) == Lower(e.staticPubkey)
  {
    HexDigitsDecode(e.staticPubkey);
    HexOfValue(e.staticPubkey);
    SameHost(e.ip.value, e.ip.value);
    OfV6InvertsToV6(e.ip.value);
  }

  /** Upper-case hex digits in lower case, everything else as it is. */
  function Lower(s: seq<byte>): (r: seq<byte>)
    ensures |r| == |s|
  {
    seq(|s|, i requires 0 <= i < |s| => LowerDigit(s[i]))
  }

  function LowerDigit(b: byte): byte {
    if 65 <= b <= 70 then b + 32 else b
  }

  lemma NibbleOfDigit(b: byte)
    requires Tokens.HexNibble(b).Some?
    ensures Tokens.HexNibble(b).value < 16 && Tokens.Nibble(Tokens.HexNibble(b).value) == LowerDigit(b)
  {
  }

  /** Spelling what a hex string spells gives it back in lower case. */
  lemma {:induction false} HexOfValue(s: seq<byte>)
    requires Tokens.HexValue(s).Some?
    ensures Tokens.HexOf(Tokens.HexValue(s).value) == Lower(s)
  {
    hide LowerDigit, Tokens.Nibble, Tokens.HexNibble;
    if s != [] {
      var init, a, b := s[..|s| - 2], s[|s| - 2], s[|s| - 1];
      HexOfValue(init);
      NibbleOfDigit(a);
      NibbleOfDigit(b);
      var hi, lo := Tokens.HexNibble(a).value, Tokens.HexNibble(b).value;
      var v := Tokens.HexValue(s).value;
      assert v == Tokens.HexValue(init).value + [hi * 16 + lo];
      assert (hi * 16 + lo) / 16 == hi && (hi * 16 + lo) % 16 == lo;
      assert v[..|v| - 1] == Tokens.HexValue(init).value;
      assert Lower(s) == Lower(init) + [LowerDigit(a), LowerDigit(b)];
    }
  }

  lemma {:induction false} DecodedIsHex(s: seq<byte>)
    requires Tokens.HexValue(s).Some?
    ensures AllHex(s) && |s| == 2 * |Tokens.HexValue(s).value|
  {
    if s != [] {
      DecodedIsHex(s[..|s| - 2]);
      forall i | 0 <= i < |s| ensures Tokens.HexNibble(s[i]).Some? {
        assert i < |s| - 2 ==> s[i] == s[..|s| - 2][i];
      }
    }
  }

  /** The client takes exactly the entries that name a role, can be dialled and leave no text empty. */
  lemma EligibleIff(e: RelayEntry)
    ensures Eligible(e) <==>
              && EntryAddr(e).Some? && StaticKey(e).Some? && (exists r :: e.role == RoleName(r))
              && e.id != "" && e.operatorId != "" && e.hostId != "" && e.tlsName != ""
  {
    if Eligible(e) {
      EligibleIsDialable(e);
      var r := if e.role == "guard" then Guard else if e.role == "middle" then Middle else Exit;
      assert e.role == RoleName(r);
    }
    if StaticKey(e).Some? {
      DecodedIsHex(e.staticPubkey);
    }
  }

  // ---- What a relay admits ----

  predicate AdmitsInbound(relays: seq<RelayEntry>, role: Role, peer: Ip) {
    UpstreamRole(role).Some? &&
    exists i :: && 0 <= i < |relays| && relays[i].role == UpstreamRole(role).value
                && EntryIp(relays[i]) == Some(CanonicalIp(peer))
  }

  predicate IsTarget(e: RelayEntry, want: string, next: SocketAddr) {
    e.role == want && EntryAddr(e) == Some(CanonicalAddr(next))
  }

  /** The index of the first entry a relay may extend to at this address. */
  function TargetIndex(relays: seq<RelayEntry>, want: string, next: SocketAddr): (r: Option<nat>)
    ensures r.Some? ==> r.value < |relays| && IsTarget(relays[r.value], want, next)
    ensures r.Some? ==> forall j :: 0 <= j < r.value ==> !IsTarget(relays[j], want, next)
    ensures r.None? <==> forall j :: 0 <= j < |relays| ==> !IsTarget(relays[j], want, next)
  {
    if relays == [] then None
    else match TargetIndex(relays[..|relays| - 1], want, next)
      case Some(j) => Some(j)
      case None => if IsTarget(relays[|relays| - 1], want, next) then Some(|relays| - 1) else None
  }

  function ExtendTarget(relays: seq<RelayEntry>, role: Role, next: SocketAddr): Option<RelayEntry> {
    if DownstreamRole(role).None? then None
    else match TargetIndex(relays, DownstreamRole(role).value, next)
      case None => None
      case Some(i) => Some(relays[i])
  }

  /** A hop of the path: dialable, and its EXTEND finds a relay of its role at its address. */
  ghost predicate HopWorks(relays: seq<RelayEntry>, parent: Role, hop: RelayEntry, role: Role) {
    && hop.role == RoleName(role) && EntryAddr(hop).Some? && StaticKey(hop).Some?
    && (forall msg: NoiseMsg ::
          var sent := ExtendForward(EntryAddr(hop).value, msg);
          DecodeExtend(EncodeExtend(sent)) == Ok(sent))
    && (Rank(role) == Rank(parent) + 1 ==>
          var target := ExtendTarget(relays, parent, EntryAddr(hop).value);
          target.Some? && target.value.role == RoleName(role) && EntryAddr(target.value) == EntryAddr(hop))
  }

  lemma MemberWorks(relays: seq<RelayEntry>, parent: Role, i: nat, role: Role)
    requires i < |relays| && Eligible(relays[i]) && relays[i].role == RoleName(role)
    ensures HopWorks(relays, parent, relays[i], role)
  {
    hide WellFormed, DecodeExtend, EncodeExtend;
    var hop := relays[i];
    EligibleIsDialable(hop);
    forall msg: NoiseMsg
      ensures var sent := ExtendForward(EntryAddr(hop).value, msg); DecodeExtend(EncodeExtend(sent)) == Ok(sent)
    {
      ExtendDecodeAfterEncode(ExtendForward(EntryAddr(hop).value, msg));
    }
    if Rank(role) == Rank(parent) + 1 {
      LinkEndsAgree(parent, role);
      assert IsTarget(hop, RoleName(role), EntryAddr(hop).value);
    }
  }

  lemma CandidateIsMember(relays: seq<RelayEntry>, c: Candidate, role: string) returns (i: nat)
    requires AllEligible(relays) && c in ByRole(CandidatesOf(relays), role)
    ensures i < |relays| && c == AsCandidate(relays[i]) && c.entry == relays[i] && relays[i].role == role
  {
    hide Eligible;
    i :| 0 <= i < |relays| && CandidatesOf(relays)[i] == c;
  }

  /**
   Every path the selector returns can be dialled: each hop has an address and a key, its EXTEND
   carries the address unchanged, each relay holding the same document finds the next hop in the
   right role, and each relay admits the hop before it.
   */
  lemma SelectedPathWorks(doc: Document, rules: PathRules, now: int, rng: Draw)
    requires Selection(doc, rules, now, rng).Ok?
    ensures var p := Selection(doc, rules, now, rng).value;
            && HopWorks(doc.relays, Guard, p.guard, Guard)
            && HopWorks(doc.relays, Guard, p.middle, Middle)
            && HopWorks(doc.relays, Middle, p.exit, Exit)
            && AdmitsInbound(doc.relays, Middle, EntryAddr(p.guard).value.ip)
            && AdmitsInbound(doc.relays, Exit, EntryAddr(p.middle).value.ip)
  {
    hide UsableAt, AllValid, ByRole, HopWorks, Eligible, TripleIsValid;
    var pool := PoolOf(doc.relays, rules);
    var path := Selection(doc, rules, now, rng).value;
    IndexIsBijection(pool);
    var t := AllValid(pool)[rng(|AllValid(pool)|)];
    var g := CandidateIsMember(doc.relays, pool.gs[t.0], "guard");
    var m := CandidateIsMember(doc.relays, pool.ms[t.1], "middle");
    var e := CandidateIsMember(doc.relays, pool.es[t.2], "exit");
    MemberWorks(doc.relays, Guard, g, Guard);
    MemberWorks(doc.relays, Guard, m, Middle);
    MemberWorks(doc.relays, Middle, e, Exit);
    HopAdmitted(doc.relays, g, Guard, Middle);
    HopAdmitted(doc.relays, m, Middle, Exit);
  }

  lemma HopAdmitted(relays: seq<RelayEntry>, i: nat, role: Role, next: Role)
    requires i < |relays| && Eligible(relays[i]) && relays[i].role == RoleName(role) && Rank(next) == Rank(role) + 1
    ensures EntryAddr(relays[i]).Some? && AdmitsInbound(relays, next, EntryAddr(relays[i]).value.ip)
  {
    EligibleIsDialable(relays[i]);
  }

  /**
   A peer is admitted exactly if the registry lists a relay one rank before at the peer's address,
   however either is spelled; every other peer is refused.
   */
  lemma AdmitsExactly(relays: seq<RelayEntry>, role: Role, peer: Ip)
    ensures AdmitsInbound(relays, role, peer) <==>
              exists i, r :: && 0 <= i < |relays| && relays[i].role == RoleName(r) && Rank(r) + 1 == Rank(role)
                             && relays[i].ip.Some? && ToV6(relays[i].ip.value) == ToV6(peer)
  {
    hide ToV6, CanonicalIp;
    forall i | 0 <= i < |relays| && relays[i].ip.Some?
      ensures EntryIp(relays[i]) == Some(CanonicalIp(peer)) <==> ToV6(relays[i].ip.value) == ToV6(peer)
    {
      SameHost(relays[i].ip.value, peer);
    }
    if AdmitsInbound(relays, role, peer) {
      var r := if role == Middle then Guard else Middle;
      var i :| && 0 <= i < |relays| && relays[i].role == UpstreamRole(role).value
               && EntryIp(relays[i]) == Some(CanonicalIp(peer));
      assert relays[i].role == RoleName(r) && Rank(r) + 1 == Rank(role);
    }
  }

  /** An EXTEND names an entry exactly by role, address and port, the address however spelled. */
  lemma TargetMeans(e: RelayEntry, want: string, next: SocketAddr)
    ensures IsTarget(e, want, next) <==>
              && e.role == want && e.ip.Some? && ToV6(e.ip.value) == ToV6(next.ip) && e.port == next.port && e.port != 0
  {
    if e.ip.Some? {
      SameHost(e.ip.value, next.ip);
    }
  }

  // ---- Chains of extends ----

  /** One relay on a chain: the role it runs in, and the address its next hop was asked for. */
  datatype Link = Link(role: Role, next: SocketAddr)

  /** Each relay extended to an entry its registry allows, and the next runs in that entry's role. */
  predicate AdmittedChain(relays: seq<RelayEntry>, chain: seq<Link>) {
    forall i :: 0 <= i < |chain| - 1 ==>
      ExtendTarget(relays, chain[i].role, chain[i].next).Some?
      && ExtendTarget(relays, chain[i].role, chain[i].next).value.role == RoleName(chain[i + 1].role)
  }

  /** Roles rise by one at every extend, so no chain is longer than three relays. */
  lemma {:induction false} ChainsAreShort(relays: seq<RelayEntry>, chain: seq<Link>)
    requires AdmittedChain(relays, chain) && chain != []
    ensures forall i :: 0 <= i < |chain| ==> Rank(chain[i].role) == Rank(chain[0].role) + i
    ensures |chain| <= 3 - Rank(chain[0].role)
  {
    if |chain| > 1 {
      var init := chain[..|chain| - 1];
      assert forall i :: 0 <= i < |init| ==> init[i] == chain[i];
      assert AdmittedChain(relays, init) by {
        forall i | 0 <= i < |init| - 1
          ensures ExtendTarget(relays, init[i].role, init[i].next).Some?
               && ExtendTarget(relays, init[i].role, init[i].next).value.role == RoleName(init[i + 1].role)
        {
          assert init[i + 1] == chain[i + 1];
        }
      }
      ChainsAreShort(relays, init);
      var k := |chain| - 2;
      assert ExtendTarget(relays, chain[k].role, chain[k].next).value.role == RoleName(chain[k + 1].role);
      LinkEndsAgree(chain[k].role, chain[k + 1].role);
    }
  }

  // ---- Spelling of addresses ----

  /** The same entry, its address possibly spelled the other way. */
  predicate SameEntry(e: RelayEntry, f: RelayEntry) {
    f == e.(ip := f.ip) && EntryIp(e) == EntryIp(f)
  }

  predicate Respelled(relays: seq<RelayEntry>, relays': seq<RelayEntry>) {
    |relays| == |relays'| && forall i :: 0 <= i < |relays| ==> SameEntry(relays[i], relays'[i])
  }

  /** IPv4-mapped and plain spellings of one address are the same entry. */
  lemma MappedSpellingIsSameEntry(e: RelayEntry, o: Octets4)
    requires e.ip == Some(V4(o))
    ensures SameEntry(e, e.(ip := Some(V6(MAPPED_PREFIX + o))))
  {
    SameHost(V4(o), V6(MAPPED_PREFIX + o));
  }

  /** Every plain IPv4 address in a registry spelled as an IPv4-mapped one. */
  function Mapped(relays: seq<RelayEntry>): (r: seq<RelayEntry>)
    ensures |r| == |relays|
  {
    seq(|relays|, i requires 0 <= i < |relays| =>
      match relays[i].ip
      case Some(V4(o)) => relays[i].(ip := Some(V6(MAPPED_PREFIX + o)))
      case _ => relays[i])
  }

  lemma MappedIsRespelled(relays: seq<RelayEntry>)
    ensures Respelled(relays, Mapped(relays))
  {
    forall i | 0 <= i < |relays| ensures SameEntry(relays[i], Mapped(relays)[i]) {
      if relays[i].ip.Some? && relays[i].ip.value.V4? {
        MappedSpellingIsSameEntry(relays[i], relays[i].ip.value.o4);
      }
    }
  }

  predicate SameCandidates(a: seq<Candidate>, b: seq<Candidate>) {
    |a| == |b| && forall i :: 0 <= i < |a| ==> SameEntry(a[i].entry, b[i].entry) && a[i].ip == b[i].ip
  }

  lemma {:induction false} ByRoleRespelled(a: seq<Candidate>, b: seq<Candidate>, role: string)
    requires SameCandidates(a, b)
    ensures SameCandidates(ByRole(a, role), ByRole(b, role))
  {
    if a != [] {
      ByRoleRespelled(a[..|a| - 1], b[..|b| - 1], role);
    }
  }

  lemma {:induction false} ValidBeforeRespelled(p: Pool, q: Pool, i: nat, j: nat, k: nat)
    requires SameCandidates(p.gs, q.gs) && SameCandidates(p.ms, q.ms) && SameCandidates(p.es, q.es)
    requires p.rules == q.rules
    requires i <= |p.gs| && j <= |p.ms| && k <= |p.es|
    ensures ValidBefore(p, i, j, k) == ValidBefore(q, i, j, k)
    decreases i, j, k
  {
    if k > 0 {
      ValidBeforeRespelled(p, q, i, j, k - 1);
    } else if j > 0 {
      ValidBeforeRespelled(p, q, i, j - 1, |p.es|);
    } else if i > 0 {
      ValidBeforeRespelled(p, q, i - 1, |p.ms|, 0);
    }
  }

  /** Respelling addresses changes neither the refusal, nor which triple a draw selects. */
  lemma RespellingKeepsSelection(doc: Document, relays': seq<RelayEntry>, rules: PathRules, now: int)
    requires Respelled(doc.relays, relays')
    ensures Refusal(doc, rules, now) == Refusal(doc.(relays := relays'), rules, now)
    ensures AllEligible(doc.relays) <==> AllEligible(relays')
    ensures AllEligible(doc.relays) ==> AllValid(PoolOf(doc.relays, rules)) == AllValid(PoolOf(relays', rules))
  {
    hide UsableAt, ByRole, ValidBefore;
    EligibilityRespelled(doc.relays, relays');
    assert UsableAt(doc.(relays := relays'), now) == UsableAt(doc, now) by { WindowIgnoresRelays(doc, relays', now); }
    if AllEligible(doc.relays) {
      var p, q := PoolOf(doc.relays, rules), PoolOf(relays', rules);
      var a, b := CandidatesOf(doc.relays), CandidatesOf(relays');
      ByRoleRespelled(a, b, "guard");
      ByRoleRespelled(a, b, "middle");
      ByRoleRespelled(a, b, "exit");
      ValidBeforeRespelled(p, q, |p.gs|, 0, 0);
    }
  }

  lemma WindowIgnoresRelays(doc: Document, relays': seq<RelayEntry>, now: int)
    ensures UsableAt(doc.(relays := relays'), now) == UsableAt(doc, now)
  {
  }

  lemma EligibilityRespelled(relays: seq<RelayEntry>, relays': seq<RelayEntry>)
    requires Respelled(relays, relays')
    ensures AllEligible(relays) <==> AllEligible(relays')
  {
    assert forall i :: 0 <= i < |relays| ==>
                         SameEntry(relays[i], relays'[i]) && (Eligible(relays[i]) <==> Eligible(relays'[i]));
  }

  /** Nor which inbound peers are admitted, nor which entry an EXTEND finds, however either is spelled. */
  lemma RespellingKeepsAdmission(relays: seq<RelayEntry>, relays': seq<RelayEntry>, role: Role, peer: Ip, peer': Ip,
                                 next: SocketAddr, next': SocketAddr)
    requires Respelled(relays, relays') && ToV6(peer) == ToV6(peer')
    requires ToV6(next.ip) == ToV6(next'.ip) && next.port == next'.port
    ensures AdmitsInbound(relays, role, peer) <==> AdmitsInbound(relays', role, peer')
    ensures DownstreamRole(role).Some? ==>
              var want := DownstreamRole(role).value;
              TargetIndex(relays, want, next) == TargetIndex(relays', want, next')
  {
    hide TargetIndex, CanonicalIp, ToV6, IsTarget;
    SameHost(peer, peer');
    assert forall i :: 0 <= i < |relays| ==> SameEntry(relays[i], relays'[i]);
    if DownstreamRole(role).Some? {
      var want := DownstreamRole(role).value;
      forall i | 0 <= i < |relays| ensures IsTarget(relays[i], want, next) <==> IsTarget(relays'[i], want, next') {
        SameTarget(relays[i], relays'[i], want, next, next');
      }
      var x, y := TargetIndex(relays, want, next), TargetIndex(relays', want, next');
    }
  }

  lemma SameTarget(e: RelayEntry, f: RelayEntry, want: string, next: SocketAddr, next': SocketAddr)
    requires SameEntry(e, f) && ToV6(next.ip) == ToV6(next'.ip) && next.port == next'.port
    ensures IsTarget(e, want, next) <==> IsTarget(f, want, next')
  {
    SameHost(next.ip, next'.ip);
  }
}
