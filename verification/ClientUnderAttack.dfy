/**
 The client's end of a circuit when the network and the hops may do anything: hops seal any
 plaintext, the network hands over any bytes, and the client peels one session per hop.
 */
module ClientUnderAttack {
  import opened Bytes
  import opened Cells
  import opened Noise
  import opened Layer
  import opened Streams
  import T = Tunnel
  import C = Circuits

  /**
   What each hop has sealed toward the client, what each of the client's sessions has accepted, the
   innermost hop it has a session with, and what it has written to the user. A session's receive
   counter is the number of plaintexts it has accepted.
   */
  datatype Inbox = Inbox(
    sealed: seq<seq<seq<byte>>>,
    got: seq<seq<seq<byte>>>,
    deepest: nat,
    alive: bool,
    user: seq<byte>)

  predicate Shaped(s: Inbox) {
    |s.got| == |s.sealed| && s.deepest < |s.sealed|
  }

  /** After the handshake with the guard. */
  function Fresh(n: nat): (s: Inbox)
    requires n >= 1
    ensures Shaped(s)
  {
    Inbox(seq(n, _ => []), seq(n, _ => []), n - 1, true, [])
  }

  function Counters(got: seq<seq<seq<byte>>>): nat -> nat {
    l => if 1 <= l <= |got| then |got[l - 1]| else 0
  }

  /** Add to each session what it accepted, the outermost being the guard's. */
  function Accepted(got: seq<seq<seq<byte>>>, ps: seq<seq<byte>>): (r: seq<seq<seq<byte>>>)
    ensures |r| == |got|
  {
    seq(|got|, h requires 0 <= h < |got| =>
      if |got| - 1 - h < |ps| then got[h] + [ps[|got| - 1 - h]] else got[h])
  }

  function OpenedBy(a: Suite, s: Inbox, wire: seq<byte>): (ps: seq<seq<byte>>)
    requires Shaped(s)
    ensures |ps| <= |s.got| - s.deepest && LayerSized(ps, |s.got|)
  {
    Opens(a, UpKey, Counters(s.got), wire, |s.got|, s.deepest + 1)
  }

  datatype Event = Seals(h: nat, plain: seq<byte>) | Arrives(wire: seq<byte>, env: C.Choice) | Fails

  /** A cell found at hop `h`: while dialling the awaited reply, afterwards anything, from any hop. */
  function OnCell(s: Inbox, c: Cell, h: nat, env: C.Choice): Inbox {
    if s.deepest > 0 then
      if h == s.deepest && c.cellType == Extend && ParseExtendBackward(c.payload).Ok? && env.ok
      then s.(deepest := s.deepest - 1)
      else s.(alive := false)
    else if c.cellType != Data then s.(alive := false)
    else if c.payload == [] then s
    else if env.ok then s.(user := s.user + c.payload)
    else s.(user := s.user + C.Prefix(c.payload, env.written), alive := false)
  }

  function Handle(a: Suite, s: Inbox, e: Event): (t: Inbox)
    requires Shaped(s)
    ensures Shaped(t) && |t.got| == |s.got|
  {
    match e
    case Seals(h, plain) => if h < |s.sealed| then s.(sealed := s.sealed[h := s.sealed[h] + [plain]]) else s
    case Fails => s.(alive := false)
    case Arrives(wire, env) =>
      if !s.alive then s
      else
        var ps := OpenedBy(a, s, wire);
        var t := s.(got := Accepted(s.got, ps));
        match CellIn(ps, |s.got|)
        case None => t.(alive := false)
        case Some(c) => OnCell(t, c, |s.got| - |ps|, env)
  }

  // ---- What the network may hand over ----

  /** The bytes open in this session only at a counter where its hop sealed exactly them. */
  ghost predicate Genuine(a: Suite, key: Key, plains: seq<seq<byte>>, wire: seq<byte>) {
    forall n: nat :: a.open(key, n, wire).Some? ==> n < |plains| && wire == a.seal(key, n, plains[n])
  }

  /** No layer the client gets to see is forged. */
  ghost predicate Authentic(a: Suite, sealed: seq<seq<seq<byte>>>, ctr: nat -> nat, wire: seq<byte>,
                            outer: nat, floor: nat)
    requires 1 <= floor <= outer <= |sealed|
    decreases outer
  {
    && Genuine(a, UpKey(outer), sealed[outer - 1], wire)
    && match OpenFrame(a, UpKey(outer), ctr(outer), wire, outer)
       case Err(_) => true
       case Ok(plain) =>
         match PeelPlain(plain, outer)
         case Ok(Forward(blob)) => outer > floor ==> Authentic(a, sealed, ctr, blob, outer - 1, floor)
         case _ => true
  }

  ghost predicate Allowed(a: Suite, s: Inbox, e: Event)
    requires Shaped(s)
  {
    e.Arrives? && s.alive ==> Authentic(a, s.sealed, Counters(s.got), e.wire, |s.got|, s.deepest + 1)
  }

  ghost predicate Attack(a: Suite, s: Inbox, es: seq<Event>, t: Inbox)
    requires Shaped(s)
    decreases |es|
  {
    if es == [] then t == s
    else Allowed(a, s, es[0]) && Attack(a, Handle(a, s, es[0]), es[1..], t)
  }

  // ---- What each session accepts ----

  /** If more than one layer opens, the outermost holds a frame and the rest is what that frame opens to. */
  lemma InnerFrame(a: Suite, ctr: nat -> nat, wire: seq<byte>, outer: nat, floor: nat) returns (blob: seq<byte>)
    requires 1 <= floor <= outer && |Opens(a, UpKey, ctr, wire, outer, floor)| >= 2
    ensures var ps := Opens(a, UpKey, ctr, wire, outer, floor);
            && outer > floor && OpenFrame(a, UpKey(outer), ctr(outer), wire, outer) == Ok(ps[0])
            && PeelPlain(ps[0], outer) == Ok(Forward(blob))
            && ps == [ps[0]] + Opens(a, UpKey, ctr, blob, outer - 1, floor)
  {
    hide PeelPlain, OpenFrame;
    var plain := OpenFrame(a, UpKey(outer), ctr(outer), wire, outer).value;
    blob := PeelPlain(plain, outer).value.blob;
  }

  /** Every plaintext that opens is the next one the hop of that layer sealed. */
  lemma {:induction false} OpensTheNext(a: Suite, sealed: seq<seq<seq<byte>>>, ctr: nat -> nat, wire: seq<byte>,
                                        outer: nat, floor: nat, i: nat)
    requires 1 <= floor <= outer <= |sealed| && Authentic(a, sealed, ctr, wire, outer, floor)
    requires i < |Opens(a, UpKey, ctr, wire, outer, floor)|
    ensures var h := outer - 1 - i;
            ctr(h + 1) < |sealed[h]| && Opens(a, UpKey, ctr, wire, outer, floor)[i] == sealed[h][ctr(h + 1)]
    decreases outer
  {
    hide PeelPlain;
    if i > 0 {
      var blob := InnerFrame(a, ctr, wire, outer, floor);
      OpensTheNext(a, sealed, ctr, blob, outer - 1, floor, i - 1);
    }
  }

  predicate Prefixes(s: Inbox) {
    Shaped(s) && forall h :: 0 <= h < |s.got| ==> s.got[h] <= s.sealed[h]
  }

  lemma HandleKeepsPrefixes(a: Suite, s: Inbox, e: Event)
    requires Prefixes(s) && Allowed(a, s, e)
    ensures Prefixes(Handle(a, s, e))
  {
    hide CellIn, Authentic, Opens;
    var t := Handle(a, s, e);
    if e.Arrives? && s.alive {
      var ps := OpenedBy(a, s, e.wire);
      var n := |s.got|;
      assert t.got == Accepted(s.got, ps) && t.sealed == s.sealed;
      forall h | 0 <= h < n ensures t.got[h] <= t.sealed[h] {
        if n - 1 - h < |ps| {
          OpensTheNext(a, s.sealed, Counters(s.got), e.wire, n, s.deepest + 1, n - 1 - h);
          assert s.sealed[h][..|s.got[h]| + 1] == s.sealed[h][..|s.got[h]|] + [s.sealed[h][|s.got[h]|]];
        }
      }
    }
  }

  /**
   Over any run, for any number of hops: whatever hops seal and whatever the network drops, replays,
   reorders or alters, what each of the client's sessions has accepted is a prefix of what its hop
   sealed.
   */
  lemma {:induction false} AcceptedArePrefixes(a: Suite, s: Inbox, es: seq<Event>, t: Inbox)
    requires Prefixes(s) && Attack(a, s, es, t)
    ensures Prefixes(t)
    decreases |es|
  {
    hide Allowed, Handle;
    if es != [] {
      HandleKeepsPrefixes(a, s, es[0]);
      AcceptedArePrefixes(a, Handle(a, s, es[0]), es[1..], t);
    }
  }

  /** A frame opens at all exactly if it is the guard's next one, of the link's size. */
  lemma OnlyTheNextFrameOpens(a: Suite, s: Inbox, wire: seq<byte>)
    requires Shaped(s) && Authentic(a, s.sealed, Counters(s.got), wire, |s.got|, s.deepest + 1)
    ensures var n := |s.got|;
            var next := |s.got[n - 1]|;
            OpenedBy(a, s, wire) != [] <==>
              && next < |s.sealed[n - 1]| && wire == a.seal(UpKey(n), next, s.sealed[n - 1][next])
              && |wire| == LinkCellLen(n)
  {
    hide PeelPlain;
  }

  /**
   Exactly what keeps the client's circuit up: while dialling, the awaited hop's own EXTEND reply of the
   right length and a handshake that completes; afterwards, DATA that the user's side takes.
   */
  lemma ClientSurvivesIff(a: Suite, s: Inbox, wire: seq<byte>, env: C.Choice)
    requires Shaped(s) && s.alive
    ensures var ps := OpenedBy(a, s, wire);
            var found := CellIn(ps, |s.got|);
            var t := Handle(a, s, Arrives(wire, env));
            && (t.alive <==>
                  && found.Some?
                  && if s.deepest > 0 then
                       && |ps| == |s.got| - s.deepest && found.value.cellType == Extend
                       && |found.value.payload| == NOISE_MSG_LEN && env.ok
                     else found.value.cellType == Data && (found.value.payload == [] || env.ok))
            && t.deepest == if t.alive && s.deepest > 0 then s.deepest - 1 else s.deepest
  {
    hide Opens, CellIn;
  }

  /** Once the client has ended its circuit nothing delivered later has any effect. */
  lemma {:induction false} EndIsFinal(a: Suite, s: Inbox, es: seq<Event>, t: Inbox)
    requires Shaped(s) && !s.alive && Attack(a, s, es, t)
    ensures !t.alive && t.got == s.got && t.user == s.user && t.deepest == s.deepest
    decreases |es|
  {
    hide Allowed, Opens, CellIn;
    if es != [] {
      EndIsFinal(a, Handle(a, s, es[0]), es[1..], t);
    }
  }

  /** The first delivery in which no cell is found ends the circuit for good and writes nothing. */
  lemma FirstFailureIsFinal(a: Suite, s: Inbox, wire: seq<byte>, env: C.Choice, es: seq<Event>, t: Inbox)
    requires Shaped(s) && s.alive && CellIn(OpenedBy(a, s, wire), |s.got|).None?
    requires Attack(a, Handle(a, s, Arrives(wire, env)), es, t)
    ensures !t.alive && t.user == s.user
    ensures t.got == Accepted(s.got, OpenedBy(a, s, wire))
  {
    hide Opens, CellIn, Attack;
    EndIsFinal(a, Handle(a, s, Arrives(wire, env)), es, t);
  }

  // ---- Whose bytes reach the user ----

  /** The application bytes in a plaintext of layer `l`. */
  function DataIn(plain: seq<byte>, l: nat): seq<byte>
    requires l >= 1
  {
    if |plain| != PeeledLen(l) then []
    else match PeelPlain(plain, l)
      case Ok(ToMe(c)) => if c.cellType == Data then c.payload else []
      case _ => []
  }

  /** The application bytes hop `l - 1` sealed, in order. */
  function Spoken(plains: seq<seq<byte>>, l: nat): seq<byte>
    requires l >= 1
  {
    if plains == [] then [] else Spoken(plains[..|plains| - 1], l) + DataIn(plains[|plains| - 1], l)
  }

  lemma SpokenSnoc(plains: seq<seq<byte>>, p: seq<byte>, l: nat)
    requires l >= 1
    ensures Spoken(plains + [p], l) == Spoken(plains, l) + DataIn(p, l)
  {
    assert (plains + [p])[..|plains|] == plains;
  }

  lemma {:induction false} SpokenPrefix(plains: seq<seq<byte>>, m: nat, l: nat)
    requires m <= |plains| && l >= 1
    ensures Spoken(plains[..m], l) <= Spoken(plains, l)
  {
    if m < |plains| {
      SpokenPrefix(plains[..|plains| - 1], m, l);
      assert plains[..|plains| - 1][..m] == plains[..m];
    } else {
      assert plains[..m] == plains;
    }
  }

  /** The plaintexts of a hop that seals only cells and adjacent frames, as the code does. */
  function Plains(xs: seq<Item>, h: nat): (ps: seq<seq<byte>>)
    ensures |ps| == |xs| && forall i :: 0 <= i < |ps| ==> ps[i] == Plain(xs[i], h)
  {
    seq(|xs|, i requires 0 <= i < |xs| => Plain(xs[i], h))
  }

  lemma DataInPlain(x: Item, h: nat)
    requires Sound(x, h)
    ensures DataIn(Plain(x, h), h + 1) == DataOf(x)
  {
    hide PeelPlain;
    match x
    case Own(c) => PeelToMe(c, h + 1);
    case Wrap(b) => PeelForward(b, h + 1);
  }

  /** What such a hop says is the bytes of its DATA cells. */
  lemma {:induction false} SpokenIsPayload(xs: seq<Item>, h: nat)
    requires AllSound(xs, h)
    ensures Spoken(Plains(xs, h), h + 1) == Payload(xs)
  {
    hide DataIn, Plain;
    if xs == [] {
      assert Plains(xs, h) == [];
    } else {
      var init, x := xs[..|xs| - 1], xs[|xs| - 1];
      SpokenIsPayload(init, h);
      assert Sound(x, h);
      DataInPlain(x, h);
      assert Plains(xs, h) == Plains(init, h) + [Plain(x, h)];
      SpokenSnoc(Plains(init, h), Plain(x, h), h + 1);
    }
  }

  lemma {:induction false} OuterAreForwards(a: Suite, ctr: nat -> nat, wire: seq<byte>, outer: nat, floor: nat, i: nat)
    requires 1 <= floor <= outer && i + 1 < |Opens(a, UpKey, ctr, wire, outer, floor)|
    ensures DataIn(Opens(a, UpKey, ctr, wire, outer, floor)[i], outer - i) == []
    decreases outer
  {
    hide PeelPlain, OpenFrame, Opens;
    var blob := InnerFrame(a, ctr, wire, outer, floor);
    if i > 0 {
      OuterAreForwards(a, ctr, blob, outer - 1, floor, i - 1);
    }
  }

  /** The bytes in the cell a frame was found to hold. */
  function Delivered(a: Suite, s: Inbox, wire: seq<byte>): seq<byte>
    requires Shaped(s)
  {
    match CellIn(OpenedBy(a, s, wire), |s.got|)
    case Some(c) => if c.cellType == Data then c.payload else []
    case None => []
  }

  /** A delivery adds the bytes of the cell found to the session of the hop it was found at, and to no other. */
  lemma OneHopSpeaks(a: Suite, s: Inbox, wire: seq<byte>, h: nat)
    requires Shaped(s) && h < |s.got|
    ensures var ps := OpenedBy(a, s, wire);
            (Spoken(Accepted(s.got, ps)[h], h + 1)
             == Spoken(s.got[h], h + 1) + if h + |ps| == |s.got| then Delivered(a, s, wire) else [])
  {
    hide Opens, PeelPlain, Spoken;
    var n, ps := |s.got|, OpenedBy(a, s, wire);
    var i := n - 1 - h;
    if i < |ps| {
      SpokenSnoc(s.got[h], ps[i], h + 1);
      if i + 1 < |ps| {
        OuterAreForwards(a, Counters(s.got), wire, n, s.deepest + 1, i);
      }
    }
  }

  /**
   Delivery by delivery: while data flows and the user's side takes it, the user's bytes grow by
   exactly what the exit's own session accepted if and only if the cell was found at the exit's layer
   or carries no data. The client does not look at the layer, so nothing else ensures it.
   */
  lemma GrowsByExitBytesIff(a: Suite, s: Inbox, wire: seq<byte>, env: C.Choice)
    requires Shaped(s) && s.alive && s.deepest == 0 && env.ok
    ensures var t := Handle(a, s, Arrives(wire, env));
            && s.got[0] <= t.got[0]
            && (s.user + Spoken(t.got[0][|s.got[0]|..], 1) == t.user <==>
                  |OpenedBy(a, s, wire)| == |s.got| || Delivered(a, s, wire) == [])
  {
    hide Opens, PeelPlain, Spoken;
    var n, ps := |s.got|, OpenedBy(a, s, wire);
    var t := Handle(a, s, Arrives(wire, env));
    OneHopSpeaks(a, s, wire, 0);
    assert t.user == s.user + Delivered(a, s, wire);
    if |ps| == n {
      assert t.got[0][|s.got[0]|..] == [ps[n - 1]];
      SpokenSnoc([], ps[n - 1], 1);
      SpokenNothing(1);
      assert [] + [ps[n - 1]] == [ps[n - 1]];
    } else {
      assert t.got[0][|s.got[0]|..] == [];
      SpokenNothing(1);
    }
  }

  lemma SpokenNothing(l: nat)
    requires l >= 1
    ensures Spoken([], l) == []
  {
  }

  // ---- Over whole runs ----

  /** How many application bytes the first `m` hops have been accepted with. */
  function Total(got: seq<seq<seq<byte>>>, m: nat): nat
    requires m <= |got|
  {
    if m == 0 then 0 else Total(got, m - 1) + |Spoken(got[m - 1], m)|
  }

  lemma {:induction false} TotalGrows(got: seq<seq<seq<byte>>>, later: seq<seq<seq<byte>>>, m: nat,
                                      k: nat, d: seq<byte>)
    requires m <= |got| == |later|
    requires forall h :: 0 <= h < m ==> Spoken(later[h], h + 1) == Spoken(got[h], h + 1) + if h == k then d else []
    ensures Total(later, m) == Total(got, m) + if k < m then |d| else 0
    decreases m
  {
    hide Spoken;
    if m > 0 {
      TotalGrows(got, later, m - 1, k, d);
    }
  }

  /** No hop but the exit has been accepted with any application bytes. */
  predicate OthersSilent(got: seq<seq<seq<byte>>>) {
    forall h :: 0 < h < |got| ==> Spoken(got[h], h + 1) == []
  }

  lemma {:induction false} TotalOfSilence(got: seq<seq<seq<byte>>>, m: nat)
    requires 1 <= m <= |got|
    ensures Total(got, m) >= |Spoken(got[0], 1)|
    ensures Total(got, m) == |Spoken(got[0], 1)| <==> forall h :: 0 < h < m ==> Spoken(got[h], h + 1) == []
    decreases m
  {
    hide Spoken;
    if m > 1 {
      TotalOfSilence(got, m - 1);
      assert |Spoken(got[m - 1], m)| == 0 <==> Spoken(got[(m - 1)], (m - 1) + 1) == [];
    } else {
      assert Total(got, 0) == 0;
    }
  }

  /** Every byte written came from some hop; if only the exit spoke, they are its bytes in order. */
  ghost predicate Ledger(s: Inbox) {
    && Shaped(s)
    && (s.alive ==> |s.user| == Total(s.got, |s.got|))
    && (OthersSilent(s.got) ==> s.user <= Spoken(s.got[0], 1) && (s.alive ==> s.user == Spoken(s.got[0], 1)))
  }

  lemma StillSilent(got: seq<seq<seq<byte>>>, later: seq<seq<seq<byte>>>, k: nat, d: seq<byte>)
    requires |got| == |later| && OthersSilent(later)
    requires forall h :: 0 <= h < |got| ==> Spoken(later[h], h + 1) == Spoken(got[h], h + 1) + if h == k then d else []
    ensures OthersSilent(got) && (0 < k < |got| ==> d == [])
  {
    hide Spoken;
    forall h | 0 < h < |got| ensures Spoken(got[h], h + 1) == [] {
      assert Spoken(later[h], h + 1) == [];
    }
    if 0 < k < |got| {
      assert Spoken(later[k], k + 1) == [];
    }
  }

  lemma HandleKeepsLedger(a: Suite, s: Inbox, e: Event)
    requires Ledger(s)
    ensures Ledger(Handle(a, s, e))
  {
    hide Spoken, Opens, PeelPlain, OthersSilent, Total;
    if e.Arrives? && s.alive {
      var n, ps := |s.got|, OpenedBy(a, s, e.wire);
      var t := Handle(a, s, e);
      var d := Delivered(a, s, e.wire);
      assert t.got == Accepted(s.got, ps);
      forall h | 0 <= h < n
        ensures Spoken(t.got[h], h + 1) == Spoken(s.got[h], h + 1) + if h == n - |ps| then d else []
      {
        OneHopSpeaks(a, s, e.wire, h);
      }
      TotalGrows(s.got, t.got, n, n - |ps|, d);
      assert s.user <= t.user <= s.user + d && (t.alive ==> t.user == s.user + d) && (ps == [] ==> d == []);
      if OthersSilent(t.got) {
        StillSilent(s.got, t.got, n - |ps|, d);
      }
    }
  }

  lemma {:induction false} RunKeepsLedger(a: Suite, s: Inbox, es: seq<Event>, t: Inbox)
    requires Shaped(s) && Ledger(s) && Attack(a, s, es, t)
    ensures Ledger(t)
    decreases |es|
  {
    hide Ledger, Allowed, Handle;
    if es != [] {
      HandleKeepsLedger(a, s, es[0]);
      RunKeepsLedger(a, Handle(a, s, es[0]), es[1..], t);
    }
  }

  lemma {:induction false} NothingSpoken(got: seq<seq<seq<byte>>>, m: nat)
    requires m <= |got| && forall h :: 0 <= h < |got| ==> got[h] == []
    ensures Total(got, m) == 0
    decreases m
  {
    if m > 0 {
      NothingSpoken(got, m - 1);
    }
  }

  lemma FreshFacts(n: nat)
    requires n >= 1
    ensures Prefixes(Fresh(n)) && Ledger(Fresh(n))
  {
    NothingSpoken(Fresh(n).got, n);
  }

  /** Whatever the network and the hops do, each session accepts a prefix of what its hop sealed. */
  lemma ClientAcceptsPrefixes(a: Suite, n: nat, es: seq<Event>, t: Inbox)
    requires n >= 1 && Attack(a, Fresh(n), es, t)
    ensures |t.got| == |t.sealed| && forall h :: 0 <= h < |t.got| ==> t.got[h] <= t.sealed[h]
  {
    AcceptedArePrefixesFromFresh(a, n, es, t);
  }

  /** While the circuit is up, the user has exactly the exit's bytes if and only if no other hop's data was accepted. */
  lemma UserHasExitBytesIff(a: Suite, n: nat, es: seq<Event>, t: Inbox)
    requires n >= 1 && Attack(a, Fresh(n), es, t) && t.alive
    ensures Shaped(t) && (t.user == Spoken(t.got[0], 1) <==> OthersSilent(t.got))
  {
    hide Spoken, Attack;
    FreshFacts(n);
    RunKeepsLedger(a, Fresh(n), es, t);
    TotalOfSilence(t.got, |t.got|);
  }

  /** If no hop but the exit ever seals data, then whatever the network does the user gets a prefix of the exit's. */
  lemma UserGetsPrefixOfExitBytes(a: Suite, n: nat, es: seq<Event>, t: Inbox)
    requires n >= 1 && Attack(a, Fresh(n), es, t)
    requires forall h :: 0 < h < |t.sealed| ==> Spoken(t.sealed[h], h + 1) == []
    ensures Shaped(t) && t.user <= Spoken(t.sealed[0], 1)
  {
    hide Spoken, Attack;
    FreshFacts(n);
    AcceptedArePrefixes(a, Fresh(n), es, t);
    RunKeepsLedger(a, Fresh(n), es, t);
    forall h | 0 <= h < |t.got| ensures Spoken(t.got[h], h + 1) <= Spoken(t.sealed[h], h + 1) {
      SpokenPrefix(t.sealed[h], |t.got[h]|, h + 1);
      assert t.sealed[h][..|t.got[h]|] == t.got[h];
    }
    assert OthersSilent(t.got);
  }

  /** So with hops that seal as the code does, and DATA only from the exit, the user gets a prefix of its DATA. */
  lemma UserGetsPrefixOfExitData(a: Suite, n: nat, es: seq<Event>, t: Inbox, xss: seq<seq<Item>>)
    requires n >= 1 && Attack(a, Fresh(n), es, t) && |t.sealed| == |xss|
    requires forall h :: 0 <= h < |xss| ==> AllSound(xss[h], h) && t.sealed[h] == Plains(xss[h], h)
    requires forall h :: 0 < h < |xss| ==> Payload(xss[h]) == []
    ensures xss != [] && t.user <= Payload(xss[0])
  {
    hide Spoken, Attack, Plains, Payload, AllSound;
    AcceptedArePrefixesFromFresh(a, n, es, t);
    forall h | 0 <= h < |xss| ensures Spoken(t.sealed[h], h + 1) == Payload(xss[h]) {
      SpokenIsPayload(xss[h], h);
    }
    UserGetsPrefixOfExitBytes(a, n, es, t);
  }

  lemma AcceptedArePrefixesFromFresh(a: Suite, n: nat, es: seq<Event>, t: Inbox)
    requires n >= 1 && Attack(a, Fresh(n), es, t)
    ensures Prefixes(t)
  {
    FreshFacts(n);
    AcceptedArePrefixes(a, Fresh(n), es, t);
  }

  // ---- A hop other than the exit can speak to the user ----

  /**
   The mirror of what holds of the exit fails: in any state with data flowing, if the guard seals a
   DATA cell of its own, the user gets its bytes, and the exit has sealed nothing more.
   */
  lemma GuardsDataReachesUser(a: Suite, s: Inbox, x: seq<byte>, env: C.Choice)
    requires Shaped(s) && s.alive && s.deepest == 0 && |s.got| >= 2 && env.ok && 1 <= |x| <= CELL_PAYLOAD_LEN
    ensures var n := |s.got|;
            var plain := ToMePlain(Cell(Data, x), n);
            var sealing := Handle(a, s, Seals(n - 1, plain));
            var t := Handle(a, sealing, Arrives(a.seal(UpKey(n), |s.got[n - 1]|, plain), env));
            && t.alive && t.user == s.user + x
            && t.sealed[0] == s.sealed[0] && t.got[0] == s.got[0]
  {
    hide PeelPlain;
    PeelToMe(Cell(Data, x), |s.got|);
  }

  /** The same in the circuit model: the client takes the guard's DATA as if the exit had sent it. */
  lemma GuardsDataReachesCircuitUser(a: Suite, s: T.State, x: seq<byte>, env: C.Choice)
    requires T.Shape(s) && s.client.alive && s.client.phase == T.Running && s.n >= 2 && env.ok
    requires 1 <= |x| <= CELL_PAYLOAD_LEN
    requires s.back[s.n - 1].buf == a.seal(UpKey(s.n), s.client.rx[s.n - 1], ToMePlain(Cell(Data, x), s.n))
    ensures var t := C.ClientFrame(a, s, env);
            t.client.alive && t.userGot == s.userGot + x && t.up == s.up && t.client.rx[0] == s.client.rx[0]
  {
    hide PeelPlain;
    PeelToMe(Cell(Data, x), s.n);
  }

  /** Nothing stops such a frame from being genuine: a lawful cipher opens it at its own counter only. */
  lemma SealedFramesAreAllowed(s: Inbox, plain: seq<byte>, env: C.Choice)
    requires Shaped(s) && |s.got[|s.got| - 1]| == |s.sealed[|s.got| - 1]| < 255
    requires |plain| == PeeledLen(|s.got|)
    requires PeelPlain(plain, |s.got|).Ok? ==> PeelPlain(plain, |s.got|).value.ToMe?
    ensures Lawful(TAGGED_SUITE)
    ensures var n := |s.got|;
            var sealing := Handle(TAGGED_SUITE, s, Seals(n - 1, plain));
            Allowed(TAGGED_SUITE, sealing, Arrives(TAGGED_SUITE.seal(UpKey(n), |s.got[n - 1]|, plain), env))
  {
    TaggedSuiteIsLawful();
    hide PeelPlain;
    var a: Suite := TAGGED_SUITE;
    var n, ctr := |s.got|, |s.got[|s.got| - 1]|;
    var sealing := Handle(a, s, Seals(n - 1, plain));
    var wire := a.seal(UpKey(n), ctr, plain);
    assert Genuine(a, UpKey(n), sealing.sealed[n - 1], wire) by {
      forall m: nat | a.open(UpKey(n), m, wire).Some? ensures m == ctr {
        OpensAtItsOwnCounter(UpKey(n), ctr, plain, m);
      }
    }
  }

  // ---- This is the client of the circuit model ----

  /** What a client in the circuit model has, seen as an inbox with any contents of those lengths. */
  ghost predicate Mirrors(s: T.State, b: Inbox)
    requires T.Shape(s)
  {
    && Shaped(b) && |b.got| == s.n && b.deepest == s.client.deepest && b.alive == s.client.alive && b.user == s.userGot
    && forall h :: 0 <= h < s.n ==> |b.got[h]| == s.client.rx[h]
  }

  /** Reading a frame does the same to both. */
  lemma MirrorsClientFrame(a: Suite, s: T.State, b: Inbox, env: C.Choice)
    requires T.Shape(s) && Mirrors(s, b) && s.client.alive
    requires if s.client.deepest > 0 then s.client.phase == T.Awaiting else s.client.phase == T.Running
    ensures var t, u := C.ClientFrame(a, s, env), Handle(a, b, Arrives(s.back[s.n - 1].buf, env));
            && t.client.alive == u.alive && t.userGot == u.user
            && (u.alive ==> Mirrors(t, u))
  {
    hide Opens, PeelDown, CellIn;
    var wire, n := s.back[s.n - 1].buf, s.n;
    var floor := s.client.deepest + 1;
    SameCounters(a, s, b, wire);
    OpensIsPeelDown(a, UpKey, Counters(b.got), wire, n, floor);
  }

  lemma SameCounters(a: Suite, s: T.State, b: Inbox, wire: seq<byte>)
    requires T.Shape(s) && Mirrors(s, b)
    ensures PeelDown(a, UpKey, T.Counter(s.client.rx), wire, s.n) == PeelDown(a, UpKey, Counters(b.got), wire, s.n)
  {
    SamePeel(a, T.Counter(s.client.rx), Counters(b.got), wire, s.n);
  }

  lemma {:induction false} SamePeel(a: Suite, c: nat -> nat, d: nat -> nat, wire: seq<byte>, outer: nat)
    requires outer >= 1 && forall l :: 1 <= l <= outer ==> c(l) == d(l)
    ensures PeelDown(a, UpKey, c, wire, outer) == PeelDown(a, UpKey, d, wire, outer)
    decreases outer
  {
    hide PeelFrame;
    var r := PeelFrame(a, UpKey(outer), c(outer), wire, outer).0;
    if r.Ok? && r.value.Forward? && outer > 1 {
      SamePeel(a, c, d, r.value.blob, outer - 1);
    }
  }
}
