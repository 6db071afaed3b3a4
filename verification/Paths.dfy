/** Path selection: count the valid triples, then walk to a chosen one. */
module Paths {
  import opened Bytes
  import opened Cells
  import opened Registry
  import Tokens

  const MAX_RELAYS: nat := 256
  const STATIC_KEY_LEN: nat := 32

  datatype NoPathReason =
    | RegistryUnusable
    | RegistryTooLarge
    | InvalidRegistryEntry
    | InsufficientRelays
    | DiversityUnsatisfiable

  datatype SelectError = BadRegistry(error: RegistryError) | NoPath(reason: NoPathReason)

  datatype Candidate = Candidate(entry: RelayEntry, ip: Ip)

  datatype SelectedPath = SelectedPath(guard: RelayEntry, middle: RelayEntry, exit: RelayEntry, operatorSpan: nat)

  // ---- Well-formed entries ----

  predicate AllHex(s: seq<byte>) {
    forall i :: 0 <= i < |s| ==> Tokens.HexNibble(s[i]).Some?
  }

  predicate WellFormed(e: RelayEntry) {
    && e.id != "" && e.operatorId != "" && e.hostId != "" && e.tlsName != "" && e.port != 0
    && |e.staticPubkey| == STATIC_KEY_LEN * 2 && AllHex(e.staticPubkey)
    && (e.role == "guard" || e.role == "middle" || e.role == "exit")
  }

  /** An entry's address, canonical, if its literal parses. */
  function EntryIp(e: RelayEntry): Option<Ip> {
    if e.ip.None? then None else Some(CanonicalIp(e.ip.value))
  }

  predicate Eligible(e: RelayEntry) {
    WellFormed(e) && EntryIp(e).Some?
  }

  predicate AllEligible(relays: seq<RelayEntry>) {
    forall i :: 0 <= i < |relays| ==> Eligible(relays[i])
  }

  function AsCandidate(e: RelayEntry): Candidate
    requires Eligible(e)
  {
    Candidate(e, EntryIp(e).value)
  }

  function CandidatesOf(relays: seq<RelayEntry>): seq<Candidate>
    requires AllEligible(relays)
  {
    seq(|relays|, i requires 0 <= i < |relays| => AsCandidate(relays[i]))
  }

  /** One malformed entry refuses the whole document. */
  method Candidates(relays: seq<RelayEntry>) returns (r: Result<seq<Candidate>, SelectError>)
    ensures r.Ok? <==> AllEligible(relays)
    ensures r.Ok? ==> r.value == CandidatesOf(relays)
    ensures r.Err? ==> r.error == NoPath(InvalidRegistryEntry)
  {
    var out: seq<Candidate> := [];
    for i := 0 to |relays|
      invariant |out| == i
      invariant forall j :: 0 <= j < i ==> Eligible(relays[j]) && out[j] == AsCandidate(relays[j])
    {
      var e := relays[i];
      if !WellFormed(e) {
        return Err(NoPath(InvalidRegistryEntry));
      }
      var ip := EntryIp(e);
      if ip.None? {
        return Err(NoPath(InvalidRegistryEntry));
      }
      out := out + [Candidate(e, ip.value)];
    }
    return Ok(out);
  }

  function ByRole(all: seq<Candidate>, role: string): (r: seq<Candidate>)
    ensures forall c :: c in r <==> c in all && c.entry.role == role
  {
    if all == [] then []
    else ByRole(all[..|all| - 1], role) + if all[|all| - 1].entry.role == role then [all[|all| - 1]] else []
  }

  /** Where the candidates of a role are, all of them, from the front. */
  function Positions(all: seq<Candidate>, role: string): (pos: seq<nat>)
    ensures forall i :: i in pos <==> 0 <= i < |all| && all[i].entry.role == role
    ensures forall k, l :: 0 <= k < l < |pos| ==> pos[k] < pos[l]
  {
    if all == [] then []
    else
      var init := Positions(all[..|all| - 1], role);
      assert forall k :: 0 <= k < |init| ==> init[k] in init;
      init + if all[|all| - 1].entry.role == role then [|all| - 1] else []
  }

  /** Order and repeats are kept. */
  lemma {:induction false} ByRoleKeepsOrder(all: seq<Candidate>, role: string)
    ensures |ByRole(all, role)| == |Positions(all, role)|
    ensures forall k :: 0 <= k < |Positions(all, role)| ==>
              Positions(all, role)[k] in Positions(all, role) && ByRole(all, role)[k] == all[Positions(all, role)[k]]
  {
    if all != [] {
      var init := all[..|all| - 1];
      ByRoleKeepsOrder(init, role);
      var pos := Positions(init, role);
      forall k | 0 <= k < |pos| ensures all[pos[k]] == ByRole(init, role)[k] {
        assert pos[k] in pos;
      }
    }
  }

  lemma {:induction false} RolesPartition(all: seq<Candidate>)
    ensures |ByRole(all, "guard")| + |ByRole(all, "middle")| + |ByRole(all, "exit")| <= |all|
  {
    if all != [] {
      RolesPartition(all[..|all| - 1]);
    }
  }

  // ---- The rules ----

  datatype PathRules = PathRules(requireOperatorDiversity: bool)

  predicate SamePrefix(a: Ip, b: Ip) {
    match (a, b)
    case (V4(x), V4(y)) => x[..2] == y[..2]
    case (V6(x), V6(y)) => x[..4] == y[..4]
    case _ => false
  }

  predicate TripleIsValid(g: Candidate, m: Candidate, e: Candidate, rules: PathRules) {
    && !(g.entry.id == m.entry.id || g.entry.id == e.entry.id || m.entry.id == e.entry.id)
    && !(rules.requireOperatorDiversity
         && (|| g.entry.operatorId == m.entry.operatorId
             || g.entry.operatorId == e.entry.operatorId
             || m.entry.operatorId == e.entry.operatorId))
    && !(g.entry.hostId == m.entry.hostId || g.entry.hostId == e.entry.hostId || m.entry.hostId == e.entry.hostId)
    && !(SamePrefix(g.ip, m.ip) || SamePrefix(g.ip, e.ip) || SamePrefix(m.ip, e.ip))
  }

  /** The network an address belongs to for the prefix rule. */
  datatype Network = Net4(prefix: seq<byte>) | Net6(prefix: seq<byte>)

  function NetworkOf(ip: Ip): Network {
    match ip
    case V4(o) => Net4(o[..2])
    case V6(o) => Net6(o[..4])
  }

  predicate AllDifferent<T(==)>(x: T, y: T, z: T) {
    |{x, y, z}| == 3
  }

  lemma AllDifferentMeans<T>(x: T, y: T, z: T)
    ensures AllDifferent(x, y, z) <==> x != y && x != z && y != z
  {
    if x == y {
      assert {x, y, z} == {x, z};
    } else if x == z || y == z {
      assert {x, y, z} == {x, y};
    }
  }

  /** A path is three different relays on three hosts in three networks, and of three operators if asked. */
  lemma RulesMean(g: Candidate, m: Candidate, e: Candidate, rules: PathRules)
    ensures TripleIsValid(g, m, e, rules) <==>
              && AllDifferent(g.entry.id, m.entry.id, e.entry.id)
              && AllDifferent(g.entry.hostId, m.entry.hostId, e.entry.hostId)
              && AllDifferent(NetworkOf(g.ip), NetworkOf(m.ip), NetworkOf(e.ip))
              && (rules.requireOperatorDiversity ==>
                    AllDifferent(g.entry.operatorId, m.entry.operatorId, e.entry.operatorId))
  {
    hide AllDifferent;
    AllDifferentMeans(g.entry.id, m.entry.id, e.entry.id);
    AllDifferentMeans(g.entry.hostId, m.entry.hostId, e.entry.hostId);
    AllDifferentMeans(NetworkOf(g.ip), NetworkOf(m.ip), NetworkOf(e.ip));
    AllDifferentMeans(g.entry.operatorId, m.entry.operatorId, e.entry.operatorId);
  }

  // ---- The valid triples in order ----

  type Triple = (nat, nat, nat)

  datatype Pool = Pool(gs: seq<Candidate>, ms: seq<Candidate>, es: seq<Candidate>, rules: PathRules)

  predicate IsValidTriple(p: Pool, t: Triple) {
    t.0 < |p.gs| && t.1 < |p.ms| && t.2 < |p.es| && TripleIsValid(p.gs[t.0], p.ms[t.1], p.es[t.2], p.rules)
  }

  predicate LexLess(s: Triple, t: Triple) {
    s.0 < t.0 || (s.0 == t.0 && (s.1 < t.1 || (s.1 == t.1 && s.2 < t.2)))
  }

  /** The valid triples before position (i, j, k) of the three nested loops. */
  function ValidBefore(p: Pool, i: nat, j: nat, k: nat): seq<Triple>
    requires i <= |p.gs| && j <= |p.ms| && k <= |p.es|
    decreases i, j, k
  {
    if k > 0 then ValidBefore(p, i, j, k - 1) + if IsValidTriple(p, (i, j, k - 1)) then [(i, j, k - 1)] else []
    else if j > 0 then ValidBefore(p, i, j - 1, |p.es|)
    else if i > 0 then ValidBefore(p, i - 1, |p.ms|, 0)
    else []
  }

  function AllValid(p: Pool): seq<Triple> {
    ValidBefore(p, |p.gs|, 0, 0)
  }

  /** A position is reached before, or is, another. */
  predicate NotAfter(i: nat, j: nat, k: nat, i': nat, j': nat, k': nat) {
    (i, j, k) == (i', j', k') || LexLess((i, j, k), (i', j', k'))
  }

  lemma {:induction false} ValidBeforePrefix(p: Pool, i: nat, j: nat, k: nat, i': nat, j': nat, k': nat)
    requires i <= i' <= |p.gs| && j <= |p.ms| && k <= |p.es| && j' <= |p.ms| && k' <= |p.es|
    requires NotAfter(i, j, k, i', j', k')
    ensures ValidBefore(p, i, j, k) <= ValidBefore(p, i', j', k')
    decreases i', j', k'
  {
    if (i, j, k) != (i', j', k') {
      if k' > 0 {
        if !(i == i' && j == j') || k <= k' - 1 {
          ValidBeforePrefix(p, i, j, k, i', j', k' - 1);
        }
      } else if j' > 0 {
        ValidBeforePrefix(p, i, j, k, i', j' - 1, |p.es|);
      } else {
        if j == |p.ms| && i == i' - 1 && k > 0 {
          PastTheEnd(p, i, k);
        }
        ValidBeforePrefix(p, i, j, if j == |p.ms| && i == i' - 1 then 0 else k, i' - 1, |p.ms|, 0);
      }
    }
  }

  /** Past the last middle there is nothing to find. */
  lemma {:induction false} PastTheEnd(p: Pool, i: nat, k: nat)
    requires i <= |p.gs| && k <= |p.es|
    ensures ValidBefore(p, i, |p.ms|, k) == ValidBefore(p, i, |p.ms|, 0)
  {
    if k > 0 {
      PastTheEnd(p, i, k - 1);
    }
  }

  /** Exactly the valid triples before the position, each strictly after the one listed before it. */
  lemma {:induction false} ValidBeforeFacts(p: Pool, i: nat, j: nat, k: nat)
    requires i <= |p.gs| && j <= |p.ms| && k <= |p.es|
    ensures forall t :: t in ValidBefore(p, i, j, k) <==> IsValidTriple(p, t) && LexLess(t, (i, j, k))
    ensures forall a, b :: 0 <= a < b < |ValidBefore(p, i, j, k)| ==>
                             LexLess(ValidBefore(p, i, j, k)[a], ValidBefore(p, i, j, k)[b])
    decreases i, j, k
  {
    hide TripleIsValid;
    var l := ValidBefore(p, i, j, k);
    if k > 0 {
      var init := ValidBefore(p, i, j, k - 1);
      ValidBeforeFacts(p, i, j, k - 1);
      forall a, b | 0 <= a < b < |l| ensures LexLess(l[a], l[b]) {
        assert l[a] in init;
      }
    } else if j > 0 {
      ValidBeforeFacts(p, i, j - 1, |p.es|);
    } else if i > 0 {
      ValidBeforeFacts(p, i - 1, |p.ms|, 0);
    }
  }

  /**
   Choosing an index below the total is choosing a valid path: every index gives a valid triple,
   every valid triple has exactly one index, and larger indices are later triples.
   */
  lemma IndexIsBijection(p: Pool)
    ensures forall w :: 0 <= w < |AllValid(p)| ==> IsValidTriple(p, AllValid(p)[w])
    ensures forall t :: IsValidTriple(p, t) ==> exists w :: 0 <= w < |AllValid(p)| && AllValid(p)[w] == t
    ensures forall v, w :: 0 <= v < w < |AllValid(p)| ==> LexLess(AllValid(p)[v], AllValid(p)[w])
  {
    hide ValidBefore;
    ValidBeforeFacts(p, |p.gs|, 0, 0);
    forall t | IsValidTriple(p, t) ensures exists w :: 0 <= w < |AllValid(p)| && AllValid(p)[w] == t {
      assert t in AllValid(p);
    }
    forall w | 0 <= w < |AllValid(p)| ensures IsValidTriple(p, AllValid(p)[w]) {
      assert AllValid(p)[w] in AllValid(p);
    }
  }

  // ---- Counting and walking ----

  method CountValid(p: Pool) returns (n: nat)
    ensures n == |AllValid(p)|
  {
    n := 0;
    for i := 0 to |p.gs|
      invariant n == |ValidBefore(p, i, 0, 0)|
    {
      for j := 0 to |p.ms|
        invariant n == |ValidBefore(p, i, j, 0)|
      {
        for k := 0 to |p.es|
          invariant n == |ValidBefore(p, i, j, k)|
        {
          if TripleIsValid(p.gs[i], p.ms[j], p.es[k], p.rules) {
            n := n + 1;
          }
        }
      }
    }
  }

  /** Walk to the wanted triple. The end of the loops is never reached. */
  method Walk(p: Pool, wanted: nat) returns (t: Triple)
    requires wanted < |AllValid(p)|
    ensures t == AllValid(p)[wanted]
  {
    hide TripleIsValid;
    var seen := 0;
    for i := 0 to |p.gs|
      invariant seen == |ValidBefore(p, i, 0, 0)| <= wanted
    {
      for j := 0 to |p.ms|
        invariant seen == |ValidBefore(p, i, j, 0)| <= wanted
      {
        for k := 0 to |p.es|
          invariant seen == |ValidBefore(p, i, j, k)| <= wanted
        {
          if !TripleIsValid(p.gs[i], p.ms[j], p.es[k], p.rules) {
            continue;
          }
          if seen == wanted {
            ValidBeforePrefix(p, i, j, k + 1, |p.gs|, 0, 0);
            return (i, j, k);
          }
          seen := seen + 1;
        }
      }
    }
    assert false;
  }

  // ---- How many there can be ----

  lemma {:induction false} CountBelowPosition(p: Pool, i: nat, j: nat, k: nat)
    requires i <= |p.gs| && j <= |p.ms| && k <= |p.es|
    ensures |ValidBefore(p, i, j, k)| <= (i * |p.ms| + j) * |p.es| + k
    decreases i, j, k
  {
    hide IsValidTriple;
    var m, e := |p.ms|, |p.es|;
    if k > 0 {
      CountBelowPosition(p, i, j, k - 1);
    } else if j > 0 {
      CountBelowPosition(p, i, j - 1, e);
      assert (i * m + (j - 1)) * e + e == (i * m + j) * e;
    } else if i > 0 {
      CountBelowPosition(p, i - 1, m, 0);
      assert (i - 1) * m + m == i * m;
    }
  }

  lemma ProductOfTwo(m: nat, e: nat)
    ensures 4 * (m * e) <= (m + e) * (m + e)
    ensures (m + e) % 2 == 1 ==> 4 * (m * e) <= (m + e) * (m + e) - 1
  {
    var d := m - e;
    assert (m + e) * (m + e) - 4 * (m * e) == d * d by {
      assert (m + e) * (m + e) == m * m + 2 * (m * e) + e * e;
      assert d * d == m * m - 2 * (m * e) + e * e;
    }
    assert d * d >= 0;
    if (m + e) % 2 == 1 {
      assert d != 0;
      assert d * d >= 1;
    }
  }

  /** 256 relays in three roles give at most 85 * 85 * 86 triples. */
  lemma ProductOfThree(g: nat, m: nat, e: nat)
    requires g + m + e <= MAX_RELAYS
    ensures g * (m * e) <= 621350
  {
    var s := m + e;
    ProductOfTwo(m, e);
    CubicBound(s);
    Scaled(g, 256 - s, m * e, s * s - s % 2);
  }

  lemma Scaled(g: nat, a: nat, x: nat, y: int)
    requires g <= a && 4 * x <= y
    ensures 4 * (g * x) <= a * y
  {
    MulMonotone(x, g, a);
    MulMonotone(a, 4 * x, y);
    assert a * (4 * x) == 4 * (x * a);
    assert g * x == x * g;
  }

  lemma MulMonotone(a: int, x: int, y: int)
    requires a >= 0 && x <= y
    ensures a * x <= a * y
  {
  }

  lemma CubicFactors(s: int)
    ensures (256 - s) * (s * s) == 2470950 + 85 * s - ((s - 170) * (s - 171)) * (s + 85)
  {
    var q := s * s;
    assert (s - 170) * (s - 171) == q - 341 * s + 29070;
    assert q * (s + 85) == q * s + 85 * q;
    assert (q - 341 * s + 29070) * (s + 85) == q * (s + 85) - 341 * (s * (s + 85)) + 29070 * (s + 85);
    assert s * (s + 85) == q + 85 * s;
    assert (256 - s) * q == 256 * q - q * s;
  }

  lemma CubicBound(s: int)
    requires 0 <= s <= 256
    ensures (256 - s) * (s * s - s % 2) <= 4 * 621350
  {
    var f := (s - 170) * (s - 171);
    CubicFactors(s);
    MulMonotone(256 - s, s * s - s % 2, s * s);
    if s <= 170 {
      assert f == (170 - s) * (171 - s);
      MulMonotone(s + 85, 0, f);
    } else if s > 171 {
      MulMonotone(s + 85, 1, s - 171);
      MulMonotone(s - 170, 85, (s - 171) * (s + 85));
      assert f * (s + 85) == (s - 170) * ((s - 171) * (s + 85));
    }
  }

  /** The total a selection can count is bounded in closed form by the cap on relays. */
  lemma TotalIsBounded(all: seq<Candidate>, rules: PathRules)
    requires |all| <= MAX_RELAYS
    ensures |AllValid(Pool(ByRole(all, "guard"), ByRole(all, "middle"), ByRole(all, "exit"), rules))| <= 621350
  {
    hide ByRole, ValidBefore;
    var p := Pool(ByRole(all, "guard"), ByRole(all, "middle"), ByRole(all, "exit"), rules);
    RolesPartition(all);
    CountBelowPosition(p, |p.gs|, 0, 0);
    assert (|p.gs| * |p.ms|) * |p.es| == |p.gs| * (|p.ms| * |p.es|);
    ProductOfThree(|p.gs|, |p.ms|, |p.es|);
  }

  // ---- Operators spanned ----

  predicate StrLess(a: string, b: string) {
    b != "" && (a == "" || a[0] < b[0] || (a[0] == b[0] && StrLess(a[1..], b[1..])))
  }

  lemma {:induction false} StrTrichotomy(a: string, b: string)
    ensures StrLess(a, b) || StrLess(b, a) || a == b
    ensures !(StrLess(a, b) && StrLess(b, a))
    ensures a == b ==> !StrLess(a, b)
  {
    if a != "" && b != "" {
      StrTrichotomy(a[1..], b[1..]);
      assert a == [a[0]] + a[1..] && b == [b[0]] + b[1..];
    }
  }

  /** Sort the three ids, then count the places where neighbours differ. */
  method OperatorSpan(a: string, b: string, c: string) returns (n: nat)
    ensures n == |{a, b, c}|
  {
    var ids := new string[3][a, b, c];
    if StrLess(ids[1], ids[0]) {
      ids[0], ids[1] := ids[1], ids[0];
    }
    if StrLess(ids[2], ids[1]) {
      ids[1], ids[2] := ids[2], ids[1];
    }
    if StrLess(ids[1], ids[0]) {
      ids[0], ids[1] := ids[1], ids[0];
    }
    StrTrichotomy(a, b);
    StrTrichotomy(a, c);
    StrTrichotomy(b, c);
    hide StrLess;
    n := 1;
    for i := 0 to 2
      invariant n == 1 + (if i >= 1 && ids[0] != ids[1] then 1 else 0) + (if i >= 2 && ids[1] != ids[2] then 1 else 0)
    {
      if ids[i] != ids[i + 1] {
        n := n + 1;
      }
    }
    assert {a, b, c} == {ids[0], ids[1], ids[2]};
    assert ids[0] == ids[2] ==> ids[0] == ids[1];
    DistinctCount(ids[0], ids[1], ids[2]);
  }

  lemma DistinctCount(x: string, y: string, z: string)
    requires x == z ==> x == y
    ensures |{x, y, z}| == 1 + (if x != y then 1 else 0) + (if y != z then 1 else 0)
  {
    if x == y == z {
      assert {x, y, z} == {x};
    } else if x == y {
      assert {x, y, z} == {x, z};
    } else if y == z {
      assert {x, y, z} == {x, y};
    }
  }

  // ---- Selection ----

  function PoolOf(relays: seq<RelayEntry>, rules: PathRules): Pool
    requires AllEligible(relays)
  {
    var all := CandidatesOf(relays);
    Pool(ByRole(all, "guard"), ByRole(all, "middle"), ByRole(all, "exit"), rules)
  }

  function PathAt(p: Pool, t: Triple): SelectedPath
    requires IsValidTriple(p, t)
  {
    var g, m, e := p.gs[t.0].entry, p.ms[t.1].entry, p.es[t.2].entry;
    SelectedPath(g, m, e, |{g.operatorId, m.operatorId, e.operatorId}|)
  }

  /** Why there is no path: the first condition that holds, in this order, or none of them. */
  function Refusal(doc: Document, rules: PathRules, now: int): Option<SelectError> {
    if UsableAt(doc, now).Err? then Some(BadRegistry(UsableAt(doc, now).error))
    else if !UsableAt(doc, now).value then Some(NoPath(RegistryUnusable))
    else if |doc.relays| > MAX_RELAYS then Some(NoPath(RegistryTooLarge))
    else if !AllEligible(doc.relays) then Some(NoPath(InvalidRegistryEntry))
    else
      var p := PoolOf(doc.relays, rules);
      if p.gs == [] || p.ms == [] || p.es == [] then Some(NoPath(InsufficientRelays))
      else if AllValid(p) == [] then Some(NoPath(DiversityUnsatisfiable))
      else None
  }

  /** A generator that stays in range; the bijection makes an even draw an even choice of path. */
  type Draw = f: nat -> nat | forall n :: n > 0 ==> f(n) < n witness (n: nat) => 0

  /** The path at the drawn index of the list of valid triples. */
  function Selection(doc: Document, rules: PathRules, now: int, rng: Draw): Result<SelectedPath, SelectError> {
    match Refusal(doc, rules, now)
    case Some(e) => Err(e)
    case None =>
      var p := PoolOf(doc.relays, rules);
      IndexIsBijection(p);
      Ok(PathAt(p, AllValid(p)[rng(|AllValid(p)|)]))
  }

  /** The second pass: count, draw, walk and report the operators spanned. */
  method Choose(p: Pool, rng: Draw) returns (r: Option<SelectedPath>)
    ensures r.None? <==> AllValid(p) == []
    ensures AllValid(p) != [] ==>
              var t := AllValid(p)[rng(|AllValid(p)|)];
              IsValidTriple(p, t) && r == Some(PathAt(p, t))
  {
    hide ValidBefore, TripleIsValid;
    var total := CountValid(p);
    if total == 0 {
      return None;
    }
    var wanted := rng(total);
    IndexIsBijection(p);
    var t := Walk(p, wanted);
    var g, m, e := p.gs[t.0].entry, p.ms[t.1].entry, p.es[t.2].entry;
    var span := OperatorSpan(g.operatorId, m.operatorId, e.operatorId);
    return Some(SelectedPath(g, m, e, span));
  }

  method SelectWith(doc: Document, rules: PathRules, now: int, rng: Draw) returns (r: Result<SelectedPath, SelectError>)
    ensures r == Selection(doc, rules, now, rng)
  {
    hide AllValid, ByRole, AllEligible, CandidatesOf, IsValidTriple, UsableAt;
    var usable := UsableAt(doc, now);
    if usable.Err? {
      return Err(BadRegistry(usable.error));
    }
    if !usable.value {
      return Err(NoPath(RegistryUnusable));
    }
    if |doc.relays| > MAX_RELAYS {
      return Err(NoPath(RegistryTooLarge));
    }
    var all := Candidates(doc.relays);
    if all.Err? {
      return Err(all.error);
    }
    var p := Pool(ByRole(all.value, "guard"), ByRole(all.value, "middle"), ByRole(all.value, "exit"), rules);
    if p.gs == [] || p.ms == [] || p.es == [] {
      return Err(NoPath(InsufficientRelays));
    }
    var path := Choose(p, rng);
    return if path.None? then Err(NoPath(DiversityUnsatisfiable)) else Ok(path.value);
  }

  // ---- When there is a path, and which ----

  /** Three relays of the registry in the three roles that the rules allow together. */
  predicate AllowedTriple(relays: seq<RelayEntry>, rules: PathRules, i: nat, j: nat, k: nat)
    requires AllEligible(relays)
  {
    && i < |relays| && j < |relays| && k < |relays|
    && relays[i].role == "guard" && relays[j].role == "middle" && relays[k].role == "exit"
    && TripleIsValid(AsCandidate(relays[i]), AsCandidate(relays[j]), AsCandidate(relays[k]), rules)
  }

  predicate HasRole(relays: seq<RelayEntry>, role: string) {
    exists i :: 0 <= i < |relays| && relays[i].role == role
  }

  lemma RoleListed(relays: seq<RelayEntry>, role: string)
    requires AllEligible(relays)
    ensures ByRole(CandidatesOf(relays), role) == [] <==> !HasRole(relays, role)
  {
    var all, r := CandidatesOf(relays), ByRole(CandidatesOf(relays), role);
    if i :| 0 <= i < |relays| && relays[i].role == role {
      assert all[i] in all && all[i] in r;
    }
    if r != [] {
      assert r[0] in r;
      var i :| 0 <= i < |all| && all[i] == r[0];
      assert relays[i].role == role;
    }
  }

  lemma ListedAt(relays: seq<RelayEntry>, role: string, a: nat) returns (i: nat)
    requires AllEligible(relays) && a < |ByRole(CandidatesOf(relays), role)|
    ensures i < |relays| && relays[i].role == role && ByRole(CandidatesOf(relays), role)[a] == AsCandidate(relays[i])
  {
    var all, r := CandidatesOf(relays), ByRole(CandidatesOf(relays), role);
    assert r[a] in r;
    i :| 0 <= i < |all| && all[i] == r[a];
  }

  lemma PositionOf(relays: seq<RelayEntry>, role: string, i: nat) returns (a: nat)
    requires AllEligible(relays) && i < |relays| && relays[i].role == role
    ensures a < |ByRole(CandidatesOf(relays), role)| && ByRole(CandidatesOf(relays), role)[a] == AsCandidate(relays[i])
  {
    var all, r := CandidatesOf(relays), ByRole(CandidatesOf(relays), role);
    assert all[i] in all && all[i] in r;
    a :| 0 <= a < |r| && r[a] == all[i];
  }

  lemma SomeTripleIff(relays: seq<RelayEntry>, rules: PathRules)
    requires AllEligible(relays)
    ensures AllValid(PoolOf(relays, rules)) != [] <==> exists i, j, k :: AllowedTriple(relays, rules, i, j, k)
  {
    hide ByRole, TripleIsValid, AllEligible, CandidatesOf, AsCandidate, AllValid;
    var p := PoolOf(relays, rules);
    IndexIsBijection(p);
    if AllValid(p) != [] {
      var t := AllValid(p)[0];
      var i := ListedAt(relays, "guard", t.0);
      var j := ListedAt(relays, "middle", t.1);
      var k := ListedAt(relays, "exit", t.2);
      assert AllowedTriple(relays, rules, i, j, k);
    }
    if i, j, k :| AllowedTriple(relays, rules, i, j, k) {
      var x := PositionOf(relays, "guard", i);
      var y := PositionOf(relays, "middle", j);
      var z := PositionOf(relays, "exit", k);
      assert IsValidTriple(p, (x, y, z));
    }
  }

  /** There is a path exactly if the document is usable, small and well formed and some triple is allowed. */
  lemma PathExistsIff(doc: Document, rules: PathRules, now: int, rng: Draw)
    ensures Selection(doc, rules, now, rng).Ok? <==>
              && UsableAt(doc, now) == Ok(true) && |doc.relays| <= 256 && AllEligible(doc.relays)
              && exists i, j, k :: AllowedTriple(doc.relays, rules, i, j, k)
    ensures Selection(doc, rules, now, rng) == Err(NoPath(InsufficientRelays)) <==>
              && UsableAt(doc, now) == Ok(true) && |doc.relays| <= 256 && AllEligible(doc.relays)
              && !(HasRole(doc.relays, "guard") && HasRole(doc.relays, "middle") && HasRole(doc.relays, "exit"))
    ensures Selection(doc, rules, now, rng) == Err(NoPath(DiversityUnsatisfiable)) <==>
              && UsableAt(doc, now) == Ok(true) && |doc.relays| <= 256 && AllEligible(doc.relays)
              && HasRole(doc.relays, "guard") && HasRole(doc.relays, "middle") && HasRole(doc.relays, "exit")
              && !exists i, j, k :: AllowedTriple(doc.relays, rules, i, j, k)
  {
    hide ByRole, AllEligible, CandidatesOf, AllValid, AllowedTriple, HasRole, UsableAt;
    if AllEligible(doc.relays) {
      SomeTripleIff(doc.relays, rules);
      RoleListed(doc.relays, "guard");
      RoleListed(doc.relays, "middle");
      RoleListed(doc.relays, "exit");
      TripleNeedsRoles(doc.relays, rules);
    }
  }

  lemma TripleNeedsRoles(relays: seq<RelayEntry>, rules: PathRules)
    requires AllEligible(relays)
    ensures (exists i, j, k :: AllowedTriple(relays, rules, i, j, k)) ==>
              HasRole(relays, "guard") && HasRole(relays, "middle") && HasRole(relays, "exit")
  {
    hide TripleIsValid, AllEligible, AsCandidate;
  }

  /** What is selected is an allowed triple of the document, and its operators are counted right. */
  lemma SelectedIsAllowed(doc: Document, rules: PathRules, now: int, rng: Draw) returns (i: nat, j: nat, k: nat)
    requires Selection(doc, rules, now, rng).Ok?
    ensures AllEligible(doc.relays) && AllowedTriple(doc.relays, rules, i, j, k)
    ensures var g, m, e := doc.relays[i], doc.relays[j], doc.relays[k];
            Selection(doc, rules, now, rng).value == SelectedPath(g, m, e, |{g.operatorId, m.operatorId, e.operatorId}|)
  {
    hide ByRole, TripleIsValid, CandidatesOf, AsCandidate, AllValid, UsableAt, Eligible;
    var p := PoolOf(doc.relays, rules);
    IndexIsBijection(p);
    var t := AllValid(p)[rng(|AllValid(p)|)];
    i := ListedAt(doc.relays, "guard", t.0);
    j := ListedAt(doc.relays, "middle", t.1);
    k := ListedAt(doc.relays, "exit", t.2);
    CandidateEntries(doc.relays, i, j, k);
  }

  lemma CandidateEntries(relays: seq<RelayEntry>, i: nat, j: nat, k: nat)
    requires AllEligible(relays) && i < |relays| && j < |relays| && k < |relays|
    ensures AsCandidate(relays[i]).entry == relays[i] && AsCandidate(relays[j]).entry == relays[j]
    ensures AsCandidate(relays[k]).entry == relays[k]
  {
  }
}
