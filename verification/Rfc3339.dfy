/** Registry timestamps as text: the narrow RFC 3339 parser and the formatter that inverts it. */
module Rfc3339 {
  import opened Arith
  import opened Bytes
  import opened Civil

  const PLUS: byte := 43
  const DASH: byte := 45
  const ZERO: byte := 48
  const COLON: byte := 58
  const TEE: byte := 84
  const ZED: byte := 90

  // ---- Numbers ----

  predicate IsDigit(b: byte) {
    ZERO <= b <= ZERO + 9
  }

  predicate AllDigits(f: seq<byte>) {
    forall i :: 0 <= i < |f| ==> IsDigit(f[i])
  }

  function Value(f: seq<byte>): nat
    requires AllDigits(f)
  {
    if f == [] then 0 else Value(f[..|f| - 1]) * 10 + (f[|f| - 1] - ZERO) as int
  }

  /** `i64::parse` on a short field: an optional sign, then at least one digit. */
  function ParseInt(f: seq<byte>): Option<int> {
    if f == [] then None
    else if f[0] == PLUS || f[0] == DASH then
      if |f| == 1 || !AllDigits(f[1..]) then None
      else Some(if f[0] == DASH then 0 - Value(f[1..]) as int else Value(f[1..]) as int)
    else if AllDigits(f) then Some(Value(f))
    else None
  }

  function Decimal(n: nat): seq<byte> {
    if n < 10 then [ZERO + n] else Decimal(n / 10) + [ZERO + n % 10]
  }

  /** At least `w` digits, zero-padded on the left; wider numbers are not cut. */
  function Pad(n: nat, w: nat): seq<byte> {
    var ds := Decimal(n);
    if |ds| >= w then ds else seq(w - |ds|, _ => ZERO) + ds
  }

  /** Zero padding is sign-aware: the sign counts towards the width. */
  function PadInt(n: int, w: nat): seq<byte>
    requires w >= 1
  {
    if n < 0 then [DASH] + Pad(-n, w - 1) else Pad(n, w)
  }

  // ---- Timestamps ----

  predicate Layout(s: seq<byte>) {
    && |s| == 20
    && s[4] == DASH && s[7] == DASH && s[10] == TEE && s[13] == COLON && s[16] == COLON && s[19] == ZED
  }

  datatype Fields = Fields(date: Date, h: int, mi: int, sec: int)

  function ReadFields(s: seq<byte>): Option<Fields>
    requires |s| == 20
  {
    match (ParseInt(s[0..4]), ParseInt(s[5..7]), ParseInt(s[8..10]),
           ParseInt(s[11..13]), ParseInt(s[14..16]), ParseInt(s[17..19]))
    case (Some(y), Some(mo), Some(d), Some(h), Some(mi), Some(sec)) => Some(Fields(Date(y, mo, d), h, mi, sec))
    case _ => None
  }

  /** The checks the parser makes: hour, minute and second have no lower bound, and second 60 passes. */
  predicate Accepted(f: Fields) {
    && 1 <= f.date.m <= 12 && f.h <= 23 && f.mi <= 59 && f.sec <= 60
    && !(f.date.d < 1 || f.date.d > DaysInMonth(f.date.y, f.date.m))
  }

  function Instant(f: Fields): int {
    DaysFromCivil(f.date.y, f.date.m, f.date.d) * 86400 + f.h * 3600 + f.mi * 60 + f.sec
  }

  function Parse(s: seq<byte>): Option<int> {
    if !Layout(s) then None
    else match ReadFields(s)
      case None => None
      case Some(f) => if Accepted(f) then Some(Instant(f)) else None
  }

  function FieldsAt(unix: int): Fields {
    var secs := unix % 86400;
    Fields(CivilFromDays(unix / 86400), secs / 3600, (secs % 3600) / 60, secs % 60)
  }

  function Join(y: seq<byte>, mo: seq<byte>, d: seq<byte>, h: seq<byte>, mi: seq<byte>, sec: seq<byte>): seq<byte> {
    y + [DASH] + mo + [DASH] + d + [TEE] + h + [COLON] + mi + [COLON] + sec + [ZED]
  }

  function Show(f: Fields): seq<byte>
    requires 0 <= f.date.m && 0 <= f.date.d && 0 <= f.h && 0 <= f.mi && 0 <= f.sec
  {
    Join(PadInt(f.date.y, 4), Pad(f.date.m, 2), Pad(f.date.d, 2), Pad(f.h, 2), Pad(f.mi, 2), Pad(f.sec, 2))
  }

  predicate InClock(f: Fields) {
    Exists(f.date) && 0 <= f.h <= 23 && 0 <= f.mi <= 59 && 0 <= f.sec <= 59
  }

  lemma FieldsInClock(unix: int)
    ensures InClock(FieldsAt(unix)) && Instant(FieldsAt(unix)) == unix
  {
    hide CivilFromDays, DayNumber, DaysFromCivil, Exists;
    CivilIsRealDate(unix / 86400);
    DayNumberIs(CivilFromDays(unix / 86400));
  }

  lemma DayNumberIs(t: Date)
    ensures DayNumber(t) == DaysFromCivil(t.y, t.m, t.d)
  {
  }

  function Format(unix: int): seq<byte> {
    FieldsInClock(unix);
    Show(FieldsAt(unix))
  }

  // ---- Digits ----

  function Pow10(w: nat): nat {
    if w == 0 then 1 else 10 * Pow10(w - 1)
  }

  lemma {:induction false} DecimalFacts(n: nat)
    ensures AllDigits(Decimal(n)) && Value(Decimal(n)) == n && |Decimal(n)| >= 1
  {
    if n >= 10 {
      DecimalFacts(n / 10);
      assert Decimal(n)[..|Decimal(n)| - 1] == Decimal(n / 10);
    } else {
      assert Decimal(n)[..0] == [];
    }
  }

  lemma {:induction false} DecimalLength(n: nat, w: nat)
    requires w >= 1
    ensures |Decimal(n)| <= w <==> n < Pow10(w)
  {
    DecimalFacts(n);
    if n >= 10 && w > 1 {
      DecimalLength(n / 10, w - 1);
    } else if n < 10 {
      Pow10AtLeast(w);
    } else {
      DecimalFacts(n / 10);
      assert Pow10(1) == 10 * Pow10(0);
    }
  }

  lemma {:induction false} Pow10AtLeast(w: nat)
    requires w >= 1
    ensures Pow10(w) >= 10
  {
    if w > 1 {
      Pow10AtLeast(w - 1);
    } else {
      assert Pow10(1) == 10 * Pow10(0);
    }
  }

  lemma {:induction false} LeadingZeros(k: nat, f: seq<byte>)
    requires AllDigits(f)
    ensures var z := seq(k, _ => ZERO) + f; AllDigits(z) && Value(z) == Value(f)
    decreases |f|, k
  {
    var z: seq<byte> := seq(k, _ => ZERO) + f;
    if f != [] {
      LeadingZeros(k, f[..|f| - 1]);
      assert z[..|z| - 1] == seq(k, _ => ZERO) + f[..|f| - 1];
    } else if k > 0 {
      LeadingZeros(k - 1, []);
      assert z[..|z| - 1] == seq(k - 1, _ => ZERO) + [];
    }
  }

  /** Padded numbers read back, and keep the width exactly when they fit it. */
  lemma PadFacts(n: nat, w: nat)
    requires w >= 1
    ensures AllDigits(Pad(n, w)) && Value(Pad(n, w)) == n && |Pad(n, w)| >= w
    ensures |Pad(n, w)| == w <==> n < Pow10(w)
  {
    DecimalFacts(n);
    DecimalLength(n, w);
    if |Decimal(n)| < w {
      LeadingZeros(w - |Decimal(n)|, Decimal(n));
    }
  }

  /** Digit strings of one length are determined by their value. */
  lemma {:induction false} SameValueSameDigits(f: seq<byte>, g: seq<byte>)
    requires AllDigits(f) && AllDigits(g) && |f| == |g| && Value(f) == Value(g)
    ensures f == g
  {
    if f != [] {
      var x, y := (f[|f| - 1] - ZERO) as int, (g[|g| - 1] - ZERO) as int;
      assert Value(f[..|f| - 1]) * 10 + x == Value(g[..|g| - 1]) * 10 + y;
      SameValueSameDigits(f[..|f| - 1], g[..|g| - 1]);
      assert f == f[..|f| - 1] + [f[|f| - 1]];
      assert g == g[..|g| - 1] + [g[|g| - 1]];
    }
  }

  lemma {:induction false} ValueBound(f: seq<byte>)
    requires AllDigits(f)
    ensures Value(f) < Pow10(|f|)
  {
    if f != [] {
      ValueBound(f[..|f| - 1]);
    }
  }

  /** A field of digits is what its value pads to. */
  lemma PadOfDigits(f: seq<byte>)
    requires AllDigits(f) && f != []
    ensures Pad(Value(f), |f|) == f
  {
    ValueBound(f);
    PadFacts(Value(f), |f|);
    SameValueSameDigits(f, Pad(Value(f), |f|));
  }

  lemma SmallPowers()
    ensures Pow10(1) == 10 && Pow10(2) == 100 && Pow10(3) == 1000 && Pow10(4) == 10000
  {
    assert Pow10(1) == 10 * Pow10(0);
    assert Pow10(2) == 10 * Pow10(1);
    assert Pow10(3) == 10 * Pow10(2);
    assert Pow10(4) == 10 * Pow10(3);
  }

  /** What the four-character year field can be when the formatter writes it. */
  predicate YearCanonical(f: seq<byte>) {
    || AllDigits(f)
    || (f != [] && f[0] == DASH && AllDigits(f[1..]) && Value(f[1..]) > 0)
  }

  lemma YearField(y: int)
    ensures |PadInt(y, 4)| >= 4
    ensures |PadInt(y, 4)| == 4 <==> -999 <= y <= 9999
    ensures YearCanonical(PadInt(y, 4)) && ParseInt(PadInt(y, 4)) == Some(y)
  {
    SmallPowers();
    if y < 0 {
      PadFacts(-y, 3);
      assert PadInt(y, 4)[1..] == Pad(-y, 3);
    } else {
      PadFacts(y, 4);
    }
  }

  lemma YearFieldBack(f: seq<byte>)
    requires |f| == 4 && YearCanonical(f)
    ensures ParseInt(f).Some? && PadInt(ParseInt(f).value, 4) == f
  {
    if AllDigits(f) {
      PadOfDigits(f);
    } else {
      PadOfDigits(f[1..]);
      assert f == [f[0]] + f[1..];
    }
  }

  lemma TwoDigits(n: nat)
    requires n < 100
    ensures |Pad(n, 2)| == 2 && AllDigits(Pad(n, 2)) && Value(Pad(n, 2)) == n && ParseInt(Pad(n, 2)) == Some(n)
  {
    SmallPowers();
    PadFacts(n, 2);
  }

  // ---- Round trips ----

  lemma JoinSlices(y: seq<byte>, mo: seq<byte>, d: seq<byte>, h: seq<byte>, mi: seq<byte>, sec: seq<byte>)
    requires |y| == 4 && |mo| == |d| == |h| == |mi| == |sec| == 2
    ensures var s := Join(y, mo, d, h, mi, sec);
            && Layout(s) && s[0..4] == y && s[5..7] == mo && s[8..10] == d
            && s[11..13] == h && s[14..16] == mi && s[17..19] == sec
  {
  }

  lemma SlicesJoin(s: seq<byte>)
    requires Layout(s)
    ensures s == Join(s[0..4], s[5..7], s[8..10], s[11..13], s[14..16], s[17..19])
  {
  }

  /** The timestamps the formatter writes: digits only, except a minus sign on a negative year. */
  predicate Canonical(s: seq<byte>) {
    && Layout(s) && YearCanonical(s[0..4])
    && AllDigits(s[5..7]) && AllDigits(s[8..10]) && AllDigits(s[11..13]) && AllDigits(s[14..16]) && AllDigits(s[17..19])
    && Value(s[17..19]) <= 59
  }

  /** Showing fields in clock range: the right length exactly for four-character years, and readable. */
  lemma ShowFacts(f: Fields)
    requires InClock(f)
    ensures |Show(f)| == 20 <==> -999 <= f.date.y <= 9999
    ensures |Show(f)| == 20 ==> Canonical(Show(f)) && ReadFields(Show(f)) == Some(f)
  {
    hide Pad, Decimal, Value, ParseInt, DaysInMonth;
    assert f.date.d <= 31 by { MonthsAreShort(f.date); }
    YearField(f.date.y);
    TwoDigits(f.date.m);
    TwoDigits(f.date.d);
    TwoDigits(f.h);
    TwoDigits(f.mi);
    TwoDigits(f.sec);
    if |PadInt(f.date.y, 4)| == 4 {
      JoinSlices(PadInt(f.date.y, 4), Pad(f.date.m, 2), Pad(f.date.d, 2), Pad(f.h, 2), Pad(f.mi, 2), Pad(f.sec, 2));
    }
  }

  lemma MonthsAreShort(t: Date)
    ensures DaysInMonth(t.y, t.m) <= 31
  {
  }

  /** Formatting then parsing gives the instant back exactly for the years that fit the layout. */
  lemma ParseInvertsFormat(unix: int)
    ensures Parse(Format(unix)) == Some(unix) <==> -999 <= FieldsAt(unix).date.y <= 9999
    ensures FieldsAt(unix).date.y < -999 || FieldsAt(unix).date.y > 9999 ==> Parse(Format(unix)) == None
  {
    hide Show, FieldsAt, Instant;
    FieldsInClock(unix);
    ShowFacts(FieldsAt(unix));
  }

  lemma ClockOfInstant(f: Fields)
    requires InClock(f)
    ensures FieldsAt(Instant(f)) == f
  {
    hide Exists, CivilFromDays, DaysFromCivil, DayNumber;
    var days := DaysFromCivil(f.date.y, f.date.m, f.date.d);
    var secs := f.h * 3600 + f.mi * 60 + f.sec;
    DivModUnique(Instant(f), days, secs, 86400);
    DivModUnique(secs, f.h, f.mi * 60 + f.sec, 3600);
    DivModUnique(f.mi * 60 + f.sec, f.mi, f.sec, 60);
    DivModUnique(secs, f.h * 60 + f.mi, f.sec, 60);
    DayNumberIs(f.date);
    CivilInvertsDayNumber(f.date);
  }

  lemma CanonicalFields(s: seq<byte>)
    requires Canonical(s)
    ensures ReadFields(s).Some?
    ensures var f := ReadFields(s).value;
            && 0 <= f.date.m && 0 <= f.date.d && 0 <= f.h && 0 <= f.mi && 0 <= f.sec <= 59 && Show(f) == s
  {
    YearFieldBack(s[0..4]);
    PadOfDigits(s[5..7]);
    PadOfDigits(s[8..10]);
    PadOfDigits(s[11..13]);
    PadOfDigits(s[14..16]);
    PadOfDigits(s[17..19]);
    SlicesJoin(s);
  }

  /** Parsing then formatting gives the text back exactly when the text is canonical. */
  lemma FormatInvertsParse(s: seq<byte>)
    requires Parse(s).Some?
    ensures Format(Parse(s).value) == s <==> Canonical(s)
  {
    hide Show, Instant, FieldsAt, DaysInMonth;
    var u := Parse(s).value;
    FieldsInClock(u);
    ShowFacts(FieldsAt(u));
    if Canonical(s) {
      CanonicalFields(s);
      ClockOfInstant(ReadFields(s).value);
    }
  }

  // ---- Order ----

  // Texts the parser takes that no instant is formatted as.

  function AtClock(h: seq<byte>, sec: seq<byte>): (s: seq<byte>) {
    Join([49, 57, 55, 48], [48, 49], [48, 49], h, [48, 48], sec)
  }

  lemma EpochFields()
    ensures ParseInt([49, 57, 55, 48]) == Some(1970) && ParseInt([48, 49]) == Some(1) && ParseInt([48, 48]) == Some(0)
  {
    var y, one, zero := [49, 57, 55, 48], [48, 49], [48, 48];
    assert y[..3][..2] == y[..2] && y[..2][..1] == y[..1] && y[..1][..0] == [];
    assert Value(y[..1]) == 1 && Value(y[..2]) == 19 && Value(y[..3]) == 197;
    assert one[..1] == [48] && zero[..1] == [48] && [48][..0] == [];
  }

  lemma EpochParses(h: seq<byte>, sec: seq<byte>)
    requires |h| == |sec| == 2 && ParseInt(h).Some? && ParseInt(sec).Some?
    requires ParseInt(h).value <= 23 && ParseInt(sec).value <= 60
    ensures Layout(AtClock(h, sec)) && AtClock(h, sec)[11..13] == h && AtClock(h, sec)[17..19] == sec
    ensures Parse(AtClock(h, sec)) == Some(ParseInt(h).value * 3600 + ParseInt(sec).value)
  {
    hide ParseInt, Join, DaysFromCivil, DaysInMonth;
    JoinSlices([49, 57, 55, 48], [48, 49], [48, 49], h, [48, 48], sec);
    EpochFields();
    EpochExists();
    assert DaysFromCivil(1970, 1, 1) == 0 by { DayNumberIs(EPOCH); }
  }

  /** "1970-01-01T00:00:60Z" parses, and so do a second of "+0" and an hour of "-1"; none is formatted so. */
  lemma OddSpellingsParse()
    ensures Parse(AtClock([48, 48], [54, 48])) == Some(60) && Format(60) != AtClock([48, 48], [54, 48])
    ensures Parse(AtClock([48, 48], [PLUS, 48])) == Some(0) && Format(0) != AtClock([48, 48], [PLUS, 48])
    ensures Parse(AtClock([DASH, 49], [48, 48])) == Some(-3600) && Format(-3600) != AtClock([DASH, 49], [48, 48])
  {
    hide AtClock, Parse, Format;
    var zero, sixty, plus, minus := [48, 48], [54, 48], [PLUS, 48], [DASH, 49];
    assert ParseInt(zero) == Some(0) && Value(sixty) == 60 by {
      assert zero[..1] == [48] && [48][..0] == [] && sixty[..1] == [54] && [54][..0] == [];
    }
    assert ParseInt(plus) == Some(0) && ParseInt(minus) == Some(-1) by {
      assert plus[1..] == [48] && minus[1..] == [49] && [48][..0] == [] && [49][..0] == [];
    }
    EpochParses(zero, sixty);
    EpochParses(zero, plus);
    EpochParses(minus, zero);
    assert !IsDigit(plus[0]) && !IsDigit(minus[0]);
    FormatInvertsParse(AtClock(zero, sixty));
    FormatInvertsParse(AtClock(zero, plus));
    FormatInvertsParse(AtClock(minus, zero));
  }

  /** Dictionary order on byte strings. */
  predicate LexLess(s: seq<byte>, t: seq<byte>) {
    t != [] && (s == [] || s[0] < t[0] || (s[0] == t[0] && LexLess(s[1..], t[1..])))
  }

  lemma {:induction false} LexAppend(a: seq<byte>, b: seq<byte>, c: seq<byte>, d: seq<byte>)
    requires |a| == |c|
    ensures LexLess(a + b, c + d) <==> LexLess(a, c) || (a == c && LexLess(b, d))
  {
    if a == [] {
      assert a + b == b && c + d == d;
    } else {
      assert (a + b)[1..] == a[1..] + b && (c + d)[1..] == c[1..] + d;
      LexAppend(a[1..], b, c[1..], d);
      assert a == [a[0]] + a[1..] && c == [c[0]] + c[1..];
    }
  }

  lemma LexIrreflexive(s: seq<byte>)
    ensures !LexLess(s, s)
  {
  }

  /** Among digit strings of one length, dictionary order is numeric order. */
  lemma {:induction false} LexIsNumeric(f: seq<byte>, g: seq<byte>)
    requires AllDigits(f) && AllDigits(g) && |f| == |g|
    ensures LexLess(f, g) <==> Value(f) < Value(g)
    ensures f == g <==> Value(f) == Value(g)
  {
    if f != [] {
      var f0, g0, x, y := f[..|f| - 1], g[..|g| - 1], f[|f| - 1], g[|g| - 1];
      LexIsNumeric(f0, g0);
      assert f == f0 + [x] && g == g0 + [y];
      LexAppend(f0, [x], g0, [y]);
      assert LexLess([x], [y]) <==> x < y;
    }
  }

  /** A timestamp of digits only, with a second that exists on every clock. */
  predicate DigitsOnly(s: seq<byte>) {
    Canonical(s) && AllDigits(s[0..4])
  }

  predicate FieldsLess(f: Fields, g: Fields) {
    || Before(f.date, g.date)
    || (f.date == g.date && (f.h < g.h || (f.h == g.h && (f.mi < g.mi || (f.mi == g.mi && f.sec < g.sec)))))
  }

  lemma SeparatorSkips(a: seq<byte>, c: seq<byte>, sep: byte, b: seq<byte>, d: seq<byte>)
    requires |a| == |c|
    ensures LexLess(a + ([sep] + b), c + ([sep] + d)) <==> LexLess(a, c) || (a == c && LexLess(b, d))
  {
    LexAppend(a, [sep] + b, c, [sep] + d);
    LexAppend([sep], b, [sep], d);
    LexIrreflexive([sep]);
  }

  lemma JoinNested(s: seq<byte>)
    requires Layout(s)
    ensures var clock := s[11..13] + ([COLON] + (s[14..16] + ([COLON] + (s[17..19] + ([ZED] + [])))));
            s == s[0..4] + ([DASH] + (s[5..7] + ([DASH] + (s[8..10] + ([TEE] + clock)))))
  {
  }

  lemma LexIsFieldwise(s: seq<byte>, t: seq<byte>)
    requires Layout(s) && Layout(t)
    ensures LexLess(s, t) <==>
              || LexLess(s[0..4], t[0..4])
              || (s[0..4] == t[0..4] && (LexLess(s[5..7], t[5..7])
              || (s[5..7] == t[5..7] && (LexLess(s[8..10], t[8..10])
              || (s[8..10] == t[8..10] && (LexLess(s[11..13], t[11..13])
              || (s[11..13] == t[11..13] && (LexLess(s[14..16], t[14..16])
              || (s[14..16] == t[14..16] && LexLess(s[17..19], t[17..19]))))))))))
  {
    JoinNested(s);
    JoinNested(t);
    hide LexLess;
    var e: seq<byte> := [];
    var s5, t5 := s[17..19] + ([ZED] + e), t[17..19] + ([ZED] + e);
    SeparatorSkips(s[17..19], t[17..19], ZED, e, e);
    LexIrreflexive(e);
    var s4, t4 := s[14..16] + ([COLON] + s5), t[14..16] + ([COLON] + t5);
    SeparatorSkips(s[14..16], t[14..16], COLON, s5, t5);
    var s3, t3 := s[11..13] + ([COLON] + s4), t[11..13] + ([COLON] + t4);
    SeparatorSkips(s[11..13], t[11..13], COLON, s4, t4);
    var s2, t2 := s[8..10] + ([TEE] + s3), t[8..10] + ([TEE] + t3);
    SeparatorSkips(s[8..10], t[8..10], TEE, s3, t3);
    var s1, t1 := s[5..7] + ([DASH] + s2), t[5..7] + ([DASH] + t2);
    SeparatorSkips(s[5..7], t[5..7], DASH, s2, t2);
    SeparatorSkips(s[0..4], t[0..4], DASH, s1, t1);
  }

  lemma FieldsOrder(s: seq<byte>, t: seq<byte>)
    requires DigitsOnly(s) && DigitsOnly(t) && ReadFields(s).Some? && ReadFields(t).Some?
    ensures LexLess(s, t) <==> FieldsLess(ReadFields(s).value, ReadFields(t).value)
  {
    LexIsFieldwise(s, t);
    LexIsNumeric(s[0..4], t[0..4]);
    LexIsNumeric(s[5..7], t[5..7]);
    LexIsNumeric(s[8..10], t[8..10]);
    LexIsNumeric(s[11..13], t[11..13]);
    LexIsNumeric(s[14..16], t[14..16]);
    LexIsNumeric(s[17..19], t[17..19]);
    hide LexLess, Value;
  }

  lemma InstantIsMonotone(f: Fields, g: Fields)
    requires InClock(f) && InClock(g)
    ensures FieldsLess(f, g) <==> Instant(f) < Instant(g)
  {
    hide Exists, DaysFromCivil, DayNumber;
    DayNumberIsMonotone(f.date, g.date);
    DayNumberIsMonotone(g.date, f.date);
    DayNumberIs(f.date);
    DayNumberIs(g.date);
  }

  /** Parsing keeps the dictionary order of digit-only timestamps, strictly and both ways. */
  lemma ParseKeepsOrder(s: seq<byte>, t: seq<byte>)
    requires DigitsOnly(s) && DigitsOnly(t) && Parse(s).Some? && Parse(t).Some?
    ensures LexLess(s, t) <==> Parse(s).value < Parse(t).value
  {
    hide LexLess, Instant, FieldsLess, Show, DaysInMonth;
    CanonicalFields(s);
    CanonicalFields(t);
    FieldsOrder(s, t);
    InstantIsMonotone(ReadFields(s).value, ReadFields(t).value);
  }
}
