/** The login limiter: a sliding window per address, pruned in place, checked before and recorded after. */
module RateLimit {

  /** The attempts strictly after `cutoff`, in order. */
  function After(ts: seq<int>, cutoff: int): (r: seq<int>)
    ensures |r| <= |ts|
  {
    if ts == [] then []
    else After(ts[..|ts| - 1], cutoff) + if ts[|ts| - 1] > cutoff then [ts[|ts| - 1]] else []
  }

  lemma AfterSnoc(ts: seq<int>, t: int, cutoff: int)
    ensures After(ts + [t], cutoff) == After(ts, cutoff) + if t > cutoff then [t] else []
  {
    assert (ts + [t])[..|ts|] == ts;
  }

  /** Pruning twice with rising cutoffs is pruning once with the later one. */
  lemma {:induction false} AfterAfter(ts: seq<int>, c: int, d: int)
    requires c <= d
    ensures After(After(ts, c), d) == After(ts, d)
  {
    if ts != [] {
      var init, t := ts[..|ts| - 1], ts[|ts| - 1];
      AfterAfter(init, c, d);
      if t > c {
        AfterSnoc(After(init, c), t, d);
      } else {
        assert After(init, c) + [] == After(init, c);
      }
    }
  }

  lemma {:induction false} AfterMonotone(ts: seq<int>, c: int, d: int)
    requires c <= d
    ensures |After(ts, d)| <= |After(ts, c)|
  {
    if ts != [] {
      AfterMonotone(ts[..|ts| - 1], c, d);
    }
  }

  /** Filter a slice over its own storage: the write index never overtakes the read index. */
  method PruneInPlace(arr: array<int>, cutoff: int) returns (k: nat)
    modifies arr
    ensures k <= arr.Length && arr[..k] == After(old(arr[..]), cutoff)
  {
    k := 0;
    ghost var was := arr[..];
    for i := 0 to arr.Length
      invariant k <= i && arr[..k] == After(was[..i], cutoff)
      invariant arr[i..] == was[i..]
    {
      var t := arr[i];
      assert t == was[i];
      AfterSnoc(was[..i], t, cutoff);
      assert was[..i + 1] == was[..i] + [t];
      if t > cutoff {
        arr[k] := t;
        k := k + 1;
      }
    }
    assert was[..arr.Length] == was;
  }

  function Get(m: map<string, seq<int>>, ip: string): seq<int> {
    if ip in m then m[ip] else []
  }

  class RateLimiter {
    var attempts: map<string, seq<int>>
    const limit: int
    const window: int
    /** All failures ever recorded, by address; the latest cutoff used; and the last time seen. */
    ghost var history: map<string, seq<int>>
    ghost var cutoffs: map<string, int>
    ghost var clock: int

    /** What is kept for an address is what was recorded after some cutoff already past. */
    ghost predicate Tracks(ip: string)
      reads this
    {
      Get(attempts, ip) == (if ip in cutoffs then After(Get(history, ip), cutoffs[ip]) else Get(history, ip))
    }

    ghost predicate Valid()
      reads this
    {
      && window > 0
      && (forall ip :: Tracks(ip))
      && (forall ip :: ip in cutoffs ==> cutoffs[ip] <= clock - window)
    }

    constructor (limit: int, window: int)
      requires window > 0
      ensures Valid() && this.limit == limit && this.window == window
      ensures history == map[] && attempts == map[]
    {
      this.limit, this.window := limit, window;
      attempts, history, cutoffs, clock := map[], map[], map[], 0;
    }

    /** Pruning what is kept is pruning the whole history. */
    lemma PrunedAgain(ip: string, cutoff: int)
      requires Tracks(ip) && (ip in cutoffs ==> cutoffs[ip] <= cutoff)
      ensures After(Get(attempts, ip), cutoff) == After(Get(history, ip), cutoff)
    {
      if ip in cutoffs {
        AfterAfter(Get(history, ip), cutoffs[ip], cutoff);
      }
    }

    /** Allowed exactly if fewer than `limit` failures were recorded within the last window. */
    method Check(ip: string, now: int) returns (allowed: bool)
      requires Valid() && clock <= now
      modifies this
      ensures Valid() && clock == now && history == old(history)
      ensures allowed <==> |After(Get(history, ip), now - window)| < limit
      ensures attempts == if After(Get(history, ip), now - window) == [] then old(attempts) - {ip}
                          else old(attempts)[ip := After(Get(history, ip), now - window)]
    {
      hide After;
      var cutoff := now - window;
      var kept := Get(attempts, ip);
      var arr := new int[|kept|](i requires 0 <= i < |kept| => kept[i]);
      assert arr[..] == kept;
      var k := PruneInPlace(arr, cutoff);
      var recent := arr[..k];
      assert recent == After(Get(history, ip), cutoff) by {
        PrunedAgain(ip, cutoff);
      }
      ghost var before := attempts;
      if |recent| == 0 {
        attempts := attempts - {ip};
      } else {
        attempts := attempts[ip := recent];
      }
      cutoffs := cutoffs[ip := cutoff];
      clock := now;
      forall other ensures Tracks(other) {
        assert old(Tracks(other));
        if other != ip {
          assert Get(attempts, other) == Get(before, other);
        }
      }
      return |recent| < limit;
    }

    method Record(ip: string, now: int)
      requires Valid() && clock <= now
      modifies this
      ensures Valid() && clock == now
      ensures history == old(history)[ip := Get(old(history), ip) + [now]]
      ensures attempts == old(attempts)[ip := Get(old(attempts), ip) + [now]]
    {
      attempts := attempts[ip := Get(attempts, ip) + [now]];
      history := history[ip := Get(history, ip) + [now]];
      clock := now;
      forall other ensures Tracks(other) {
        assert old(Tracks(other));
        if other == ip && ip in cutoffs {
          AfterSnoc(old(Get(history, ip)), now, cutoffs[ip]);
        }
      }
    }
  }

  // ---- One address, any number of concurrent logins ----

  /** Failures recorded, logins past `check` and not yet done, and the clock. */
  datatype Logins = Logins(log: seq<int>, inFlight: nat, clock: int)

  datatype Event = Checked(now: int) | Recorded(now: int) | Finished(now: int)

  function At(e: Event): int {
    match e
    case Checked(now) => now
    case Recorded(now) => now
    case Finished(now) => now
  }

  /** A login is admitted by `check`; it later records a failure, or finishes without one. */
  function Step(s: Logins, e: Event, limit: int, window: int): Logins {
    match e
    case Checked(now) =>
      if |After(s.log, now - window)| < limit then s.(inFlight := s.inFlight + 1, clock := now) else s.(clock := now)
    case Recorded(now) => if s.inFlight == 0 then s else Logins(s.log + [now], s.inFlight - 1, now)
    case Finished(now) => if s.inFlight == 0 then s else s.(inFlight := s.inFlight - 1, clock := now)
  }

  /** The clock never runs back, only admitted logins go on, and at most `k` are under way at once. */
  predicate Run(s: Logins, es: seq<Event>, limit: int, window: int, k: nat, t: Logins)
    decreases |es|
  {
    if es == [] then s == t
    else
      && s.clock <= At(es[0]) && (es[0].Checked? || s.inFlight > 0)
      && Step(s, es[0], limit, window).inFlight <= k
      && Run(Step(s, es[0], limit, window), es[1..], limit, window, k, t)
  }

  /** Failures recorded in the window `(x, x + window]`. */
  function InWindow(log: seq<int>, x: int, window: int): nat {
    if log == [] then 0
    else InWindow(log[..|log| - 1], x, window) + if x < log[|log| - 1] <= x + window then 1 else 0
  }

  lemma InWindowSnoc(log: seq<int>, t: int, x: int, window: int)
    ensures InWindow(log + [t], x, window) == InWindow(log, x, window) + if x < t <= x + window then 1 else 0
  {
    assert (log + [t])[..|log|] == log;
  }

  lemma {:induction false} InWindowAtMostAfter(log: seq<int>, x: int, window: int)
    ensures InWindow(log, x, window) <= |After(log, x)|
  {
    if log != [] {
      InWindowAtMostAfter(log[..|log| - 1], x, window);
    }
  }

  /** Recent failures plus logins under way never exceed the bound, and so neither does any window. */
  ghost predicate Bounded(s: Logins, limit: int, window: int, k: nat) {
    && |After(s.log, s.clock - window)| + s.inFlight <= limit + k - 1
    && forall x :: InWindow(s.log, x, window) <= limit + k - 1
  }

  lemma StepBounded(s: Logins, e: Event, limit: int, window: int, k: nat)
    requires Bounded(s, limit, window, k) && window > 0 && s.clock <= At(e) && (e.Checked? || s.inFlight > 0)
    requires Step(s, e, limit, window).inFlight <= k
    ensures Bounded(Step(s, e, limit, window), limit, window, k)
  {
    var t := Step(s, e, limit, window);
    AfterMonotone(s.log, s.clock - window, At(e) - window);
    if e.Recorded? {
      AfterSnoc(s.log, e.now, e.now - window);
      forall x ensures InWindow(t.log, x, window) <= limit + k - 1 {
        InWindowSnoc(s.log, e.now, x, window);
        if x < e.now <= x + window {
          InWindowAtMostAfter(t.log, x, window);
          AfterMonotone(t.log, e.now - window, x);
        }
      }
    }
  }

  lemma {:induction false} RunBounded(s: Logins, es: seq<Event>, limit: int, window: int, k: nat, t: Logins)
    requires Bounded(s, limit, window, k) && window > 0 && Run(s, es, limit, window, k, t)
    ensures Bounded(t, limit, window, k)
    decreases |es|
  {
    if es != [] {
      StepBounded(s, es[0], limit, window, k);
      RunBounded(Step(s, es[0], limit, window), es[1..], limit, window, k, t);
    }
  }

  /**
   With at most `k` logins of one address between check and record, no window of the configured
   length ever holds more than limit + k - 1 recorded failures, in any run.
   */
  lemma NoWindowOverflows(start: int, es: seq<Event>, limit: int, window: int, k: nat, t: Logins, x: int)
    requires limit >= 1 && window > 0 && Run(Logins([], 0, start), es, limit, window, k, t)
    ensures InWindow(t.log, x, window) <= limit + k - 1
  {
    RunBounded(Logins([], 0, start), es, limit, window, k, t);
  }

  /** Failures recorded in the closed window `[x, x + window]`. */
  function InClosed(log: seq<int>, x: int, window: int): nat {
    if log == [] then 0
    else InClosed(log[..|log| - 1], x, window) + if x <= log[|log| - 1] <= x + window then 1 else 0
  }

  lemma InClosedSnoc(log: seq<int>, t: int, x: int, window: int)
    ensures InClosed(log + [t], x, window) == InClosed(log, x, window) + if x <= t <= x + window then 1 else 0
  {
    assert (log + [t])[..|log|] == log;
  }

  /** Failures recorded at one instant. */
  function AtInstant(log: seq<int>, x: int): nat {
    if log == [] then 0 else AtInstant(log[..|log| - 1], x) + if log[|log| - 1] == x then 1 else 0
  }

  /** Only failures at the left end point make the difference. */
  lemma {:induction false} ClosedIsWindowAndLeftEnd(log: seq<int>, x: int, window: int)
    requires window > 0
    ensures InClosed(log, x, window) == InWindow(log, x, window) + AtInstant(log, x)
    ensures AtInstant(log, x) <= InWindow(log, x - 1, window)
  {
    if log != [] {
      ClosedIsWindowAndLeftEnd(log[..|log| - 1], x, window);
    }
  }

  /** With both end points counted the bound doubles, and no more. */
  lemma ClosedWindowBound(start: int, es: seq<Event>, limit: int, window: int, k: nat, t: Logins, x: int)
    requires limit >= 1 && window > 0 && Run(Logins([], 0, start), es, limit, window, k, t)
    ensures InClosed(t.log, x, window) <= 2 * (limit + k - 1)
  {
    NoWindowOverflows(start, es, limit, window, k, t, x);
    NoWindowOverflows(start, es, limit, window, k, t, x - 1);
    ClosedIsWindowAndLeftEnd(t.log, x, window);
  }

  /** A run breaks the single bound over a closed window only by failures exactly at its left end point. */
  lemma ClosedOverflowNeedsLeftEnd(start: int, es: seq<Event>, limit: int, window: int, k: nat, t: Logins, x: int)
    requires limit >= 1 && window > 0 && Run(Logins([], 0, start), es, limit, window, k, t)
    ensures InClosed(t.log, x, window) <= limit + k - 1
            <==> AtInstant(t.log, x) <= limit + k - 1 - InWindow(t.log, x, window)
    ensures AtInstant(t.log, x) == 0 ==> InClosed(t.log, x, window) <= limit + k - 1
  {
    NoWindowOverflows(start, es, limit, window, k, t, x);
    ClosedIsWindowAndLeftEnd(t.log, x, window);
  }

  // ---- Both bounds are attained ----

  function Repeat(t: int, n: nat): (r: seq<int>)
    ensures |r| == n
  {
    seq(n, _ => t)
  }

  lemma RepeatAppend(t: int, m: nat, n: nat)
    ensures Repeat(t, m) + Repeat(t, n) == Repeat(t, m + n)
  {
  }

  lemma RepeatSnoc(t: int, n: nat)
    requires n > 0
    ensures Repeat(t, n) == Repeat(t, n - 1) + [t] == [t] + Repeat(t, n - 1)
  {
  }

  lemma {:induction false} AfterRepeat(log: seq<int>, t: int, n: nat, cutoff: int)
    requires cutoff < t && After(log, cutoff) == []
    ensures After(log + Repeat(t, n), cutoff) == Repeat(t, n)
  {
    hide Repeat, After;
    if n == 0 {
      assert log + Repeat(t, 0) == log;
    } else {
      AfterRepeat(log, t, n - 1, cutoff);
      RepeatSnoc(t, n);
      assert log + Repeat(t, n) == log + Repeat(t, n - 1) + [t];
      AfterSnoc(log + Repeat(t, n - 1), t, cutoff);
    }
  }

  lemma {:induction false} RunAppend(s: Logins, es: seq<Event>, m: Logins, fs: seq<Event>, t: Logins,
                                     limit: int, window: int, k: nat)
    requires Run(s, es, limit, window, k, m) && Run(m, fs, limit, window, k, t)
    ensures Run(s, es + fs, limit, window, k, t)
    decreases |es|
  {
    if es == [] {
      assert es + fs == fs;
    } else {
      assert (es + fs)[1..] == es[1..] + fs;
      RunAppend(Step(s, es[0], limit, window), es[1..], m, fs, t, limit, window, k);
    }
  }

  /** Let the clock run on to `now`: one login is admitted and finishes without a failure. */
  lemma Wait(log: seq<int>, clock: int, now: int, limit: int, window: int, k: nat) returns (es: seq<Event>)
    requires clock <= now && k >= 1 && |After(log, now - window)| < limit
    ensures Run(Logins(log, 0, clock), es, limit, window, k, Logins(log, 0, now))
  {
    es := [Checked(now), Finished(now)];
    assert es[1..] == [Finished(now)] && es[1..][1..] == [];
  }

  /** Admit `n` logins at one instant while the window still has room. */
  lemma {:induction false} AdmitMany(log: seq<int>, done: nat, n: nat, now: int, limit: int, window: int, k: nat)
    returns (es: seq<Event>)
    requires |After(log, now - window)| < limit && done + n <= k
    ensures Run(Logins(log, done, now), es, limit, window, k, Logins(log, done + n, now))
    decreases n
  {
    if n == 0 {
      es := [];
    } else {
      var rest := AdmitMany(log, done + 1, n - 1, now, limit, window, k);
      es := [Checked(now)] + rest;
      assert es[1..] == rest;
    }
  }

  lemma {:induction false} FailMany(log: seq<int>, n: nat, now: int, limit: int, window: int, k: nat)
    returns (es: seq<Event>)
    requires n <= k
    ensures Run(Logins(log, n, now), es, limit, window, k, Logins(log + Repeat(now, n), 0, now))
    decreases n
  {
    if n == 0 {
      es := [];
      assert log + Repeat(now, 0) == log;
    } else {
      var rest := FailMany(log + [now], n - 1, now, limit, window, k);
      es := [Recorded(now)] + rest;
      assert es[1..] == rest;
      assert log + [now] + Repeat(now, n - 1) == log + Repeat(now, n);
    }
  }

  /** `n` logins are admitted together and all fail. */
  lemma FailTogether(log: seq<int>, n: nat, now: int, limit: int, window: int, k: nat) returns (es: seq<Event>)
    requires |After(log, now - window)| < limit && n <= k
    ensures Run(Logins(log, 0, now), es, limit, window, k, Logins(log + Repeat(now, n), 0, now))
  {
    hide Run, Repeat, After;
    var admit := AdmitMany(log, 0, n, now, limit, window, k);
    var fail := FailMany(log, n, now, limit, window, k);
    RunAppend(Logins(log, 0, now), admit, Logins(log, n, now), fail, Logins(log + Repeat(now, n), 0, now),
              limit, window, k);
    es := admit + fail;
  }

  lemma {:induction false} FailOneByOne(log: seq<int>, n: nat, now: int, limit: int, window: int, k: nat)
    returns (es: seq<Event>)
    requires n < limit && k >= 1 && window > 0 && After(log, now - window) == []
    ensures Run(Logins(log, 0, now), es, limit, window, k, Logins(log + Repeat(now, n), 0, now))
  {
    hide Run, Repeat, After;
    if n == 0 {
      es := FailMany(log, 0, now, limit, window, k);
    } else {
      var first := FailOneByOne(log, n - 1, now, limit, window, k);
      var mid := log + Repeat(now, n - 1);
      AfterRepeat(log, now, n - 1, now - window);
      var next := FailTogether(mid, 1, now, limit, window, k);
      RepeatAppend(now, n - 1, 1);
      assert mid + Repeat(now, 1) == log + Repeat(now, n);
      RunAppend(Logins(log, 0, now), first, Logins(mid, 0, now), next, Logins(log + Repeat(now, n), 0, now),
                limit, window, k);
      es := first + next;
    }
  }

  /** Once earlier failures have left the window, limit + k - 1 more can be recorded at one instant. */
  lemma FillInstant(log: seq<int>, clock: int, now: int, limit: nat, window: int, k: nat) returns (es: seq<Event>)
    requires limit >= 1 && k >= 1 && window > 0 && clock <= now && After(log, now - window) == []
    ensures Run(Logins(log, 0, clock), es, limit, window, k, Logins(log + Repeat(now, limit + k - 1), 0, now))
  {
    hide Run, Repeat, After;
    var wait := Wait(log, clock, now, limit, window, k);
    var first := FailOneByOne(log, limit - 1, now, limit, window, k);
    var mid := log + Repeat(now, limit - 1);
    AfterRepeat(log, now, limit - 1, now - window);
    var last := FailTogether(mid, k, now, limit, window, k);
    RepeatAppend(now, limit - 1, k);
    assert mid + Repeat(now, k) == log + Repeat(now, limit + k - 1);
    var end := Logins(log + Repeat(now, limit + k - 1), 0, now);
    RunAppend(Logins(log, 0, clock), wait, Logins(log, 0, now), first, Logins(mid, 0, now), limit, window, k);
    RunAppend(Logins(log, 0, clock), wait + first, Logins(mid, 0, now), last, end, limit, window, k);
    es := wait + first + last;
  }

  lemma {:induction false} InWindowRepeat(t: int, n: nat, window: int)
    requires window > 0
    ensures InWindow(Repeat(t, n), t - 1, window) == n
  {
    if n > 0 {
      InWindowRepeat(t, n - 1, window);
      RepeatSnoc(t, n);
      InWindowSnoc(Repeat(t, n - 1), t, t - 1, window);
    }
  }

  lemma {:induction false} InClosedRepeat(log: seq<int>, t: int, n: nat, x: int, window: int)
    requires x <= t <= x + window
    ensures InClosed(log + Repeat(t, n), x, window) == InClosed(log, x, window) + n
  {
    hide Repeat, InClosed;
    if n == 0 {
      assert log + Repeat(t, 0) == log;
    } else {
      InClosedRepeat(log, t, n - 1, x, window);
      RepeatSnoc(t, n);
      assert log + Repeat(t, n) == log + Repeat(t, n - 1) + [t];
      InClosedSnoc(log + Repeat(t, n - 1), t, x, window);
    }
  }

  /** Some run with at most `k` logins under way does fill a window with limit + k - 1 failures. */
  lemma BoundIsAttained(limit: nat, window: int, k: nat, now: int) returns (es: seq<Event>, t: Logins)
    requires limit >= 1 && k >= 1 && window > 0
    ensures Run(Logins([], 0, now), es, limit, window, k, t)
    ensures InWindow(t.log, now - 1, window) == limit + k - 1
  {
    hide Run, Repeat, InWindow;
    es := FillInstant([], now, now, limit, window, k);
    t := Logins([] + Repeat(now, limit + k - 1), 0, now);
    assert t.log == Repeat(now, limit + k - 1);
    InWindowRepeat(now, limit + k - 1, window);
  }

  /**
   Counting both end points, the single bound fails at every limit: a failure exactly one window old
   no longer counts against a login, so twice as many fit. One failure at 0 and one at `window`, with
   limit and `k` both one, is the smallest case.
   */
  lemma ClosedWindowBoundIsAttained(limit: nat, window: int, k: nat, now: int) returns (es: seq<Event>, t: Logins)
    requires limit >= 1 && k >= 1 && window > 0
    ensures Run(Logins([], 0, now), es, limit, window, k, t)
    ensures InClosed(t.log, now, window) == 2 * (limit + k - 1) > limit + k - 1
  {
    hide Run, Repeat, InClosed;
    var m := limit + k - 1;
    var first := FillInstant([], now, now, limit, window, k);
    var mid := [] + Repeat(now, m);
    AllExpired(now, m);
    assert mid == Repeat(now, m);
    var second := FillInstant(mid, now, now + window, limit, window, k);
    t := Logins(mid + Repeat(now + window, m), 0, now + window);
    RunAppend(Logins([], 0, now), first, Logins(mid, 0, now), second, t, limit, window, k);
    es := first + second;
    InClosedRepeat([], now, m, now, window);
    InClosedRepeat(mid, now + window, m, now, window);
    assert InClosed([], now, window) == 0 by { NoneInClosed(now, window); }
  }

  lemma NoneInClosed(x: int, window: int)
    ensures InClosed([], x, window) == 0
  {
  }

  lemma {:induction false} AllExpired(t: int, n: nat)
    ensures After(Repeat(t, n), t) == []
  {
    if n > 0 {
      AllExpired(t, n - 1);
      RepeatSnoc(t, n);
      AfterSnoc(Repeat(t, n - 1), t, t);
    }
  }
}
