/** The relay's token check: the signature first, then a time-bounded replay window. */
module Replay {
  import opened Bytes
  import opened Blind
  import opened NumberTheory
  import opened Tokens

  type Digest = s: seq<byte> | |s| == 32 witness Zeros(32)

  datatype Presentation = Presentation(mRaw: seq<byte>, token: seq<byte>, at: int)

  /** This token's digest is not also the digest of some other token accepted before it. */
  ghost predicate CollisionFree(sha: seq<byte> -> Digest, log: seq<Presentation>, token: seq<byte>) {
    forall i :: 0 <= i < |log| && sha(log[i].token) == sha(token) ==> log[i].token == token
  }

  /** Accepted less than `ttl` before `now`. */
  predicate Recent(t: int, now: int, ttl: int) {
    now - t < ttl
  }

  /** Some accepted presentation of this token is still recent. */
  predicate SeenRecently(log: seq<Presentation>, token: seq<byte>, now: int, ttl: int) {
    exists i :: 0 <= i < |log| && log[i].token == token && Recent(log[i].at, now, ttl)
  }

  /** Every acceptance of this token is at least `ttl` old. */
  predicate AllExpired(log: seq<Presentation>, token: seq<byte>, now: int, ttl: int) {
    forall i :: 0 <= i < |log| && log[i].token == token ==> now - log[i].at >= ttl
  }

  lemma SeenUnlessExpired(log: seq<Presentation>, token: seq<byte>, now: int, ttl: int)
    ensures SeenRecently(log, token, now, ttl) <==> !AllExpired(log, token, now, ttl)
  {
    if i :| 0 <= i < |log| && log[i].token == token && now - log[i].at < ttl {
      assert Recent(log[i].at, now, ttl);
    }
  }

  /**
   The map never forgets a recent acceptance and never invents one, and acceptances of one token
   are at least `ttl` apart.
   */
  ghost predicate Agrees(ttl: int, sha: seq<byte> -> Digest, seen: map<Digest, int>, log: seq<Presentation>,
                         clock: int)
  {
    && (forall i :: 0 <= i < |log| ==> log[i].at <= clock)
    && (forall i :: 0 <= i < |log| && Recent(log[i].at, clock, ttl) ==>
          sha(log[i].token) in seen && seen[sha(log[i].token)] == log[i].at)
    && (forall d :: d in seen ==> exists i :: 0 <= i < |log| && sha(log[i].token) == d && log[i].at == seen[d])
    && (forall i, j :: 0 <= i < j < |log| && log[i].token == log[j].token ==> log[j].at - log[i].at >= ttl)
  }

  function Evicted(seen: map<Digest, int>, now: int, ttl: int): map<Digest, int> {
    map d | d in seen && Recent(seen[d], now, ttl) :: seen[d]
  }

  /** Evicting loses nothing that matters, and what is left decides replays exactly as the full history does. */
  lemma EvictionAgrees(ttl: int, sha: seq<byte> -> Digest, seen: map<Digest, int>, log: seq<Presentation>, clock: int,
                       token: seq<byte>, now: int)
    requires Agrees(ttl, sha, seen, log, clock) && clock <= now && CollisionFree(sha, log, token)
    ensures Agrees(ttl, sha, Evicted(seen, now, ttl), log, now)
    ensures sha(token) in Evicted(seen, now, ttl) <==> SeenRecently(log, token, now, ttl)
  {
    var kept := Evicted(seen, now, ttl);
    forall i | 0 <= i < |log| && Recent(log[i].at, now, ttl)
      ensures sha(log[i].token) in kept && kept[sha(log[i].token)] == log[i].at
    {
      assert Recent(log[i].at, clock, ttl);
    }
    if sha(token) in kept {
      var i :| 0 <= i < |log| && sha(log[i].token) == sha(token) && log[i].at == seen[sha(token)];
      assert log[i].token == token;
    }
  }

  lemma InsertionAgrees(ttl: int, sha: seq<byte> -> Digest, seen: map<Digest, int>, log: seq<Presentation>,
                        p: Presentation)
    requires Agrees(ttl, sha, seen, log, p.at)
    requires CollisionFree(sha, log, p.token) && !SeenRecently(log, p.token, p.at, ttl)
    ensures Agrees(ttl, sha, seen[sha(p.token) := p.at], log + [p], p.at)
  {
    var seen', log' := seen[sha(p.token) := p.at], log + [p];
    forall d | d in seen' ensures exists i :: 0 <= i < |log'| && sha(log'[i].token) == d && log'[i].at == seen'[d] {
      if d == sha(p.token) {
        assert log'[|log|] == p;
      } else {
        var i :| 0 <= i < |log| && sha(log[i].token) == d && log[i].at == seen[d];
        assert log'[i] == log[i];
      }
    }
    forall i, j | 0 <= i < j < |log'| && log'[i].token == log'[j].token ensures log'[j].at - log'[i].at >= ttl {
      assert log'[i] == log[i];
      if j == |log| {
        assert !Recent(log[i].at, p.at, ttl);
      } else {
        assert log'[j] == log[j];
      }
    }
    forall i | 0 <= i < |log'| && Recent(log'[i].at, p.at, ttl)
      ensures sha(log'[i].token) in seen' && seen'[sha(log'[i].token)] == log'[i].at
    {
      if i < |log| {
        assert log'[i] == log[i] && log[i].token != p.token;
      }
    }
  }

  class ReplayWindow {
    const ttl: int
    const sha: seq<byte> -> Digest
    /** The authority's public key, pinned for the life of the process. */
    const e: nat
    const n: nat
    var seen: map<Digest, int>
    /** Every accepted presentation, oldest first, and the latest time the window was consulted. */
    ghost var log: seq<Presentation>
    ghost var clock: int

    ghost predicate Valid()
      reads this
    {
      && n > 0
      && Agrees(ttl, sha, seen, log, clock)
      && forall i :: 0 <= i < |log| ==> SignatureStage(sha(log[i].mRaw), log[i].token, e, n).Ok?
    }

    constructor (ttl: int, sha: seq<byte> -> Digest, e: nat, n: nat)
      requires ttl >= 0 && n > 0
      ensures Valid() && this.ttl == ttl && this.sha == sha && this.e == e && this.n == n && log == [] && seen == map[]
    {
      this.ttl, this.sha, this.e, this.n, this.seen, this.log, this.clock := ttl, sha, e, n, map[], [], 0;
    }

    /** Accepts exactly the correctly signed tokens with no acceptance in the last `ttl`. */
    method Verify(mRaw: seq<byte>, token: seq<byte>, now: int) returns (r: Result<(), TokenError>)
      requires Valid() && clock <= now && CollisionFree(sha, log, token)
      modifies this
      ensures Valid() && clock <= now
      ensures SignatureStage(sha(mRaw), token, e, n).Err? ==>
                r == SignatureStage(sha(mRaw), token, e, n) && seen == old(seen)
      ensures SignatureStage(sha(mRaw), token, e, n).Ok? ==>
                r == (if SeenRecently(old(log), token, now, ttl) then Err(Replayed) else Ok(()))
      ensures r.Ok? <==> SignatureStage(sha(mRaw), token, e, n).Ok? && AllExpired(old(log), token, now, ttl)
      ensures log == old(log) + if r.Ok? then [Presentation(mRaw, token, now)] else []
    {
      SeenUnlessExpired(log, token, now, ttl);
      hide Agrees, CollisionFree, SeenRecently, AllExpired, ModulusSize, FromBytes, ModPow;
      var modulusBytes := ModulusSize(n);
      if |token| < modulusBytes {
        return Err(TokenTooShort);
      }
      var mInt := FromBytes(sha(mRaw));
      var tokenInt := FromBytes(token);
      if tokenInt >= n {
        return Err(InvalidSignature);
      }
      var check := ModPow(tokenInt, e, n);
      if check != mInt {
        return Err(InvalidSignature);
      }
      var tokenHash := sha(token);
      EvictionAgrees(ttl, sha, seen, log, clock, token, now);
      clock := now;
      seen := map d | d in seen && Recent(seen[d], now, ttl) :: seen[d];
      if tokenHash in seen {
        return Err(Replayed);
      }
      InsertionAgrees(ttl, sha, seen, log, Presentation(mRaw, token, now));
      seen := seen[tokenHash := now];
      log := log + [Presentation(mRaw, token, now)];
      return Ok(());
    }
  }

  /**
   Whatever the window has accepted, two acceptances of one message with tokens of one length are
   at least `ttl` apart: the length is fixed by the presentation format.
   */
  lemma OneMessageOncePerWindow(w: ReplayWindow, key: RsaKey, i: nat, j: nat)
    requires w.Valid() && ValidKey(key) && w.e == key.e && w.n == key.N() && i < j < |w.log|
    requires w.log[i].mRaw == w.log[j].mRaw && |w.log[i].token| == |w.log[j].token|
    ensures w.log[j].at - w.log[i].at >= w.ttl
  {
    OneTokenPerMessage(key, w.sha(w.log[i].mRaw), w.log[i].token, w.log[j].token);
  }
}
