/** Bytes, results and the few sequence facts the rest of the project shares. */
module Bytes {

  type byte = b: int | 0 <= b < 256

  datatype Option<+T> = None | Some(value: T)

  datatype Result<+T, +E> = Ok(value: T) | Err(error: E)

  function Zeros(n: nat): (s: seq<byte>)
    ensures |s| == n
  {
    seq(n, _ => 0)
  }

  predicate AllZero(s: seq<byte>) {
    forall i :: 0 <= i < |s| ==> s[i] == 0
  }

  lemma ZerosUnique(s: seq<byte>)
    requires AllZero(s)
    ensures s == Zeros(|s|)
  {
  }

  /** Two bytes, most significant first. */
  function Be16(n: nat): (s: seq<byte>)
    requires n < 0x1_0000
    ensures |s| == 2 && (s[0] as int) * 256 + (s[1] as int) == n
  {
    [n / 256, n % 256]
  }

  function FromBe16(hi: byte, lo: byte): (n: nat)
    ensures n < 0x1_0000
  {
    hi * 256 + lo
  }

  /** Concatenation of a list of frames: what a byte link carries. */
  function Flatten(frames: seq<seq<byte>>): seq<byte> {
    if frames == [] then [] else frames[0] + Flatten(frames[1..])
  }

  lemma {:induction false} FlattenAppend(a: seq<seq<byte>>, b: seq<seq<byte>>)
    ensures Flatten(a + b) == Flatten(a) + Flatten(b)
  {
    if a == [] {
      assert a + b == b;
    } else {
      assert (a + b)[1..] == a[1..] + b;
      FlattenAppend(a[1..], b);
    }
  }

  lemma FlattenSnoc(a: seq<seq<byte>>, f: seq<byte>)
    ensures Flatten(a + [f]) == Flatten(a) + f
  {
    FlattenAppend(a, [f]);
    assert Flatten([f]) == f + Flatten([]);
  }

  /** All frames have the one length their link carries. */
  ghost predicate Uniform(frames: seq<seq<byte>>, len: nat) {
    forall i :: 0 <= i < |frames| ==> |frames[i]| == len
  }

  lemma {:induction false} FlattenLength(frames: seq<seq<byte>>, len: nat)
    requires Uniform(frames, len)
    ensures |Flatten(frames)| == |frames| * len
  {
    if frames != [] {
      FlattenLength(frames[1..], len);
      assert |frames| * len == len + (|frames| - 1) * len;
    }
  }

  /** Split into pieces of at most `size` bytes, the last one possibly short: Rust's `chunks`. */
  function Chunks(s: seq<byte>, size: nat): (cs: seq<seq<byte>>)
    requires size > 0
    ensures Flatten(cs) == s
    ensures forall i :: 0 <= i < |cs| ==> 0 < |cs[i]| <= size
    ensures forall i :: 0 <= i < |cs| - 1 ==> |cs[i]| == size
    decreases |s|
  {
    if s == [] then []
    else if |s| <= size then
      assert Flatten([s]) == s + Flatten([]);
      [s]
    else [s[..size]] + Chunks(s[size..], size)
  }
}
