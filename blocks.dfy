/** Fixed-length sample blocks and bounded FIFO buffers, shared by both
    scripts: zero blocks, padding or truncating a block to the number of
    frames the audio device asks for, and the keep-the-newest behaviour of
    a `collections.deque` created with `maxlen`. */
module Blocks {

  function Min(a: nat, b: nat): nat {
    if a <= b then a else b
  }

  /** A block of `n` silent samples (`[0] * n`, `np.zeros(n)`). */
  function Zeros(n: nat): (z: seq<int>)
    ensures |z| == n
    ensures forall i :: 0 <= i < n ==> z[i] == 0
  {
    seq(n, _ => 0)
  }

  /** Exactly `n` output samples: the samples of `s` while any remain, then
      silence. A longer `s` is cut to its first `n` samples. */
  function PadOrTruncate(s: seq<int>, n: nat): (r: seq<int>)
    ensures |r| == n
    ensures forall i :: 0 <= i < n ==> r[i] == if i < |s| then s[i] else 0
  {
    if |s| >= n then s[..n] else s + Zeros(n - |s|)
  }

  /** A block that already has the requested length passes unchanged. */
  lemma PadOrTruncateExact(s: seq<int>)
    ensures PadOrTruncate(s, |s|) == s
  {
  }

  /** Padding (or truncating) twice is the same as once. */
  lemma PadOrTruncateIdempotent(s: seq<int>, n: nat)
    ensures PadOrTruncate(PadOrTruncate(s, n), n) == PadOrTruncate(s, n)
  {
  }

  /** The newest `cap` elements of `s`, in their original order: what a
      deque with `maxlen=cap` holds after its elements were appended. */
  function Newest<T>(s: seq<T>, cap: nat): (r: seq<T>)
    ensures |r| == Min(|s|, cap)
    ensures r == s[|s| - |r|..]
  {
    if |s| <= cap then s else s[|s| - cap..]
  }

  /** Dropping elements older than the newest `cap` does not change them. */
  lemma NewestOfSuffix<T>(u: seq<T>, k: nat, cap: nat)
    requires k + cap <= |u|
    ensures Newest(u[k..], cap) == Newest(u, cap)
  {
    assert u[k..][|u| - k - cap..] == u[|u| - cap..];
  }

  lemma NewestOfNewest<T>(s: seq<T>, t: seq<T>, cap: nat)
    ensures Newest(Newest(s, cap) + t, cap) == Newest(s + t, cap)
  {
    if |s| > cap {
      var k := |s| - cap;
      calc {
        Newest(Newest(s, cap) + t, cap);
        { assert Newest(s, cap) + t == (s + t)[k..]; }
        Newest((s + t)[k..], cap);
        { NewestOfSuffix(s + t, k, cap); }
        Newest(s + t, cap);
      }
    }
  }

  /** `deque.append(x)` on a deque bounded by `cap`: when the deque is full
      the oldest element is discarded first, so the deque holds the newest
      `cap` elements of its old contents followed by `x`. */
  function BoundedAppend<T>(d: seq<T>, x: T, cap: nat): (r: seq<T>)
    requires |d| <= cap
    ensures r == Newest(d + [x], cap)
  {
    if cap == 0 then d
    else if |d| == cap then d[1..] + [x]
    else d + [x]
  }

  /** `deque.extend(xs)`: `BoundedAppend` of each element in turn, which
      keeps exactly the newest `cap` elements of the old contents followed
      by the new ones. */
  function BoundedExtend<T>(d: seq<T>, xs: seq<T>, cap: nat): (r: seq<T>)
    requires |d| <= cap
    ensures r == Newest(d + xs, cap)
    decreases |xs|
  {
    if xs == [] then
      assert d + xs == d;
      d
    else
      var x, rest := xs[0], xs[1..];
      NewestOfNewest(d + [x], rest, cap);
      assert d + [x] + rest == d + xs;
      BoundedExtend(BoundedAppend(d, x, cap), rest, cap)
  }

  /** After `extend` by a chunk that fits, the chunk is the newest part of
      the buffer and everything before it is the newest part of the old
      contents. */
  lemma NewestEndsWithChunk<T>(before: seq<T>, chunk: seq<T>, cap: nat)
    requires |before| <= cap && |chunk| <= cap
    ensures var r := Newest(before + chunk, cap);
      |r| == Min(|before| + |chunk|, cap) &&
      r[|r| - |chunk|..] == chunk &&
      r[..|r| - |chunk|] == Newest(before, cap - |chunk|)
  {
    var r := Newest(before + chunk, cap);
    assert r[|r| - |chunk|..] == chunk;
    assert r[..|r| - |chunk|] == Newest(before, cap - |chunk|);
  }
}
