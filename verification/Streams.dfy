/** Byte streams as the portal's readers deliver them: what the bytes are, how the stream ends,
    and what a bounded tail of a stream is. */
module Streams {
  const MAX_INT64 := 0x7fff_ffff_ffff_ffff
  const MIN_INT64 := -0x8000_0000_0000_0000

  newtype byte = b: int | 0 <= b < 256

  datatype Option<+T> = None | Some(value: T)

  function Min(a: int, b: int): (m: int)
    ensures m <= a && m <= b && (m == a || m == b)
  {
    if a <= b then a else b
  }

  /** A reader's whole future. After `data` it reports end-of-file, or, when `broken`, a read
      error that every later read repeats. `eager` streams report the ending in the same call that
      returns the last byte; the others in a call of its own. The gzip reader does either: the second
      when the end falls behind a flushed window of 32 KiB or behind the header of a further member. */
  datatype Stream = Stream(data: seq<byte>, broken: bool, eager: bool)

  datatype Status = More | Eof | Failed

  /** `sub` is the stretch of `s` that starts at `a`. */
  ghost predicate SliceAt<T>(sub: seq<T>, s: seq<T>, a: int) {
    0 <= a && a + |sub| <= |s| && forall k :: 0 <= k < |sub| ==> sub[k] == s[a + k]
  }

  predicate OccursAt<T(==)>(sub: seq<T>, s: seq<T>, a: nat) {
    a + |sub| <= |s| && s[a..a + |sub|] == sub
  }

  /** `sub` occurs in `s` as a contiguous piece. */
  ghost predicate Occurs<T>(sub: seq<T>, s: seq<T>) {
    exists a: nat :: OccursAt(sub, s, a)
  }

  lemma SliceOfSlice<T>(s: seq<T>, lo: nat, hi: nat, a: nat, b: nat)
    requires lo <= hi <= |s| && a <= b <= hi - lo
    ensures s[lo..hi][a..b] == s[lo + a..lo + b]
  {
    var outer, inner, flat := s[lo..hi], s[lo..hi][a..b], s[lo + a..lo + b];
    forall k | 0 <= k < b - a
      ensures inner[k] == flat[k]
    {
      assert inner[k] == outer[a + k] == s[lo + (a + k)];
    }
  }

  lemma OccursInSlice<T>(sub: seq<T>, s: seq<T>, lo: nat, hi: nat)
    requires lo <= hi <= |s|
    requires Occurs(sub, s[lo..hi])
    ensures Occurs(sub, s)
  {
    var a: nat :| OccursAt(sub, s[lo..hi], a);
    SliceOfSlice(s, lo, hi, a, a + |sub|);
    assert OccursAt(sub, s, lo + a);
  }
}
