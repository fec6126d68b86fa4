/** Small pieces of JavaScript semantics the dashboard relies on: `null`-able
    values, `Math.min`/`Math.max` on integers, `Array.prototype.slice`, and
    the `<` operator on strings.
 */
module Prelude {

  /** A value that may be missing (`null`/`undefined` in the source). */
  datatype Option<+T> = None | Some(value: T)

  function Min(a: int, b: int): int {
    if a <= b then a else b
  }

  function Max(a: int, b: int): int {
    if a <= b then b else a
  }

  /** The position an argument of `slice` denotes in a sequence of length `n`:
      a negative argument counts back from the end, and the position is
      clamped to `0..n`. */
  function SliceIndex(i: int, n: nat): (k: nat)
    ensures k <= n
  {
    if i < 0 then (if n + i < 0 then 0 else n + i)
    else if i > n then n
    else i
  }

  /** `s.slice(start, end)`: a fresh sequence holding the elements between the
      two clamped positions, empty when the end does not lie past the start. */
  function Slice<T>(s: seq<T>, start: int, end: int): (r: seq<T>)
    ensures |r| == Max(0, SliceIndex(end, |s|) - SliceIndex(start, |s|))
    ensures forall k :: 0 <= k < |r| ==> r[k] == s[SliceIndex(start, |s|) + k]
  {
    var from := SliceIndex(start, |s|);
    var to := SliceIndex(end, |s|);
    if to <= from then [] else s[from..to]
  }

  /** With non-negative arguments, `slice` is Dafny's subsequence with both
      bounds cut down to the length. */
  lemma SliceOfNatural<T>(s: seq<T>, start: int, end: int)
    requires 0 <= start <= end
    ensures Slice(s, start, end) == s[Min(start, |s|)..Min(end, |s|)]
  {
  }

  /** A window of `size` elements from `start` on: never longer than `size`,
      and empty once `start` is at or past the end. */
  lemma SliceWindow<T>(s: seq<T>, start: nat, size: nat)
    ensures |Slice(s, start, start + size)| == Min(size, Max(0, |s| - start))
  {
  }

  /** A slice holds nothing its source does not. */
  lemma SliceWithin<T>(s: seq<T>, start: int, end: int)
    ensures multiset(Slice(s, start, end)) <= multiset(s)
  {
    var from := SliceIndex(start, |s|);
    var to := SliceIndex(end, |s|);
    if from < to {
      assert s == s[..from] + s[from..to] + s[to..];
    }
  }

  /** JavaScript's `<` on two strings: the first differing character decides,
      and a proper prefix comes first. */
  predicate StrLess(a: string, b: string)
    decreases |a|
  {
    if |a| == 0 then |b| > 0
    else if |b| == 0 then false
    else if a[0] != b[0] then a[0] < b[0]
    else StrLess(a[1..], b[1..])
  }

  lemma {:induction false} StrLessIrreflexive(a: string)
    ensures !StrLess(a, a)
    decreases |a|
  {
    if |a| > 0 {
      StrLessIrreflexive(a[1..]);
    }
  }

  lemma {:induction false} StrLessTransitive(a: string, b: string, c: string)
    requires StrLess(a, b) && StrLess(b, c)
    ensures StrLess(a, c)
    decreases |a|
  {
    if |a| > 0 {
      assert |b| > 0 && |c| > 0;
      if a[0] == b[0] && b[0] == c[0] {
        StrLessTransitive(a[1..], b[1..], c[1..]);
      }
    }
  }

  /** Any two strings are equal or ordered one way or the other. */
  lemma {:induction false} StrLessTotal(a: string, b: string)
    ensures a == b || StrLess(a, b) || StrLess(b, a)
    decreases |a|
  {
    if |a| > 0 && |b| > 0 && a[0] == b[0] {
      StrLessTotal(a[1..], b[1..]);
      if a[1..] == b[1..] {
        assert a == [a[0]] + a[1..] && b == [b[0]] + b[1..];
      }
    }
  }

  lemma StrLessAsymmetric(a: string, b: string)
    requires StrLess(a, b)
    ensures !StrLess(b, a)
  {
    if StrLess(b, a) {
      StrLessTransitive(a, b, a);
      StrLessIrreflexive(a);
    }
  }
}
