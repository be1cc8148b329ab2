/** The parts of Python's bytes and str behaviour the codec relies on:
    clamped slicing, the `in` test and `split` on a separator. They are
    generic so that they serve both hex texts and file names. */
module PyBytes {
  import opened Wrappers

  function Min(a: int, b: int): int {
    if a <= b then a else b
  }

  /** s[lo:hi] for 0 <= lo <= hi: Python clamps both bounds to the length. */
  function Slice<T>(s: seq<T>, lo: nat, hi: nat): (r: seq<T>)
    requires lo <= hi
    ensures |r| == Min(hi, |s|) - Min(lo, |s|)
    ensures hi <= |s| ==> r == s[lo..hi]
  {
    s[Min(lo, |s|)..Min(hi, |s|)]
  }

  /** s[lo:] for 0 <= lo. */
  function Drop<T>(s: seq<T>, lo: nat): (r: seq<T>)
    ensures lo <= |s| ==> r == s[lo..]
    ensures lo >= |s| ==> r == []
  {
    s[Min(lo, |s|)..]
  }

  /** Adjacent clamped slices join up. */
  lemma SliceSplice<T>(s: seq<T>, lo: nat, mid: nat, hi: nat)
    requires lo <= mid <= hi
    ensures Slice(s, lo, mid) + Slice(s, mid, hi) == Slice(s, lo, hi)
    ensures Slice(s, lo, mid) + Drop(s, mid) == Drop(s, lo)
  {
    var a, b, c := Min(lo, |s|), Min(mid, |s|), Min(hi, |s|);
    assert s[a..b] + s[b..c] == s[a..c];
    assert s[a..b] + s[b..] == s[a..];
  }

  /** Regrouping a four-part concatenation. */
  lemma Regroup<T>(a: seq<T>, b: seq<T>, c: seq<T>, d: seq<T>)
    ensures a + b + (c + d) == a + (b + c + d)
    ensures a + (b + c + d) == a + b + c + d
  {
  }

  /** An eight-long d with x at positions 2 and 4 does not occur in b + w
      when b holds no x and w is six long with no x at position 2: every
      window either puts position 2 inside b or is the last one, whose
      position 4 is w[2]. */
  lemma NotAcross<T>(b: seq<T>, w: seq<T>, d: seq<T>, x: T)
    requires |d| == 8 && d[2] == x && d[4] == x
    requires x !in b && |w| == 6 && w[2] != x
    ensures !Contains(b + w, d)
  {
    var h := b + w;
    forall i: nat | i + 8 <= |h| ensures !OccursAt(h, d, i) {
      if i + 2 < |b| {
        assert h[i..i + 8][2] == b[i + 2];
      } else {
        assert h[i..i + 8][4] == w[2];
      }
    }
  }

  /** d followed by s starts with d, and dropping d gives s back. */
  lemma PrefixThen<T>(d: seq<T>, s: seq<T>)
    ensures d <= d + s && Drop(d + s, |d|) == s
  {
  }

  /** A sequence is its head followed by its tail. */
  lemma HeadThen<T>(s: seq<T>, h: T, r: seq<T>)
    requires |s| == |r| + 1 && s[0] == h
    requires forall i :: 0 <= i < |r| ==> s[i + 1] == r[i]
    ensures s == [h] + r
  {
    assert s[1..] == r;
  }

  /** The middle of a three-part concatenation. */
  lemma MiddleOfConcat<T>(x: seq<T>, y: seq<T>, z: seq<T>)
    ensures (x + y + z)[|x|..|x| + |y|] == y
  {
  }

  /** d occurs in s starting at position i. */
  predicate OccursAt<T(==)>(s: seq<T>, d: seq<T>, i: nat) {
    i + |d| <= |s| && s[i..i + |d|] == d
  }

  /** Python's `d in s`. */
  predicate Contains<T(==)>(s: seq<T>, d: seq<T>) {
    exists i: nat :: i <= |s| && OccursAt(s, d, i)
  }

  /** `d in s` as a left-to-right scan, the form the codec computes with;
      InContains shows it agrees with Contains. */
  predicate In<T(==)>(s: seq<T>, d: seq<T>)
    decreases |s|
  {
    |d| <= |s| && (s[..|d|] == d || In(s[1..], d))
  }

  lemma {:induction false} InContains<T>(s: seq<T>, d: seq<T>)
    ensures In(s, d) <==> Contains(s, d)
    decreases |s|
  {
    if |d| <= |s| {
      if s[..|d|] == d {
        assert OccursAt(s, d, 0);
      } else {
        InContains(s[1..], d);
        if Contains(s[1..], d) {
          var i: nat :| i <= |s[1..]| && OccursAt(s[1..], d, i);
          OccursAtTail(s, d, i);
        }
        if Contains(s, d) {
          var i: nat :| i <= |s| && OccursAt(s, d, i);
          assert i != 0;
          OccursAtTail(s, d, i - 1);
        }
      }
    }
  }

  lemma OccursAtTail<T>(s: seq<T>, d: seq<T>, i: nat)
    requires |s| > 0
    ensures OccursAt(s, d, i + 1) <==> OccursAt(s[1..], d, i)
  {
    if i + 1 + |d| <= |s| {
      assert s[1..][i..i + |d|] == s[i + 1..i + 1 + |d|];
    }
  }

  lemma OccursAtPrefix<T>(s: seq<T>, k: nat, d: seq<T>, i: nat)
    requires k <= |s|
    ensures OccursAt(s[..k], d, i) ==> OccursAt(s, d, i)
  {
    if OccursAt(s[..k], d, i) {
      assert s[..k][i..i + |d|] == s[i..i + |d|];
    }
  }

  /** The position of the first occurrence of d in s (Python's find). */
  function IndexOf<T(==)>(s: seq<T>, d: seq<T>): (r: Option<nat>)
    ensures r.None? <==> !Contains(s, d)
    ensures r.Some? ==> OccursAt(s, d, r.value)
    ensures r.Some? ==> forall j: nat :: j < r.value ==> !OccursAt(s, d, j)
    decreases |s|
  {
    if |s| < |d| then
      None
    else if s[..|d|] == d then
      assert OccursAt(s, d, 0);
      Some(0)
    else
      assert !OccursAt(s, d, 0);
      match IndexOf(s[1..], d)
      case None =>
        assert forall i: nat :: !OccursAt(s, d, i) by {
          forall i: nat ensures !OccursAt(s, d, i) {
            if i > 0 {
              OccursAtTail(s, d, i - 1);
              assert !OccursAt(s[1..], d, i - 1) by {
                if i - 1 <= |s[1..]| { assert !(i - 1 <= |s[1..]| && OccursAt(s[1..], d, i - 1)); }
              }
            }
          }
        }
        None
      case Some(k) =>
        OccursAtTail(s, d, k);
        assert forall j: nat :: j < k + 1 ==> !OccursAt(s, d, j) by {
          forall j: nat | j < k + 1 ensures !OccursAt(s, d, j) {
            if j > 0 { OccursAtTail(s, d, j - 1); }
          }
        }
        Some(k + 1)
  }

  /** d.join(parts): the parts with d between each two neighbours. */
  function Join<T>(parts: seq<seq<T>>, d: seq<T>): seq<T>
    requires |parts| >= 1
  {
    if |parts| == 1 then parts[0] else parts[0] + d + Join(parts[1..], d)
  }

  lemma JoinCons<T>(a: seq<T>, rest: seq<seq<T>>, d: seq<T>)
    requires |rest| >= 1
    ensures Join([a] + rest, d) == a + d + Join(rest, d)
  {
    assert ([a] + rest)[1..] == rest;
  }

  /** s.split(d): cut s at every occurrence of d, scanning left to right.
      (Python raises ValueError on an empty separator.) The parts joined by d
      give s back (JoinSplit), and no part holds d (SplitParts). */
  function Split<T(==)>(s: seq<T>, d: seq<T>): (parts: seq<seq<T>>)
    requires |d| > 0
    ensures |parts| >= 1
    decreases |s|
  {
    match IndexOf(s, d)
    case None => [s]
    case Some(k) => [s[..k]] + Split(s[k + |d|..], d)
  }

  /** No part of a split holds the separator, and there is more than one part
      exactly when the text holds the separator. */
  lemma {:induction false} SplitParts<T>(s: seq<T>, d: seq<T>)
    requires |d| > 0
    ensures forall k :: 0 <= k < |Split(s, d)| ==> !Contains(Split(s, d)[k], d)
    ensures |Split(s, d)| == 1 <==> !Contains(s, d)
    decreases |s|
  {
    match IndexOf(s, d)
    case None =>
    case Some(k) =>
      var head, tail := s[..k], s[k + |d|..];
      SplitParts(tail, d);
      assert !Contains(head, d) by {
        forall j: nat ensures !OccursAt(head, d, j) {
          OccursAtPrefix(s, k, d, j);
        }
      }
      assert k <= |s| && OccursAt(s, d, k);
      var parts := Split(s, d);
      assert parts == [head] + Split(tail, d);
      forall i | 0 <= i < |parts| ensures !Contains(parts[i], d) {
        if i > 0 { assert parts[i] == Split(tail, d)[i - 1]; }
      }
  }

  /** Joining the parts of a split with the separator gives the text back. */
  lemma {:induction false} JoinSplit<T>(s: seq<T>, d: seq<T>)
    requires |d| > 0
    ensures Join(Split(s, d), d) == s
    decreases |s|
  {
    match IndexOf(s, d)
    case None =>
    case Some(k) =>
      var head, tail := s[..k], s[k + |d|..];
      assert s[k..k + |d|] == d;
      assert s == head + s[k..k + |d|] + tail;
      assert Split(s, d) == [head] + Split(tail, d);
      JoinSplit(tail, d);
      JoinCons(head, Split(tail, d), d);
  }

  /** No proper suffix of d is also a prefix of d, so two occurrences of d
      never overlap. */
  predicate Unbordered<T(==)>(d: seq<T>) {
    forall m :: 0 < m < |d| ==> d[m..] != d[..|d| - m]
  }

  /** If x does not hold d, the first occurrence of d in x + d + y is the one
      right after x. */
  lemma IndexOfAfter<T>(x: seq<T>, d: seq<T>, y: seq<T>)
    requires |d| > 0 && Unbordered(d) && !Contains(x, d)
    ensures IndexOf(x + d + y, d) == Some(|x|)
  {
    var s := x + d + y;
    assert s[|x|..|x| + |d|] == d;
    assert OccursAt(s, d, |x|);
    forall j: nat | j < |x| ensures !OccursAt(s, d, j) {
      if j + |d| <= |x| {
        assert s[j..j + |d|] == x[j..j + |d|];
        assert !OccursAt(x, d, j);
      } else {
        var m := |x| - j;
        assert s[j..j + |d|][m..] == d[..|d| - m];
        assert d[m..] != d[..|d| - m];
      }
    }
  }

  /** Splitting x + d + y on d when x holds no d: x comes off first. */
  lemma SplitAfter<T>(x: seq<T>, d: seq<T>, y: seq<T>)
    requires |d| > 0 && Unbordered(d) && !Contains(x, d)
    ensures Split(x + d + y, d) == [x] + Split(y, d)
  {
    IndexOfAfter(x, d, y);
    var s := x + d + y;
    assert s[..|x|] == x;
    assert s[|x| + |d|..] == y;
  }

  /** A text that holds no d splits into itself alone. */
  lemma SplitWhole<T>(s: seq<T>, d: seq<T>)
    requires |d| > 0 && !Contains(s, d)
    ensures Split(s, d) == [s]
  {
    SplitParts(s, d);
  }
}
