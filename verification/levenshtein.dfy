/**
  The edit distance the monitor imports from the `Levenshtein` package.
  The package itself is a foreign library; it is modelled here by the textbook
  recursive definition with unit-cost insertion, deletion and substitution.
 */
module Levenshtein {

  /** The least of three naturals. */
  function Min3(x: nat, y: nat, z: nat): (m: nat)
    ensures m <= x && m <= y && m <= z
    ensures m == x || m == y || m == z
  {
    if x <= y && x <= z then x else if y <= z then y else z
  }

  /** The greater of two naturals. */
  function Max(x: nat, y: nat): (m: nat)
  {
    if x < y then y else x
  }

  /** How far apart two lengths are. */
  function Gap(m: nat, n: nat): (g: nat)
  {
    if m < n then n - m else m - n
  }

  /** Minimum number of single-character edits turning `a` into `b`. */
  function Distance(a: string, b: string): (d: nat)
    decreases |a| + |b|
  {
    if |a| == 0 then |b|
    else if |b| == 0 then |a|
    else Min3(Distance(a[1..], b) + 1,
              Distance(a, b[1..]) + 1,
              Distance(a[1..], b[1..]) + (if a[0] == b[0] then 0 else 1))
  }

  /** A text is at distance zero from itself. */
  lemma {:induction false} DistanceToSelf(a: string)
    ensures Distance(a, a) == 0
    decreases |a|
  {
    if |a| > 0 {
      DistanceToSelf(a[1..]);
    }
  }

  /** Distance zero means the texts are equal. */
  lemma {:induction false} ZeroDistanceMeansEqual(a: string, b: string)
    requires Distance(a, b) == 0
    ensures a == b
    decreases |a| + |b|
  {
    if |a| > 0 && |b| > 0 {
      ZeroDistanceMeansEqual(a[1..], b[1..]);
      assert a == [a[0]] + a[1..];
      assert b == [b[0]] + b[1..];
    }
  }

  /** Distance is zero exactly when the two texts are equal. */
  lemma DistanceZeroIff(a: string, b: string)
    ensures Distance(a, b) == 0 <==> a == b
  {
    if a == b {
      DistanceToSelf(a);
    } else if Distance(a, b) == 0 {
      ZeroDistanceMeansEqual(a, b);
    }
  }

  /** The distance is symmetric, so the argument order at the call site does not matter. */
  lemma {:induction false} DistanceSymmetric(a: string, b: string)
    ensures Distance(a, b) == Distance(b, a)
    decreases |a| + |b|
  {
    if |a| > 0 && |b| > 0 {
      DistanceSymmetric(a[1..], b);
      DistanceSymmetric(a, b[1..]);
      DistanceSymmetric(a[1..], b[1..]);
    }
  }

  /** Rewriting one text into the other never needs more edits than the longer one has characters. */
  lemma {:induction false} DistanceAtMostLonger(a: string, b: string)
    ensures Distance(a, b) <= Max(|a|, |b|)
    decreases |a| + |b|
  {
    if |a| > 0 && |b| > 0 {
      DistanceAtMostLonger(a[1..], b[1..]);
    }
  }

  /** Every edit changes the length by at most one, so the distance is at least the length difference. */
  lemma {:induction false} DistanceAtLeastLengthGap(a: string, b: string)
    ensures Distance(a, b) >= Gap(|a|, |b|)
    decreases |a| + |b|
  {
    if |a| > 0 && |b| > 0 {
      DistanceAtLeastLengthGap(a[1..], b);
      DistanceAtLeastLengthGap(a, b[1..]);
      DistanceAtLeastLengthGap(a[1..], b[1..]);
    }
  }

  /** Texts that differ in one position only are at distance at most one. */
  lemma {:induction false} OneSubstitution(p: string, x: char, y: char, s: string)
    ensures Distance(p + [x] + s, p + [y] + s) <= 1
    decreases |p|
  {
    var a, b := p + [x] + s, p + [y] + s;
    if |p| == 0 {
      assert a[1..] == s && b[1..] == s;
      DistanceToSelf(s);
    } else {
      assert a[0] == b[0];
      assert a[1..] == p[1..] + [x] + s;
      assert b[1..] == p[1..] + [y] + s;
      OneSubstitution(p[1..], x, y, s);
    }
  }
}
