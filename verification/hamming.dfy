/** Perceptual fingerprints and the distance between them.

    `imagehash.phash` produces an 8 x 8 grid of bits, and subtracting two such
    hashes counts the grid positions in which they differ. The upload handler
    treats two images as the same picture when that count is at most
    `IMAGE_HASH_THRESHOLD`. */
module Hamming {

  const FINGERPRINT_BITS: nat := 64
  const IMAGE_HASH_THRESHOLD: nat := 5

  /** A perceptual hash: the 8 x 8 bit grid, flattened row by row. */
  type Fingerprint = s: seq<bool> | |s| == FINGERPRINT_BITS witness seq(64, i => false)

  /** How many of the first `n` positions hold different bits in `a` and `b`. */
  function DifferingBits(a: seq<bool>, b: seq<bool>, n: nat): (c: nat)
    requires n <= |a| && n <= |b|
    ensures c <= n
  {
    if n == 0 then 0
    else DifferingBits(a, b, n - 1) + (if a[n - 1] != b[n - 1] then 1 else 0)
  }

  /** The Hamming distance of two fingerprints. */
  function Distance(a: Fingerprint, b: Fingerprint): (d: nat)
    ensures d <= FINGERPRINT_BITS
  {
    DifferingBits(a, b, FINGERPRINT_BITS)
  }

  /** Two fingerprints are near, that is the handler takes them for the same
      image, when they differ in at most `IMAGE_HASH_THRESHOLD` bits. */
  predicate Near(a: Fingerprint, b: Fingerprint)
  {
    Distance(a, b) <= IMAGE_HASH_THRESHOLD
  }

  /** The positions at which two fingerprints hold different bits. */
  function DifferingPositions(a: Fingerprint, b: Fingerprint): set<nat>
  {
    set i: nat | i < FINGERPRINT_BITS && a[i] != b[i]
  }

  /** The running count is the size of the set of differing positions below `n`. */
  lemma {:induction false} DifferingBitsCountsPositions(a: seq<bool>, b: seq<bool>, n: nat)
    requires n <= |a| && n <= |b|
    ensures DifferingBits(a, b, n) == |set i: nat | i < n && a[i] != b[i]|
  {
    if n > 0 {
      DifferingBitsCountsPositions(a, b, n - 1);
      var below := set i: nat | i < n - 1 && a[i] != b[i];
      var upTo := set i: nat | i < n && a[i] != b[i];
      if a[n - 1] != b[n - 1] {
        assert upTo == below + {n - 1};
      } else {
        assert upTo == below;
      }
    }
  }

  /** The distance is the number of positions at which the fingerprints differ. */
  lemma DistanceCountsDifferingPositions(a: Fingerprint, b: Fingerprint)
    ensures Distance(a, b) == |DifferingPositions(a, b)|
  {
    DifferingBitsCountsPositions(a, b, FINGERPRINT_BITS);
  }

  /** The count is zero exactly when the first `n` bits agree. */
  lemma {:induction false} NoDifferingBits(a: seq<bool>, b: seq<bool>, n: nat)
    requires n <= |a| && n <= |b|
    ensures DifferingBits(a, b, n) == 0 <==> a[..n] == b[..n]
  {
    if n > 0 {
      NoDifferingBits(a, b, n - 1);
      assert a[..n] == a[..n - 1] + [a[n - 1]] && b[..n] == b[..n - 1] + [b[n - 1]];
      if a[..n] == b[..n] {
        assert a[..n - 1] == a[..n][..n - 1];
        assert b[..n - 1] == b[..n][..n - 1];
      }
    }
  }

  /** A fingerprint is at distance zero from itself, so an image whose hash
      equals a stored one is always near it. */
  lemma DistanceToSelf(a: Fingerprint)
    ensures Distance(a, a) == 0
    ensures Near(a, a)
  {
    NoDifferingBits(a, a, FINGERPRINT_BITS);
  }

  /** Distance zero means equal. */
  lemma DistanceZeroIffEqual(a: Fingerprint, b: Fingerprint)
    ensures Distance(a, b) == 0 <==> a == b
  {
    NoDifferingBits(a, b, FINGERPRINT_BITS);
    assert a[..FINGERPRINT_BITS] == a && b[..FINGERPRINT_BITS] == b;
  }

  /** `a` with its first `k` bits inverted. */
  function FlipFirst(a: Fingerprint, k: nat): Fingerprint
  {
    seq(FINGERPRINT_BITS, i requires 0 <= i < FINGERPRINT_BITS => if i < k then !a[i] else a[i])
  }

  lemma {:induction false} DifferingBitsOfFlip(a: Fingerprint, k: nat, n: nat)
    requires n <= FINGERPRINT_BITS
    ensures DifferingBits(a, FlipFirst(a, k), n) == if n < k then n else k
  {
    if n > 0 {
      DifferingBitsOfFlip(a, k, n - 1);
    }
  }

  /** Inverting `k` bits puts a fingerprint at distance `k`, and the threshold
      is inclusive: up to 5 inverted bits is near, 6 or more is not. */
  lemma ThresholdBoundary(a: Fingerprint, k: nat)
    requires k <= FINGERPRINT_BITS
    ensures Distance(a, FlipFirst(a, k)) == k
    ensures Near(a, FlipFirst(a, k)) <==> k <= IMAGE_HASH_THRESHOLD
  {
    DifferingBitsOfFlip(a, k, FINGERPRINT_BITS);
  }

  lemma {:induction false} DifferingBitsOfTwoFlips(a: Fingerprint, j: nat, k: nat, n: nat)
    requires j <= k && n <= FINGERPRINT_BITS
    ensures DifferingBits(FlipFirst(a, j), FlipFirst(a, k), n)
            == (if n < k then n else k) - (if n < j then n else j)
  {
    if n > 0 {
      DifferingBitsOfTwoFlips(a, j, k, n - 1);
    }
  }

  /** Two fingerprints obtained by inverting the first `j` and the first `k`
      bits of the same fingerprint differ in the `k - j` bits between. */
  lemma DistanceOfTwoFlips(a: Fingerprint, j: nat, k: nat)
    requires j <= k <= FINGERPRINT_BITS
    ensures Distance(FlipFirst(a, j), FlipFirst(a, k)) == k - j
  {
    DifferingBitsOfTwoFlips(a, j, k, FINGERPRINT_BITS);
  }

  lemma {:induction false} DifferingBitsSymmetric(a: seq<bool>, b: seq<bool>, n: nat)
    requires n <= |a| && n <= |b|
    ensures DifferingBits(a, b, n) == DifferingBits(b, a, n)
  {
    if n > 0 {
      DifferingBitsSymmetric(a, b, n - 1);
    }
  }

  /** Distance, and so nearness, does not depend on the order of its arguments. */
  lemma DistanceSymmetric(a: Fingerprint, b: Fingerprint)
    ensures Distance(a, b) == Distance(b, a)
    ensures Near(a, b) == Near(b, a)
  {
    DifferingBitsSymmetric(a, b, FINGERPRINT_BITS);
  }
}
