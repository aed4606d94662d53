/**
 * Byte ranges of patches and the overlap test that `Patch::Impl::enable`
 * applies to them.  A range runs from `min` (the patch address) to `max`
 * (the address plus the patch length).  The end is exclusive in intent, but
 * the test compares the ends with strict `<`, so it behaves as a test on the
 * CLOSED ranges [min, max]: two ranges that only touch are reported as
 * intersecting, and so is an empty range sitting at another range's end.
 */
module Ranges {

  datatype Range = Range(min: nat, max: nat)

  /** The intersection test exactly as written: `other` does not intersect
      `self` (the patch being enabled) when it ends before `self` starts or
      `self` ends before it starts. */
  predicate Intersects(self: Range, other: Range)
  {
    !(other.max < self.min || self.max < other.min)
  }

  /** True when address `x` lies in the closed range [r.min, r.max]. */
  predicate ClosedContains(r: Range, x: nat)
  {
    r.min <= x <= r.max
  }

  /** True when byte `x` is one of the bytes [r.min, r.max) covers. */
  predicate Covers(r: Range, x: nat)
  {
    r.min <= x < r.max
  }

  /** The test reports an intersection exactly when the closed ranges share an address. */
  lemma IntersectsIffClosedOverlap(a: Range, b: Range)
    requires a.min <= a.max && b.min <= b.max
    ensures Intersects(a, b) <==> exists x: nat :: ClosedContains(a, x) && ClosedContains(b, x)
  {
    if Intersects(a, b) {
      var x := if a.min < b.min then b.min else a.min;
      assert ClosedContains(a, x) && ClosedContains(b, x);
    }
  }

  /** The test does not depend on which range is the one being enabled. */
  lemma IntersectsSymmetric(a: Range, b: Range)
    ensures Intersects(a, b) <==> Intersects(b, a)
  {
  }

  /** Soundness of the test: two ranges that share a byte are always reported. */
  lemma SharedByteIntersects(a: Range, b: Range, x: nat)
    requires Covers(a, x) && Covers(b, x)
    ensures Intersects(a, b)
  {
  }

  /** A range always intersects itself, whatever its length. */
  lemma IntersectsItself(a: Range)
    requires a.min <= a.max
    ensures Intersects(a, a)
  {
  }

  /** Ranges that only touch, [lo, mid) and [mid, hi), are reported as
      intersecting although they share no byte. */
  lemma TouchingRangesIntersect(lo: nat, mid: nat, hi: nat)
    requires lo <= mid <= hi
    ensures Intersects(Range(lo, mid), Range(mid, hi))
    ensures Intersects(Range(mid, hi), Range(lo, mid))
    ensures forall x: nat :: !(Covers(Range(lo, mid), x) && Covers(Range(mid, hi), x))
  {
  }
}
