/**
  The dimension rule of `resize` (backend/main.py:67-88). An image whose
  sides both fit in `maxSize` is left as it is; otherwise its larger side
  becomes `maxSize` (the height when the sides are equal) and the other side
  is scaled by the same ratio, rounded down, and raised to 1 if it fell to 0.
  The source multiplies by the floating-point ratio `max_size / side`; here
  the product is the exact integer floor.
*/
module Dimensions {

  /** The pixel size of an image, `image.size`. */
  datatype Size = Size(width: nat, height: nat)

  /** Both sides lie within the bounding box. */
  predicate Fits(s: Size, maxSize: int)
  {
    s.width <= maxSize && s.height <= maxSize
  }

  /** `max(1, n)`: the source's `if new_side < 1: new_side = 1`. */
  function AtLeastOne(n: int): nat
  {
    if n < 1 then 1 else n
  }

  /** The size `resize(image, max_size)` produces. */
  function Resize(s: Size, maxSize: nat): (r: Size)
    ensures Fits(s, maxSize) ==> r == s
    ensures maxSize >= 1 ==> Fits(r, maxSize)
  {
    if s.width > maxSize || s.height > maxSize then
      if s.width > s.height then
        FloorBelow(s.height, maxSize, s.width);
        Size(maxSize, AtLeastOne(s.height * maxSize / s.width))
      else
        FloorBelow(s.width, maxSize, s.height);
        Size(AtLeastOne(s.width * maxSize / s.height), maxSize)
    else s
  }

  /** An image that already fits is passed through unchanged. */
  lemma ResizeKeepsFitting(s: Size, maxSize: nat)
    requires Fits(s, maxSize)
    ensures Resize(s, maxSize) == s
  {
  }

  /**
    An image that does not fit has its larger side set to exactly `maxSize`
    (the height on a tie), and the result fits in the box with both sides
    at least 1.
  */
  lemma {:induction false} ResizeLargerSide(s: Size, maxSize: nat)
    requires maxSize >= 1 && !Fits(s, maxSize)
    ensures var r := Resize(s, maxSize);
      && (s.width > s.height ==> r.width == maxSize && r.height <= r.width)
      && (s.width <= s.height ==> r.height == maxSize && r.width <= r.height)
      && 1 <= r.width <= maxSize && 1 <= r.height <= maxSize
  {
    if s.width > s.height {
      FloorBelow(s.height, maxSize, s.width);
    } else {
      FloorBelow(s.width, maxSize, s.height);
    }
  }

  /** The result always fits in the bounding box. */
  lemma ResizeFits(s: Size, maxSize: nat)
    requires maxSize >= 1
    ensures Fits(Resize(s, maxSize), maxSize)
  {
    if !Fits(s, maxSize) {
      ResizeLargerSide(s, maxSize);
    }
  }

  /**
    The aspect ratio is kept up to rounding down: the scaled side is the
    largest whole number not exceeding the exact proportional length, unless
    that is 0, in which case it is 1.
  */
  lemma {:induction false} ResizeProportional(s: Size, maxSize: nat)
    requires !Fits(s, maxSize)
    ensures var r := Resize(s, maxSize);
      && (s.width > s.height && s.height * maxSize >= s.width ==>
            r.height * s.width <= s.height * maxSize < (r.height + 1) * s.width)
      && (s.width > s.height && s.height * maxSize < s.width ==> r.height == 1)
      && (s.width <= s.height && s.width * maxSize >= s.height ==>
            r.width * s.height <= s.width * maxSize < (r.width + 1) * s.height)
      && (s.width <= s.height && s.width * maxSize < s.height ==> r.width == 1)
  {
    if s.width > s.height {
      ScaledSide(s.height, maxSize, s.width);
    } else {
      ScaledSide(s.width, maxSize, s.height);
    }
  }

  /** A resize only ever shrinks a non-degenerate image. */
  lemma {:induction false} ResizeNeverEnlarges(s: Size, maxSize: nat)
    requires s.width >= 1 && s.height >= 1
    ensures Resize(s, maxSize).width <= s.width && Resize(s, maxSize).height <= s.height
  {
    if !Fits(s, maxSize) {
      if s.width > s.height {
        FloorBelow(s.height, maxSize, s.width);
      } else {
        FloorBelow(s.width, maxSize, s.height);
      }
    }
  }

  /** Resizing a second time with the same bound changes nothing. */
  lemma ResizeIdempotent(s: Size, maxSize: nat)
    requires maxSize >= 1
    ensures Resize(Resize(s, maxSize), maxSize) == Resize(s, maxSize)
  {
    ResizeFits(s, maxSize);
  }

  /** The scaled side `max(1, a * m / c)`: the floor of `a * m / c` when that is positive, else 1. */
  lemma ScaledSide(a: nat, m: nat, c: nat)
    requires 0 < c
    ensures a * m >= c ==> AtLeastOne(a * m / c) * c <= a * m < (AtLeastOne(a * m / c) + 1) * c
    ensures a * m < c ==> AtLeastOne(a * m / c) == 1
  {
    var q := a * m / c;
    FloorBounds(a * m, c);
    if a * m >= c {
      MulMonotone(1, q + 1, c);
    } else if q >= 1 {
      MulMonotone(1, q, c);
    }
  }

  /** `a * b / c` is at most `b`, and at most `a` when `b < c`. */
  lemma FloorBelow(a: nat, b: nat, c: nat)
    requires a <= c && 0 < c
    ensures a * b / c <= b
    ensures b < c ==> a * b / c <= a
  {
    FloorBounds(a * b, c);
    var q := a * b / c;
    MulMonotone(a, c, b);
    if q > b {
      MulMonotone(b + 1, q, c);
      assert false;
    }
    if b < c && q > a {
      MulMonotone(b, c, a);
      MulMonotone(a + 1, q, c);
      assert false;
    }
  }

  lemma MulMonotone(x: nat, y: nat, z: nat)
    requires x <= y
    ensures x * z <= y * z
  {
  }

  /** The defining bounds of floor division. */
  lemma FloorBounds(n: nat, d: nat)
    requires 0 < d
    ensures (n / d) * d <= n < (n / d + 1) * d
  {
  }
}
