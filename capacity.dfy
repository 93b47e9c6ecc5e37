/**
 * The capacity shown to the user for an image of the given size: one bit per
 * colour byte, eight bits per character, less a reserve of 100 characters.
 */
module Capacity {

  /**
   * `Math.floor((width * height * 3) / 8) - 100`. The dimensions are image
   * sizes, never negative, so the floor is integer division.
   */
  function Capacity(width: nat, height: nat): (c: int)
    ensures 8 * (c + 100) <= 3 * (width * height) < 8 * (c + 101)
  {
    (width * height * 3) / 8 - 100
  }

  /** An image with no pixels has no capacity. */
  lemma CapacityOfEmptyImage(width: nat, height: nat)
    requires width == 0 || height == 0
    ensures Capacity(width, height) == -100
  {
  }

  /** A larger image never has a smaller capacity. */
  lemma CapacityMonotone(width: nat, height: nat, width': nat, height': nat)
    requires width <= width' && height <= height'
    ensures Capacity(width, height) <= Capacity(width', height')
  {
    assert width * height <= width' * height by {
      MulMonotone(width, width', height);
    }
    assert width' * height <= width' * height' by {
      MulMonotone(height, height', width');
    }
    var c, c' := Capacity(width, height), Capacity(width', height');
    assert 8 * (c + 100) <= 3 * (width * height) <= 3 * (width' * height') < 8 * (c' + 101);
  }

  lemma MulMonotone(a: nat, b: nat, k: nat)
    requires a <= b
    ensures a * k <= b * k
  {
  }

  /** Two sizes worked out: a 4x4 image has none, a 100x100 image holds 3650 characters. */
  lemma CapacityExamples()
    ensures Capacity(4, 4) == -94
    ensures Capacity(100, 100) == 3650
  {
  }
}
