/**
 * The sizing arithmetic of `createTextTexture` (src/createTextTexture.js): the
 * label's border radius and box, and the power-of-two canvas that holds it.
 */
module TextTexture {

  /** `2^k`. */
  function Pow2(k: nat): (r: int)
    ensures r >= 1
  {
    if k == 0 then 1 else 2 * Pow2(k - 1)
  }

  /** `n` is a power of two no smaller than 2. */
  ghost predicate IsPowerOfTwo(n: int)
  {
    exists k: nat :: 1 <= k && n == Pow2(k)
  }

  /**
   * `nearestSize`: the smallest power of two, from 2 on, that is at least
   * `size`. A `size` of 2 or less (a negative one included) gives 2.
   */
  method NearestSize(size: real) returns (nearest: int)
    ensures nearest >= 2
    ensures size <= nearest as real
    ensures IsPowerOfTwo(nearest)
    ensures nearest > 2 ==> ((nearest / 2) as real) < size
  {
    nearest := 2;
    ghost var k: nat := 1;
    while size > nearest as real
      invariant nearest >= 2 && 1 <= k && nearest == Pow2(k)
      invariant nearest > 2 ==> ((nearest / 2) as real) < size
      decreases size.Floor - nearest
    {
      nearest := nearest * 2;
      k := k + 1;
    }
  }

  /** `fontsize * 1.4 + borderThickness`: the label's height. */
  function Height(fontsize: real, borderThickness: real): real
  {
    fontsize * 1.4 + borderThickness
  }

  /**
   * `Math.min(borderRadius, height / 2)`: the requested radius, cut down so that
   * the rounded corners fit the height.
   */
  function RealBorderRadius(borderRadius: real, fontsize: real, borderThickness: real): (r: real)
    ensures r <= borderRadius
    ensures r <= Height(fontsize, borderThickness) / 2.0
    ensures 2.0 * r <= Height(fontsize, borderThickness)
    ensures r == borderRadius || r == Height(fontsize, borderThickness) / 2.0
  {
    var half := Height(fontsize, borderThickness) / 2.0;
    if borderRadius < half then borderRadius else half
  }

  /** `textWidth + borderThickness + realBorderRadius * 2`: the label's width. */
  function Width(textWidth: real, borderRadius: real, fontsize: real, borderThickness: real): real
  {
    textWidth + borderThickness + RealBorderRadius(borderRadius, fontsize, borderThickness) * 2.0
  }

  /**
   * The label is never wider than the text plus its border and the full
   * height, and, for a radius that is not negative, at least as wide as the
   * text plus its border.
   */
  lemma WidthBounds(textWidth: real, borderRadius: real, fontsize: real, borderThickness: real)
    ensures Width(textWidth, borderRadius, fontsize, borderThickness) <=
      textWidth + borderThickness + Height(fontsize, borderThickness)
    ensures 0.0 <= borderRadius && 0.0 <= Height(fontsize, borderThickness) ==>
      textWidth + borderThickness <= Width(textWidth, borderRadius, fontsize, borderThickness)
  {
    var r := RealBorderRadius(borderRadius, fontsize, borderThickness);
    assert 2.0 * r <= Height(fontsize, borderThickness);
  }

  /**
   * The canvas dimensions: each the nearest power of two, from 2 on, that
   * holds the label's width and height.
   */
  method CanvasSize(textWidth: real, borderRadius: real, fontsize: real, borderThickness: real)
    returns (width: int, height: int)
    ensures width >= 2 && IsPowerOfTwo(width) && Width(textWidth, borderRadius, fontsize, borderThickness) <= width as real
    ensures height >= 2 && IsPowerOfTwo(height) && Height(fontsize, borderThickness) <= height as real
    ensures width > 2 ==> ((width / 2) as real) < Width(textWidth, borderRadius, fontsize, borderThickness)
    ensures height > 2 ==> ((height / 2) as real) < Height(fontsize, borderThickness)
  {
    width := NearestSize(Width(textWidth, borderRadius, fontsize, borderThickness));
    height := NearestSize(Height(fontsize, borderThickness));
  }
}
