/** scaleSize of TagCloud.java: linear interpolation of a count onto a font size. */
module Scaling {
  import opened JavaLang

  /** scaleSize. When the selection's counts are all equal it answers the fixed size 1
      (not fontMin); otherwise it interpolates with Java's truncating division. */
  function ScaleSize(fontMax: int, fontMin: int, count: int, countMin: int, countMax: int): (scaled: int)
    ensures countMin == countMax ==> scaled == 1
    ensures countMin < countMax && count == countMin ==> scaled == fontMin
    ensures countMin < countMax && count == countMax ==> scaled == fontMax
    ensures countMin < countMax && fontMin <= fontMax && countMin <= count <= countMax ==>
      fontMin <= scaled <= fontMax
  {
    if countMin == countMax then 1
    else
      ScaleFactsWhenOrdered(fontMax - fontMin, count - countMin, countMax - countMin);
      JavaDiv((fontMax - fontMin) * (count - countMin), countMax - countMin) + fontMin
  }

  lemma ScaleFactsWhenOrdered(d: int, offset: int, range: int)
    requires range != 0
    ensures range > 0 && offset == 0 ==> JavaDiv(d * offset, range) == 0
    ensures range > 0 && offset == range ==> JavaDiv(d * offset, range) == d
    ensures range > 0 && d >= 0 && 0 <= offset <= range ==> 0 <= JavaDiv(d * offset, range) <= d
  {
    if range > 0 {
      ScaleFacts(d, offset, range);
    }
  }

  /** A product of non-negative numbers is non-negative. */
  lemma {:induction false} MulNonNegative(a: nat, b: nat)
    ensures a * b >= 0
  {
    if a > 0 {
      MulNonNegative(a - 1, b);
      assert a * b == (a - 1) * b + b;
    }
  }

  /** The only multiple of a positive r in [0, r) is 0 * r. */
  lemma OnlyZeroMultiple(k: int, r: int, m: int)
    requires r > 0 && 0 <= m < r && k * r == m
    ensures k == 0
  {
    if k >= 1 {
      assert k * r == (k - 1) * r + r;
      MulNonNegative(k - 1, r);
    } else if k <= -1 {
      assert k * r == -((-k - 1) * r) - r;
      MulNonNegative(-k - 1, r);
    }
  }

  /** (d * r) / r == d for a positive r. */
  lemma MulDivCancel(d: int, r: int)
    requires r > 0
    ensures (d * r) / r == d
  {
    var q := (d * r) / r;
    var m := (d * r) % r;
    assert d * r == q * r + m;
    assert (d - q) * r == m by {
      assert (d - q) * r == d * r - q * r;
    }
    OnlyZeroMultiple(d - q, r, m);
  }

  /** Euclidean division by a positive number is monotone. */
  lemma DivMonotone(a: int, b: int, r: int)
    requires a <= b && r > 0
    ensures a / r <= b / r
  {
    var qa, ma := a / r, a % r;
    var qb, mb := b / r, b % r;
    assert a == qa * r + ma && b == qb * r + mb;
    if qa > qb {
      assert (qa - qb) * r == qa * r - qb * r;
      assert (qa - qb - 1) * r == (qa - qb) * r - r;
      MulNonNegative(qa - qb - 1, r);
    }
  }

  /** The interpolation term of scaleSize with a positive range: 0 at the lower end, d at
      the upper end, in between otherwise when d is not negative. */
  lemma ScaleFacts(d: int, offset: int, range: int)
    requires range > 0
    ensures JavaDiv(d * 0, range) == 0
    ensures JavaDiv(d * range, range) == d
    ensures d >= 0 && 0 <= offset <= range ==> 0 <= JavaDiv(d * offset, range) <= d
  {
    assert d * 0 == 0;
    if d >= 0 {
      MulDivCancel(d, range);
      MulDivCancel(0, range);
      if 0 <= offset <= range {
        assert d * range - d * offset == d * (range - offset);
        MulNonNegative(d, range - offset);
        MulNonNegative(d, offset);
        DivMonotone(d * offset, d * range, range);
        DivMonotone(0, d * offset, range);
      }
    } else {
      MulDivCancel(-d, range);
      assert d * range == -((-d) * range);
    }
  }

  /** With a proper range and fontMin <= fontMax, a larger count never gets a smaller
      font. */
  lemma ScaleSizeMonotone(fontMax: int, fontMin: int, count1: int, count2: int, countMin: int, countMax: int)
    requires countMin < countMax && fontMin <= fontMax
    requires countMin <= count1 <= count2
    ensures ScaleSize(fontMax, fontMin, count1, countMin, countMax)
            <= ScaleSize(fontMax, fontMin, count2, countMin, countMax)
  {
    var d := fontMax - fontMin;
    var r := countMax - countMin;
    assert d * (count2 - countMin) - d * (count1 - countMin) == d * (count2 - count1);
    MulNonNegative(d, count2 - count1);
    MulNonNegative(d, count1 - countMin);
    DivMonotone(d * (count1 - countMin), d * (count2 - countMin), r);
  }
}
