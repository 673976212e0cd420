/**
 * The float arithmetic of `scale_contain` on exact rationals, and the proof that
 * the integer version in `Contain` computes exactly the same sizes.
 */
module ContainExact {
  import opened Wrappers
  import opened Numeric
  import opened Items
  import opened Contain

  /** The float `iw / ih`, taken exactly. */
  function Ratio(img: Image): (r: real)
    ensures r > 0.0
  {
    img.width as real / img.height as real
  }

  /** Exact division, named so that the division is a term quantifier triggers can match. */
  function Quotient(a: real, b: real): real
    requires b != 0.0
  {
    a / b
  }

  /**
   * Reference definition: the program's own steps on exact rationals, with
   * `r = iw / ih`, the comparison `max_w / max_h > r`, and `int()` truncation.
   */
  function ScaleContainRational(img: Image, maxW: int, maxH: int): Result<(int, int)>
  {
    if maxH == 0 then Failure(ZeroDivisionError)
    else if Quotient(maxW as real, maxH as real) > Ratio(img) then
      Success((Trunc(maxH as real * Ratio(img)), maxH))
    else
      Success((maxW, Trunc(Quotient(maxW as real, Ratio(img)))))
  }

  /** The integer computation is exactly the rational one. */
  lemma ScaleContainExact(img: Image, maxW: int, maxH: int)
    ensures ScaleContain(img, maxW, maxH) == ScaleContainRational(img, maxW, maxH)
  {
    if maxH != 0 {
      if BoxWider(maxW, maxH, img.width, img.height) {
        WideExact(img, maxW, maxH);
      } else {
        TallExact(img, maxW, maxH);
      }
    }
  }

  lemma WideExact(img: Image, maxW: int, maxH: int)
    requires maxH != 0 && BoxWider(maxW, maxH, img.width, img.height)
    ensures ScaleContain(img, maxW, maxH) == ScaleContainRational(img, maxW, maxH)
  {
    ContainWide(img, maxW, maxH);
    BoxWiderExact(maxW, maxH, img);
    TimesRatioExact(maxH, img);
    RationalWide(img, maxW, maxH);
  }

  lemma TallExact(img: Image, maxW: int, maxH: int)
    requires maxH != 0 && !BoxWider(maxW, maxH, img.width, img.height)
    ensures ScaleContain(img, maxW, maxH) == ScaleContainRational(img, maxW, maxH)
  {
    ContainTall(img, maxW, maxH);
    BoxWiderExact(maxW, maxH, img);
    DivByRatioExact(maxW, img);
    RationalTall(img, maxW, maxH);
  }

  lemma ContainWide(img: Image, maxW: int, maxH: int)
    requires maxH != 0 && BoxWider(maxW, maxH, img.width, img.height)
    ensures ScaleContain(img, maxW, maxH) == Success((WideWidth(img.width, img.height, maxH), maxH))
  {
  }

  lemma ContainTall(img: Image, maxW: int, maxH: int)
    requires maxH != 0 && !BoxWider(maxW, maxH, img.width, img.height)
    ensures ScaleContain(img, maxW, maxH) == Success((maxW, TallHeight(img.width, img.height, maxW)))
  {
  }

  lemma RationalWide(img: Image, maxW: int, maxH: int)
    requires maxH != 0 && Quotient(maxW as real, maxH as real) > Ratio(img)
    ensures ScaleContainRational(img, maxW, maxH) == Success((Trunc(maxH as real * Ratio(img)), maxH))
  {
    assert ScaleContainRational(img, maxW, maxH).Success?;
    assert ScaleContainRational(img, maxW, maxH).value.1 == maxH;
    assert ScaleContainRational(img, maxW, maxH).value.0 == Trunc(maxH as real * Ratio(img));
  }

  lemma RationalTall(img: Image, maxW: int, maxH: int)
    requires maxH != 0 && !(Quotient(maxW as real, maxH as real) > Ratio(img))
    ensures ScaleContainRational(img, maxW, maxH) == Success((maxW, Trunc(Quotient(maxW as real, Ratio(img)))))
  {
    assert ScaleContainRational(img, maxW, maxH).Success?;
    assert ScaleContainRational(img, maxW, maxH).value.0 == maxW;
    assert ScaleContainRational(img, maxW, maxH).value.1 == Trunc(Quotient(maxW as real, Ratio(img)));
  }

  /** `int(h * r)` with `r = iw / ih` is the truncating division `(h * iw) / ih`. */
  lemma TimesRatioExact(m: int, img: Image)
    ensures Trunc(m as real * Ratio(img)) == TruncDiv(m * img.width, img.height)
  {
    var iw, ih := img.width as real, img.height as real;
    var a := m as real * Ratio(img);
    var b := (m * img.width) as real / ih;
    TruncDivExact(m * img.width, img.height);
    assert TruncDiv(m * img.width, img.height) == Trunc(b);
    MulDiv(m as real, iw, ih);
    CastMul(m, img.width);
    assert a == b;
  }

  /** `int(w / r)` with `r = iw / ih` is the truncating division `(w * ih) / iw`. */
  lemma DivByRatioExact(m: int, img: Image)
    ensures Trunc(Quotient(m as real, Ratio(img))) == TruncDiv(m * img.height, img.width)
  {
    var iw, ih := img.width as real, img.height as real;
    var a := Quotient(m as real, Ratio(img));
    var b := (m * img.height) as real / iw;
    TruncDivExact(m * img.height, img.width);
    assert TruncDiv(m * img.height, img.width) == Trunc(b);
    DivDiv(m as real, iw, ih);
    CastMul(m, img.height);
    assert a == b;
  }

  /** The cross-multiplied comparison is the rational one. */
  lemma BoxWiderExact(maxW: int, maxH: int, img: Image)
    requires maxH != 0
    ensures BoxWider(maxW, maxH, img.width, img.height) <==> Quotient(maxW as real, maxH as real) > Ratio(img)
  {
    var iw, ih := img.width, img.height;
    var a := Quotient(maxW as real, maxH as real);
    var b := Ratio(img);
    DivMul(maxW as real, maxH as real);
    DivMul(iw as real, ih as real);
    var c := maxH as real * ih as real;
    assert a * maxH as real == maxW as real;
    assert b * ih as real == iw as real;
    assert a * c == maxW as real * ih as real;
    assert b * c == iw as real * maxH as real;
    CastMul(maxW, ih);
    CastMul(iw, maxH);
    if maxH > 0 {
      PositiveProduct(maxH as real, ih as real);
      if a > b {
        MulMonoStrict(b, a, c);
      } else {
        MulMono(a, b, c);
      }
    } else {
      PositiveProduct(-maxH as real, ih as real);
      assert -c > 0.0;
      if a > b {
        MulMonoStrict(b, a, -c);
      } else {
        MulMono(a, b, -c);
      }
    }
  }
}
