/** "Contain" fitting of an image inside an item's box (`scale_contain`). */
module Contain {
  import opened Wrappers
  import opened Numeric
  import opened Items

  /**
   * The box is wider than the image: `max_w / max_h > iw / ih`, decided by
   * cross-multiplication, whose direction flips when the box height is negative.
   */
  predicate BoxWider(maxW: int, maxH: int, iw: Dim, ih: Dim)
    requires maxH != 0
  {
    if maxH > 0 then maxW * ih > iw * maxH else maxW * ih < iw * maxH
  }

  /**
   * `scale_contain`: a box wider than the image keeps the box height and truncates
   * the proportional width; otherwise it keeps the box width and truncates the
   * proportional height. A zero box height divides by zero.
   */
  function ScaleContain(img: Image, maxW: int, maxH: int): (r: Result<(int, int)>)
    ensures r.Failure? <==> maxH == 0
    ensures r.Failure? ==> r.error == ZeroDivisionError
    ensures r.Success? && BoxWider(maxW, maxH, img.width, img.height) ==> r.value.1 == maxH
    ensures r.Success? && !BoxWider(maxW, maxH, img.width, img.height) ==> r.value.0 == maxW
  {
    if maxH == 0 then Failure(ZeroDivisionError)
    else if BoxWider(maxW, maxH, img.width, img.height) then
      Success((WideWidth(img.width, img.height, maxH), maxH))
    else
      Success((maxW, TallHeight(img.width, img.height, maxW)))
  }

  /**
   * For a proper box (non-negative width, positive height) the contained size
   * fits the box and keeps the image's aspect ratio up to truncation.
   */
  lemma ScaleContainFits(img: Image, maxW: int, maxH: int)
    requires maxW >= 0 && maxH > 0
    ensures ScaleContain(img, maxW, maxH).Success?
    ensures Fits(ScaleContain(img, maxW, maxH).value, maxW, maxH)
    ensures KeepsAspect(ScaleContain(img, maxW, maxH).value, img)
  {
    if BoxWider(maxW, maxH, img.width, img.height) {
      WideFits(img.width, img.height, maxW, maxH);
    } else {
      TallFits(img.width, img.height, maxW, maxH);
    }
  }

  /** `int(max_h * r)`: the width that goes with the full box height. */
  function WideWidth(iw: Dim, ih: Dim, maxH: int): int
  {
    TruncDiv(maxH * iw, ih)
  }

  /** `int(max_w / r)`: the height that goes with the full box width. */
  function TallHeight(iw: Dim, ih: Dim, maxW: int): int
  {
    TruncDiv(maxW * ih, iw)
  }

  lemma WideFits(iw: Dim, ih: Dim, maxW: int, maxH: int)
    requires maxH > 0 && maxW >= 0 && maxW * ih > iw * maxH
    ensures Fits((WideWidth(iw, ih, maxH), maxH), maxW, maxH)
    ensures KeepsAspect((WideWidth(iw, ih, maxH), maxH), Image(iw, ih))
  {
    var w := WideWidth(iw, ih, maxH);
    assert w * ih <= maxH * iw < maxW * ih;
    CancelStrict(w, maxW, ih);
  }

  lemma TallFits(iw: Dim, ih: Dim, maxW: int, maxH: int)
    requires maxH > 0 && maxW >= 0 && maxW * ih <= iw * maxH
    ensures Fits((maxW, TallHeight(iw, ih, maxW)), maxW, maxH)
    ensures KeepsAspect((maxW, TallHeight(iw, ih, maxW)), Image(iw, ih))
  {
    var h := TallHeight(iw, ih, maxW);
    NonNegProduct(maxW, ih);
    assert h * iw <= maxW * ih <= maxH * iw;
    Cancel(h, maxH, iw);
  }

  /** The drawn size lies inside the box. */
  predicate Fits(size: (int, int), maxW: int, maxH: int)
  {
    0 <= size.0 <= maxW && 0 <= size.1 <= maxH
  }

  /**
   * The size has the image's aspect ratio up to the truncation of one side:
   * `w / h` is within one pixel of `iw / ih` along the truncated axis.
   */
  predicate KeepsAspect(size: (int, int), img: Image)
  {
    var (w, h) := size;
    var (iw, ih) := (img.width as int, img.height as int);
    || (w * ih <= h * iw < w * ih + ih)
    || (h * iw <= w * ih < h * iw + iw)
  }
}
