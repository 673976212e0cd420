/** One animated tile: the image it shows plus its position, box, scale and opacity. */
module Items {
  import opened Config
  import opened Numeric

  /** A pixel dimension of a decoded image; decoded images are never empty. */
  type Dim = n: int | n >= 1 witness 1

  /** A decoded image, reduced to its pixel size (the pixels are never inspected by the core). */
  datatype Image = Image(width: Dim, height: Dim)

  /**
   * The animation state of one item. Positions and scales are the program's floats,
   * taken here as exact reals; `w`/`h` is the integer box the layout assigns.
   */
  datatype Item = Item(
    image: Image,
    x: real, y: real,
    tx: real, ty: real,
    w: int, h: int,
    scale: real, targetScale: real,
    alpha: int,
    eliminated: bool)

  /** A freshly constructed item: at the origin, 100x100 box, unscaled, opaque, in play. */
  function NewItem(img: Image): (it: Item)
    ensures Pristine(it) && AlphaInv(it)
    ensures it.image == img && it.w == INITIAL_BOX && it.h == INITIAL_BOX
    ensures it.tx == it.x && it.ty == it.y
  {
    Item(img, 0.0, 0.0, 0.0, 0.0, INITIAL_BOX, INITIAL_BOX, 1.0, 1.0, OPAQUE, false)
  }

  /** The item is exactly as the constructor leaves it, apart from the layout fields. */
  predicate Pristine(it: Item)
  {
    && it.x == 0.0 && it.y == 0.0
    && it.scale == 1.0 && it.targetScale == 1.0
    && it.alpha == OPAQUE && !it.eliminated
  }

  /**
   * The opacity invariant every item keeps: an item in play is fully opaque,
   * an eliminated one sits between the fade floor and full opacity.
   */
  predicate AlphaInv(it: Item)
  {
    && (!it.eliminated ==> it.alpha == OPAQUE)
    && (it.eliminated ==> FADE_ALPHA <= it.alpha <= OPAQUE)
  }

  /** One frame of the fade: a clamped decrement toward the fade floor, only while eliminated. */
  function Fade(alpha: int, eliminated: bool): (a: int)
    ensures !eliminated ==> a == alpha
    ensures a <= alpha
    ensures alpha >= FADE_ALPHA ==> a >= FADE_ALPHA
    ensures alpha <= FADE_ALPHA ==> a == alpha
    ensures eliminated && alpha > FADE_ALPHA ==> a < alpha && alpha - a <= FADE_SPEED
  {
    if eliminated && alpha > FADE_ALPHA then Max(FADE_ALPHA, alpha - FADE_SPEED) else alpha
  }

  /** Exponential easing of `v` toward `target` by the fraction `rate`. */
  function Approach(v: real, target: real, rate: real): (r: real)
    requires 0.0 < rate < 1.0
    ensures v <= target ==> v <= r <= target
    ensures target <= v ==> target <= r <= v
    ensures r == target <==> v == target
  {
    v + Shrink(target - v, rate)
  }

  /** A gap `d` multiplied by a rate strictly between 0 and 1: same sign, smaller magnitude. */
  function Shrink(d: real, rate: real): (p: real)
    requires 0.0 < rate < 1.0
    ensures d > 0.0 ==> 0.0 < p < d
    ensures d < 0.0 ==> d < p < 0.0
    ensures d == 0.0 ==> p == 0.0
  {
    if d > 0.0 then
      PositiveProduct(d, rate);
      PositiveProduct(d, 1.0 - rate);
      d * rate
    else if d < 0.0 then
      PositiveProduct(-d, rate);
      PositiveProduct(-d, 1.0 - rate);
      d * rate
    else
      d * rate
  }


  /** One frame of `Item.update`: ease position and scale, fade if eliminated. */
  function Update(it: Item): (u: Item)
    ensures u.image == it.image && u.eliminated == it.eliminated
    ensures u.tx == it.tx && u.ty == it.ty && u.targetScale == it.targetScale
    ensures u.w == it.w && u.h == it.h
    ensures it.x <= it.tx ==> it.x <= u.x <= it.tx
    ensures it.tx <= it.x ==> it.tx <= u.x <= it.x
    ensures it.y <= it.ty ==> it.y <= u.y <= it.ty
    ensures it.ty <= it.y ==> it.ty <= u.y <= it.y
    ensures it.scale <= it.targetScale ==> it.scale <= u.scale <= it.targetScale
    ensures it.targetScale <= it.scale ==> it.targetScale <= u.scale <= it.scale
    ensures u.alpha == Fade(it.alpha, it.eliminated)
    ensures AlphaInv(it) ==> AlphaInv(u)
  {
    it.(x := Approach(it.x, it.tx, MOVE_SPEED),
        y := Approach(it.y, it.ty, MOVE_SPEED),
        scale := Approach(it.scale, it.targetScale, SCALE_SPEED),
        alpha := Fade(it.alpha, it.eliminated))
  }

  /** `n` consecutive frames of `Update`. */
  function UpdateN(it: Item, n: nat): Item
    decreases n
  {
    if n == 0 then it else UpdateN(Update(it), n - 1)
  }

  /** Once eliminated, after `n` frames the opacity is `max(floor, alpha - 12 n)`. */
  lemma {:induction false} FadeClosedForm(it: Item, n: nat)
    requires it.eliminated && it.alpha >= FADE_ALPHA
    ensures UpdateN(it, n).alpha == Max(FADE_ALPHA, it.alpha - FADE_SPEED * n)
    ensures UpdateN(it, n).eliminated
    decreases n
  {
    if n > 0 {
      var u := Update(it);
      FadeClosedForm(u, n - 1);
      assert UpdateN(it, n) == UpdateN(u, n - 1);
    }
  }

  /** Fading is monotone over any number of frames and never passes the floor. */
  lemma FadeMonotone(it: Item, m: nat, n: nat)
    requires it.eliminated && it.alpha >= FADE_ALPHA && m <= n
    ensures FADE_ALPHA <= UpdateN(it, n).alpha <= UpdateN(it, m).alpha <= it.alpha
  {
    FadeClosedForm(it, m);
    FadeClosedForm(it, n);
  }

  /** A loser at full opacity reaches the fade floor on exactly the 20th frame. */
  lemma FadeSettlesAfterTwentyFrames(it: Item)
    requires it.eliminated && it.alpha == OPAQUE
    ensures UpdateN(it, 19).alpha > FADE_ALPHA
    ensures forall n: nat :: n >= 20 ==> UpdateN(it, n).alpha == FADE_ALPHA
  {
    FadeClosedForm(it, 19);
    forall n: nat | n >= 20
      ensures UpdateN(it, n).alpha == FADE_ALPHA
    {
      FadeClosedForm(it, n);
    }
  }
}
