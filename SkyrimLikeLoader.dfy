/**
 * The decision logic of the SkyrimLikeLoader React component with its JSX
 * and DOM calls taken away: the random helper, the animation-variant class,
 * the resolution and upper clamp of the progress value, the root class list
 * and the shape of what the component renders. The lifecycle (the unmount
 * timer and the memoised draws) is in module Lifecycle.
 */
module SkyrimLikeLoader {
  import opened Wrappers
  import NumberText

  /** An element passed as `image`; the model needs only whether it is there. */
  datatype Element = Element(name: string)

  /**
   * The props of one render, defaults filled in. `canDelete` is not a value
   * here: module Lifecycle counts its calls.
   */
  datatype Props = Props(
    willUnmount: bool,
    text: string,
    image: Option<Element>,     // None is `null`, Some is an element (always truthy)
    imageStyle: string,         // 'img-half' | 'img-full', interpolated as given
    useLoadPercent: bool,
    percentValue: Option<int>,  // None is `null`
    fullScreen: bool)

  /**
   * The props a host gets by passing only `willUnmount` (and `canDelete`):
   * a full-screen portal with no bar, no image and an empty caption.
   */
  function DefaultProps(willUnmount: bool): (p: Props)
    ensures p.willUnmount == willUnmount
    ensures forall variant: int, fallback: int ::
              Render(p, variant, fallback)
                == Rendered(Portal, Markup(RootClasses(true, willUnmount), None, None, ""))
  {
    Props(willUnmount, "", None, "img-half", false, None, true)
  }

  // ---------------------------------------------------------------- drawing

  /**
   * `randomNumber(max)`, that is `Math.floor(Math.random() * max + 1)`, for the
   * draw `Math.random() == draw / scale`, a number in [0, 1), computed exactly
   * (the source's double rounding of the `+ 1` is not modelled).
   */
  function RandomNumber(max: nat, draw: nat, scale: nat): (k: int)
    requires draw < scale
    ensures 1 <= k
    ensures max >= 1 ==> k <= max
    ensures max == 0 ==> k == 1
  {
    ScaledDrawBelow(max, draw, scale);
    draw * max / scale + 1
  }

  lemma ScaledDrawBelow(max: nat, draw: nat, scale: nat)
    requires draw < scale
    ensures 0 <= draw * max / scale
    ensures max >= 1 ==> draw * max / scale < max
  {
    if max >= 1 {
      var q := draw * max / scale;
      assert q * scale <= draw * max;
      MulLtMono(draw, scale, max);
      MulLtCancel(q, max, scale);
    }
  }

  /**
   * When the resolution of the draw is a multiple of `max`, every k in
   * [1, max] is produced by exactly the `m` draws in [(k-1)*m, k*m): the
   * helper is uniform.
   */
  lemma RandomNumberUniform(max: nat, m: nat, draw: nat, k: int)
    requires max >= 1 && m >= 1 && draw < m * max
    ensures RandomNumber(max, draw, m * max) == k <==> (k - 1) * m <= draw < k * m
  {
    var q := draw / m;
    assert draw == q * m + draw % m;
    assert draw * max == q * (m * max) + (draw % m) * max;
    MulLtMono(draw % m, m, max);
    DivOfQuotient(draw * max, m * max, q, (draw % m) * max);
    assert RandomNumber(max, draw, m * max) == q + 1;
    if (k - 1) * m <= draw < k * m {
      DivOfQuotient(draw, m, k - 1, draw - (k - 1) * m);
    }
    if q == k - 1 {
      assert (k - 1) * m + m == k * m;
    }
  }

  /** Every k in [1, max] is the outcome of some draw once scale >= max. */
  lemma RandomNumberCovers(max: nat, scale: nat, k: int)
    requires 1 <= k <= max <= scale
    ensures exists draw: nat :: draw < scale && RandomNumber(max, draw, scale) == k
  {
    // the least draw with draw * max >= (k - 1) * scale
    var low := (k - 1) * scale;
    var draw := LeastMultipleAbove(low, max);
    var product := draw * max;
    assert k * scale == low + scale;
    MulLeMono(k, max, scale);
    assert product < scale * max;
    MulLtCancel(draw, scale, max);
    DivOfQuotient(product, scale, k - 1, product - low);
    assert RandomNumber(max, draw, scale) == k;
  }

  /** The least n with n * d >= low, for d >= 1. */
  lemma LeastMultipleAbove(low: nat, d: nat) returns (n: nat)
    requires d >= 1
    ensures low <= n * d < low + d
  {
    var top := low + d - 1;
    n := top / d;
    assert top == n * d + top % d;
  }

  lemma MulLeMono(a: int, b: int, c: int)
    requires a <= b && c >= 0
    ensures a * c <= b * c
  {
  }

  lemma MulLtMono(a: int, b: int, c: int)
    requires a < b && c > 0
    ensures a * c < b * c
  {
  }

  lemma MulLtCancel(a: int, b: int, c: int)
    requires c > 0 && a * c < b * c
    ensures a < b
  {
  }

  lemma SmallMultiple(k: int, d: int)
    requires d > 0 && -d < k * d < d
    ensures k == 0
  {
  }

  /** Division recovers the quotient of any decomposition x == q * d + r. */
  lemma DivOfQuotient(x: int, d: int, q: int, r: int)
    requires d > 0 && 0 <= r < d && x == q * d + r
    ensures x / d == q
  {
    var p := x / d;
    assert (p - q) * d == r - x % d;
    SmallMultiple(p - q, d);
  }

  // ---------------------------------------------------- animation variant

  const AnimationPrefix := "skl-animation-"
  const VariantCount := 4

  /** The class `skl-animation-${k}` of the variant numbered k. */
  function AnimationVersion(k: int): (c: string)
    ensures |c| > |AnimationPrefix| && c[..|AnimationPrefix|] == AnimationPrefix
  {
    AnimationPrefix + NumberText.Text(k)
  }

  /** Distinct variant numbers give distinct classes. */
  lemma AnimationVersionInjective(a: int, b: int)
    ensures AnimationVersion(a) == AnimationVersion(b) <==> a == b
  {
    if AnimationVersion(a) == AnimationVersion(b) {
      assert AnimationVersion(a)[|AnimationPrefix|..] == NumberText.Text(a);
      assert AnimationVersion(b)[|AnimationPrefix|..] == NumberText.Text(b);
      NumberText.TextInjective(a, b);
    }
  }

  /** The memoised variant is one of the four classes skl-animation-1 .. -4. */
  lemma VariantIsOneOfFour(draw: nat, scale: nat)
    requires draw < scale
    ensures 1 <= RandomNumber(VariantCount, draw, scale) <= VariantCount
    ensures AnimationVersion(RandomNumber(VariantCount, draw, scale))
      in ["skl-animation-1", "skl-animation-2", "skl-animation-3", "skl-animation-4"]
  {
    var k := RandomNumber(VariantCount, draw, scale);
    assert NumberText.Text(k) == NumberText.Digits(k) == [NumberText.DigitChar(k)];
    if k == 1 {
      assert AnimationVersion(k) == "skl-animation-1";
    } else if k == 2 {
      assert AnimationVersion(k) == "skl-animation-2";
    } else if k == 3 {
      assert AnimationVersion(k) == "skl-animation-3";
    } else {
      assert AnimationVersion(k) == "skl-animation-4";
    }
  }

  // ------------------------------------------------------- progress value

  /** JavaScript truthiness of `percentValue`: `null` and `0` are falsy. */
  predicate Truthy(v: Option<int>): (b: bool)
    ensures !b <==> v == None || v == Some(0)
  {
    v.Some? && v.value != 0
  }

  /**
   * The value `percentValue` holds after lines 47-53: a falsy value is
   * replaced by the memoised fallback when the bar is on, and then anything
   * above 100 becomes 100. There is no lower bound.
   */
  function ResolvedPercent(useLoadPercent: bool, percentValue: Option<int>, fallback: int): (r: Option<int>)
    ensures r.Some? <==> useLoadPercent || percentValue.Some?
    ensures r.Some? ==> r.value <= 100
    ensures Truthy(percentValue) && percentValue.value > 100 ==> r == Some(100)
    ensures Truthy(percentValue) && percentValue.value <= 100 ==> r == percentValue
    ensures useLoadPercent && !Truthy(percentValue) && fallback <= 100 ==> r == Some(fallback)
    ensures !useLoadPercent && !Truthy(percentValue) ==> r == percentValue
  {
    var p := if useLoadPercent && !Truthy(percentValue) then Some(fallback) else percentValue;
    if Truthy(p) && p.value > 100 then Some(100) else p
  }

  /** Lines 47-53 as written: `percentValue` reassigned in place. */
  method ResolvePercent(useLoadPercent: bool, percentValue: Option<int>, fallback: int)
    returns (resolved: Option<int>)
    ensures resolved == ResolvedPercent(useLoadPercent, percentValue, fallback)
  {
    resolved := percentValue;
    if useLoadPercent && !Truthy(resolved) {
      resolved := Some(fallback);
    }
    if Truthy(resolved) && resolved.value > 100 {
      resolved := Some(100);
    }
  }

  /** The style `{width: `${percentValue}%`}` of the filled bar. */
  function WidthStyle(p: Option<int>): (style: string)
    ensures |style| >= 2 && style[|style| - 1] == '%'
    ensures p.Some? ==> NumberText.Parse(style[..|style| - 1]) == p
    ensures p.None? ==> style == "null%"
  {
    if p.Some? then
      NumberText.TextRoundTrip(p.value);
      assert (NumberText.Text(p.value) + "%")[..|NumberText.Text(p.value)|] == NumberText.Text(p.value);
      NumberText.Text(p.value) + "%"
    else "null%"
  }

  /** The width tells the resolved value back exactly. */
  lemma WidthStyleInjective(a: int, b: int)
    ensures WidthStyle(Some(a)) == WidthStyle(Some(b)) <==> a == b
  {
    if WidthStyle(Some(a)) == WidthStyle(Some(b)) {
      var s := WidthStyle(Some(a));
      assert s[..|s| - 1] == NumberText.Text(a);
      assert WidthStyle(Some(b))[..|s| - 1] == NumberText.Text(b);
      NumberText.TextInjective(a, b);
    }
  }

  // ----------------------------------------------------------- class list

  const RootClass := "skyrimLikeLoader"
  const IncludedClass := "skl-included"
  const FullScreenClass := "skl-fullscreen"
  const CloseClass := "skl-close"

  /** The root element's classes, in the order lines 57-60 push them. */
  function RootClasses(fullScreen: bool, willUnmount: bool): (cs: seq<string>)
    ensures 2 <= |cs| <= 3 && cs[0] == RootClass
    ensures FullScreenClass in cs <==> fullScreen
    ensures IncludedClass in cs <==> !fullScreen
    ensures CloseClass in cs <==> willUnmount
    ensures willUnmount ==> cs[|cs| - 1] == CloseClass
    ensures forall i, j :: 0 <= i < j < |cs| ==> cs[i] != cs[j]
  {
    [RootClass] + [if fullScreen then FullScreenClass else IncludedClass]
      + (if willUnmount then [CloseClass] else [])
  }

  /** Lines 57-60 as written: successive pushes onto `classNames`. */
  method BuildClassNames(fullScreen: bool, willUnmount: bool) returns (classNames: seq<string>)
    ensures classNames == RootClasses(fullScreen, willUnmount)
  {
    classNames := [RootClass];
    if !fullScreen {
      classNames := classNames + [IncludedClass];
    }
    if fullScreen {
      classNames := classNames + [FullScreenClass];
    }
    if willUnmount {
      classNames := classNames + [CloseClass];
    }
  }

  // --------------------------------------------------------- render shape

  /** Where the markup goes: `createPortal(…, document.body)` or in place. */
  datatype Target = Portal | Inline

  /** `skyrimLikeLoader_percentLoader` > `_body` > the filled div and its width. */
  datatype ProgressBar = ProgressBar(width: string)

  /** `skyrimLikeLoader_image ${imageStyle} ${animationVersion}` holding the image. */
  datatype ImageBlock = ImageBlock(classes: seq<string>, content: Element)

  /** The root div: its classes, then its optional and fixed children in order. */
  datatype Markup = Markup(
    classes: seq<string>,
    progress: Option<ProgressBar>,
    image: Option<ImageBlock>,
    caption: string)

  datatype Rendered = Rendered(target: Target, markup: Markup)

  const ImageClass := "skyrimLikeLoader_image"

  /**
   * One render of the component for the memoised variant number and
   * fallback value. The two return statements of the source are kept as
   * two branches; they differ only in the target.
   */
  function Render(props: Props, variant: int, fallback: int): (out: Rendered)
    ensures out.target == Portal <==> props.fullScreen
    ensures out.markup.classes == RootClasses(props.fullScreen, props.willUnmount)
    ensures out.markup.progress.Some? <==> props.useLoadPercent
    ensures props.useLoadPercent ==>
              (exists w: int :: w <= 100
                 && ResolvedPercent(true, props.percentValue, fallback) == Some(w)
                 && out.markup.progress == Some(ProgressBar(NumberText.Text(w) + "%")))
    ensures out.markup.image.Some? <==> props.image.Some?
    ensures props.image.Some? ==>
              out.markup.image == Some(ImageBlock([ImageClass, props.imageStyle, AnimationVersion(variant)], props.image.value))
    ensures out.markup.caption == props.text
  {
    var percent := ResolvedPercent(props.useLoadPercent, props.percentValue, fallback);
    var loaderStyles := WidthStyle(percent);
    var classNames := RootClasses(props.fullScreen, props.willUnmount);
    var animationVersion := AnimationVersion(variant);
    if props.fullScreen then
      Rendered(Portal, Markup(classNames,
        if props.useLoadPercent then Some(ProgressBar(loaderStyles)) else None,
        if props.image.Some? then Some(ImageBlock([ImageClass, props.imageStyle, animationVersion], props.image.value)) else None,
        props.text))
    else
      Rendered(Inline, Markup(classNames,
        if props.useLoadPercent then Some(ProgressBar(loaderStyles)) else None,
        if props.image.Some? then Some(ImageBlock([ImageClass, props.imageStyle, animationVersion], props.image.value)) else None,
        props.text))
  }

  /** Both branches render the same children; only target and one class differ. */
  lemma BranchesRenderSameChildren(props: Props, variant: int, fallback: int)
    ensures var portal := Render(props.(fullScreen := true), variant, fallback).markup;
            var inline := Render(props.(fullScreen := false), variant, fallback).markup;
            portal.progress == inline.progress && portal.image == inline.image
            && portal.caption == inline.caption
            && portal.classes[0] == inline.classes[0]
            && portal.classes[2..] == inline.classes[2..]
  {
  }

  /** A value of 150 in a full-screen overlay: the bar is clamped to 100%. */
  lemma FullScreenClampScenario(variant: int, fallback: int)
    ensures Render(Props(false, "Loading...", None, "img-half", true, Some(150), true), variant, fallback)
      == Rendered(Portal, Markup([RootClass, FullScreenClass], Some(ProgressBar("100%")), None, "Loading..."))
  {
    assert NumberText.Digits(1) == "1";
    assert NumberText.Digits(10) == NumberText.Digits(1) + "0";
    assert NumberText.Digits(100) == NumberText.Digits(10) + "0";
    assert NumberText.Text(100) == "100";
    assert ResolvedPercent(true, Some(150), fallback) == Some(100);
    assert WidthStyle(Some(100)) == "100%";
    assert RootClasses(true, false) == [RootClass, FullScreenClass];
  }
}
