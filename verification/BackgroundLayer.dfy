/** The geometry of one background-image layer (src/box_style.c, bx_lp_px, bg_size_component and
  * bx_background_layer; sections 3.6 and 3.9 of CSS Backgrounds 3), over the reals.
  */
module BackgroundLayer {
  import opened Wrappers

  const LEN_UNSET := -2147483648
  const LEN_AUTO := -2147483647
  const LEN_END := -2147483646
  const LEN_MIN_CONTENT := -2147483645
  const LEN_MAX_CONTENT := -2147483644
  const LEN_FIT_CONTENT := -2147483643

  const BGS_COVER := 2
  const BGS_CONTAIN := 3

  predicate IsIntrinsic(v: int) {
    v == LEN_MIN_CONTENT || v == LEN_MAX_CONTENT || v == LEN_FIT_CONTENT
  }

  // The absolute half of a <length-percentage>; a sentinel states none.
  function AbsolutePx(px: int): real {
    if px == LEN_UNSET || px == LEN_AUTO || px == LEN_END then 0.0 else px as real
  }

  // bx_lp_px: the px half plus pm per-mille of the basis, if the basis is a usable length.
  function LpPx(px: int, pm: int, basis: real): real {
    if pm == 0 then AbsolutePx(px)
    else if !(basis > 0.0) then AbsolutePx(px)
    else AbsolutePx(px) + basis * pm as real / 1000.0
  }

  datatype Layer = Layer(
    natW: real, natH: real,
    areaW: real, areaH: real,
    sizeKw: int,
    sizeW: int, sizeH: int, sizeWPm: int, sizeHPm: int,
    posX: int, posY: int, posXPm: int, posYPm: int
  )

  datatype Placed = Placed(w: real, h: real, x: real, y: real)

  // One size component, or -1 for auto.
  function SizeComponent(px: int, pm: int, area: real): real {
    if pm != 0 then LpPx(px, pm, area)
    else if px == LEN_AUTO || px == LEN_UNSET || IsIntrinsic(px) then -1.0
    else px as real
  }

  function Scale(l: Layer): real
    requires l.natW > 0.0 && l.natH > 0.0
  {
    var rx, ry := l.areaW / l.natW, l.areaH / l.natH;
    if l.sizeKw == BGS_COVER then (if rx > ry then rx else ry) else if rx < ry then rx else ry
  }

  predicate KeywordSized(l: Layer) {
    l.sizeKw == BGS_COVER || l.sizeKw == BGS_CONTAIN
  }

  function Scaled(size: real, s: real): real { size * s }

  // The other dimension of an image `a` wide (or high) in the ratio b : c.
  function InRatio(a: real, b: real, c: real): real
    requires c != 0.0
  {
    a * b / c
  }

  // The used image size, before it is checked.
  function ImageSize(l: Layer): (real, real)
    requires l.natW > 0.0 && l.natH > 0.0
  {
    if KeywordSized(l) then (Scaled(l.natW, Scale(l)), Scaled(l.natH, Scale(l)))
    else
      var cw, ch := SizeComponent(l.sizeW, l.sizeWPm, l.areaW), SizeComponent(l.sizeH, l.sizeHPm, l.areaH);
      if cw < 0.0 && ch < 0.0 then (l.natW, l.natH)
      else if ch < 0.0 then (cw, InRatio(cw, l.natH, l.natW))
      else if cw < 0.0 then (InRatio(ch, l.natW, l.natH), ch)
      else (cw, ch)
  }

  // Where the image goes and how big it is; None when some size is not usable.
  function Place(l: Layer): Option<Placed> {
    if !(l.natW > 0.0) || !(l.natH > 0.0) || !(l.areaW > 0.0) || !(l.areaH > 0.0) then None
    else
      var (iw, ih) := ImageSize(l);
      if !(iw > 0.0) || !(ih > 0.0) then None
      else Some(Placed(iw, ih,
                       LpPx(if l.posX == LEN_UNSET then 0 else l.posX, l.posXPm, l.areaW - iw),
                       LpPx(if l.posY == LEN_UNSET then 0 else l.posY, l.posYPm, l.areaH - ih)))
  }

  // The four variables of the caller that bx_background_layer writes.
  class Geometry {
    var w: real
    var h: real
    var x: real
    var y: real

    function Model(): Placed
      reads this
    {
      Placed(w, h, x, y)
    }
  }

  // bx_background_layer. A missing argument, or a size that is not usable, writes nothing.
  method PlaceLayer(layer: Option<Layer>, out: Geometry?) returns (ok: bool)
    modifies if out == null then {} else {out}
    ensures ok <==> layer.Some? && out != null && Place(layer.value).Some?
    ensures ok ==> out.Model() == Place(layer.value).value
    ensures out != null && !ok ==> out.Model() == old(out.Model())
  {
    hide ImageSize, LpPx;
    if layer.None? || out == null {
      return false;
    }
    var l := layer.value;
    if !(l.natW > 0.0) || !(l.natH > 0.0) || !(l.areaW > 0.0) || !(l.areaH > 0.0) {
      return false;
    }
    var iw, ih := UsedSize(l);
    if !(iw > 0.0) || !(ih > 0.0) {
      return false;
    }
    var ox := LpPx(if l.posX == LEN_UNSET then 0 else l.posX, l.posXPm, l.areaW - iw);
    var oy := LpPx(if l.posY == LEN_UNSET then 0 else l.posY, l.posYPm, l.areaH - ih);
    out.w, out.h := iw, ih;
    out.x, out.y := ox, oy;
    return true;
  }

  method UsedScale(l: Layer) returns (s: real)
    requires l.natW > 0.0 && l.natH > 0.0
    ensures s == Scale(l)
  {
    var rx, ry := l.areaW / l.natW, l.areaH / l.natH;
    if l.sizeKw == BGS_COVER {
      s := if rx > ry then rx else ry;
    } else {
      s := if rx < ry then rx else ry;
    }
  }

  // The size bx_background_layer computes before it checks it.
  method UsedSize(l: Layer) returns (iw: real, ih: real)
    requires l.natW > 0.0 && l.natH > 0.0
    ensures (iw, ih) == ImageSize(l)
  {
    hide SizeComponent, Scale, InRatio, Scaled;
    if KeywordSized(l) {
      var s := UsedScale(l);
      return Scaled(l.natW, s), Scaled(l.natH, s);
    }
    var cw, ch := SizeComponent(l.sizeW, l.sizeWPm, l.areaW), SizeComponent(l.sizeH, l.sizeHPm, l.areaH);
    if cw < 0.0 && ch < 0.0 {
      iw, ih := l.natW, l.natH;
    } else if ch < 0.0 {
      iw, ih := cw, InRatio(cw, l.natH, l.natW);
    } else if cw < 0.0 {
      iw, ih := InRatio(ch, l.natW, l.natH), ch;
    } else {
      iw, ih := cw, ch;
    }
  }

  // A layer is skipped exactly when the image or the area is empty, or an explicit size has a component of 0.
  // In particular cover and contain never compute an unusable size.
  lemma SkippedIff(l: Layer)
    ensures Place(l).None? <==>
            || l.natW <= 0.0 || l.natH <= 0.0 || l.areaW <= 0.0 || l.areaH <= 0.0
            || (!KeywordSized(l) && (SizeComponent(l.sizeW, l.sizeWPm, l.areaW) == 0.0 || SizeComponent(l.sizeH, l.sizeHPm, l.areaH) == 0.0))
  {
    hide ImageSize, LpPx, SizeComponent;
    if l.natW > 0.0 && l.natH > 0.0 && l.areaW > 0.0 && l.areaH > 0.0 {
      if KeywordSized(l) {
        KeywordSizeIsPositive(l);
      } else {
        ExplicitSizeIsPositiveIff(l);
      }
    }
  }

  lemma KeywordSizeIsPositive(l: Layer)
    requires KeywordSized(l) && l.natW > 0.0 && l.natH > 0.0 && l.areaW > 0.0 && l.areaH > 0.0
    ensures ImageSize(l).0 > 0.0 && ImageSize(l).1 > 0.0
  {
    QuotientTimes(l.areaW, l.natW);
    QuotientTimes(l.areaH, l.natH);
    assert Scale(l) > 0.0;
    hide Scale;
    ScaledIsPositive(l.natW, Scale(l));
    ScaledIsPositive(l.natH, Scale(l));
  }

  lemma ExplicitSizeIsPositiveIff(l: Layer)
    requires !KeywordSized(l) && l.natW > 0.0 && l.natH > 0.0
    ensures ImageSize(l).0 > 0.0 && ImageSize(l).1 > 0.0 <==>
            SizeComponent(l.sizeW, l.sizeWPm, l.areaW) != 0.0 && SizeComponent(l.sizeH, l.sizeHPm, l.areaH) != 0.0
  {
    hide SizeComponent, InRatio;
    var cw, ch := SizeComponent(l.sizeW, l.sizeWPm, l.areaW), SizeComponent(l.sizeH, l.sizeHPm, l.areaH);
    if ch < 0.0 && cw > 0.0 {
      InRatioIsPositive(cw, l.natH, l.natW);
    } else if cw < 0.0 && ch > 0.0 {
      InRatioIsPositive(ch, l.natW, l.natH);
    }
  }

  lemma InRatioIsPositive(a: real, b: real, c: real)
    requires a > 0.0 && b > 0.0 && c > 0.0
    ensures InRatio(a, b, c) > 0.0
  {
    ScaledIsPositive(a, b);
    QuotientTimes(a * b, c);
  }

  lemma ScaledIsPositive(size: real, s: real)
    requires size > 0.0
    ensures s > 0.0 ==> size * s > 0.0
  {
  }

  /* ---------- sizing ---------- */

  lemma QuotientTimes(a: real, b: real)
    requires b > 0.0
    ensures b * (a / b) == a
    ensures a > 0.0 ==> a / b > 0.0
  {
  }

  lemma ProductOrder(b: real, p: real, q: real)
    requires b > 0.0
    ensures p <= q ==> b * p <= b * q
  {
    if p <= q {
      assert b * (q - p) >= 0.0;
    }
  }

  // cover and contain scale both dimensions alike; cover leaves no gap and contain no overflow, and each
  // touches the area's edge in one dimension at least.
  lemma KeywordFits(l: Layer)
    requires KeywordSized(l) && Place(l).Some?
    ensures var p := Place(l).value;
            && p.w == l.natW * Scale(l) && p.h == l.natH * Scale(l)
            && (l.sizeKw == BGS_COVER ==> p.w >= l.areaW && p.h >= l.areaH)
            && (l.sizeKw == BGS_CONTAIN ==> p.w <= l.areaW && p.h <= l.areaH)
            && (p.w == l.areaW || p.h == l.areaH)
  {
    var rx, ry, s := l.areaW / l.natW, l.areaH / l.natH, Scale(l);
    QuotientTimes(l.areaW, l.natW);
    QuotientTimes(l.areaH, l.natH);
    ProductOrder(l.natW, rx, s);
    ProductOrder(l.natW, s, rx);
    ProductOrder(l.natH, ry, s);
    ProductOrder(l.natH, s, ry);
  }

  // In the terms of the declaration: for cover and contain (2 and 3) the layer is always placed.
  lemma CoverAndContain(l: Layer)
    requires (l.sizeKw == 2 || l.sizeKw == 3) && l.natW > 0.0 && l.natH > 0.0 && l.areaW > 0.0 && l.areaH > 0.0
    ensures Place(l).Some?
    ensures var p := Place(l).value;
            && p.w * l.natH == p.h * l.natW
            && (l.sizeKw == 2 ==> p.w >= l.areaW && p.h >= l.areaH)
            && (l.sizeKw == 3 ==> p.w <= l.areaW && p.h <= l.areaH)
            && (p.w == l.areaW || p.h == l.areaH)
  {
    hide ImageSize, LpPx;
    SkippedIff(l);
    KeywordFits(l);
    hide Scale;
    var k := Scale(l);
    assert l.natW * k * l.natH == l.natH * k * l.natW;
  }

  // An explicit size gives the dimensions it states; an auto one follows from the image's own ratio, and two
  // are the image's own size.
  lemma ExplicitSizeFollowsRatio(l: Layer)
    requires !KeywordSized(l) && Place(l).Some?
    ensures var p := Place(l).value;
            var cw, ch := SizeComponent(l.sizeW, l.sizeWPm, l.areaW), SizeComponent(l.sizeH, l.sizeHPm, l.areaH);
            && (cw >= 0.0 ==> p.w == cw) && (ch >= 0.0 ==> p.h == ch)
            && (cw < 0.0 || ch < 0.0 ==> p.w * l.natH == p.h * l.natW)
            && (cw < 0.0 && ch < 0.0 ==> p.w == l.natW && p.h == l.natH)
  {
    var cw, ch := SizeComponent(l.sizeW, l.sizeWPm, l.areaW), SizeComponent(l.sizeH, l.sizeHPm, l.areaH);
    hide SizeComponent, LpPx;
    if cw < 0.0 && ch < 0.0 {
    } else if ch < 0.0 {
      QuotientTimes(cw * l.natH, l.natW);
    } else {
      QuotientTimes(ch * l.natW, l.natH);
    }
  }

  // A declared component: percentages of the area, which a px part adds to, and px otherwise. The three sentinels
  // for no length add nothing to a percentage.
  function Declared(px: int, pm: int, area: real): real {
    if pm == 0 then px as real
    else (if px in {-2147483648, -2147483647, -2147483646} then 0.0 else px as real) + area * pm as real / 1000.0
  }

  // auto, undeclared, and the intrinsic keywords; a percentage is never one of them.
  predicate IsAutoSize(px: int, pm: int) {
    pm == 0 && (px in {-2147483648, -2147483647} || -2147483645 <= px <= -2147483643)
  }

  // Explicit sizes, in the terms of the declaration: a positive declared component is used as it is, an auto one
  // follows from the other by the image's ratio, and two are the image's own size.
  lemma DeclaredSizeIsUsed(l: Layer)
    requires l.sizeKw != 2 && l.sizeKw != 3 && l.natW > 0.0 && l.natH > 0.0 && l.areaW > 0.0 && l.areaH > 0.0
    requires IsAutoSize(l.sizeW, l.sizeWPm) || Declared(l.sizeW, l.sizeWPm, l.areaW) > 0.0
    requires IsAutoSize(l.sizeH, l.sizeHPm) || Declared(l.sizeH, l.sizeHPm, l.areaH) > 0.0
    ensures Place(l).Some?
    ensures var p := Place(l).value;
            && (!IsAutoSize(l.sizeW, l.sizeWPm) ==> p.w == Declared(l.sizeW, l.sizeWPm, l.areaW))
            && (!IsAutoSize(l.sizeH, l.sizeHPm) ==> p.h == Declared(l.sizeH, l.sizeHPm, l.areaH))
            && (IsAutoSize(l.sizeW, l.sizeWPm) || IsAutoSize(l.sizeH, l.sizeHPm) ==> p.w * l.natH == p.h * l.natW)
            && (IsAutoSize(l.sizeW, l.sizeWPm) && IsAutoSize(l.sizeH, l.sizeHPm) ==> p.w == l.natW && p.h == l.natH)
  {
    ComponentIsDeclared(l.sizeW, l.sizeWPm, l.areaW);
    ComponentIsDeclared(l.sizeH, l.sizeHPm, l.areaH);
    hide SizeComponent, Declared, IsAutoSize;
    SkippedIff(l);
    ExplicitSizeFollowsRatio(l);
  }

  lemma ComponentIsDeclared(px: int, pm: int, area: real)
    requires area > 0.0
    ensures SizeComponent(px, pm, area) == if IsAutoSize(px, pm) then -1.0 else Declared(px, pm, area)
  {
  }

  /* ---------- positioning ---------- */

  // The rule the header states: the offset is (area - image) * pct + px.
  function StatedOffset(px: int, pm: int, area: real, image: real): real {
    (area - image) * pm as real / 1000.0 + AbsolutePx(px)
  }

  // The code follows it exactly when the image is no larger than the area or there is no percentage: for a
  // larger image the resolver drops the percentage, because its basis is negative.
  lemma OffsetFollowsRuleIff(px: int, pm: int, area: real, image: real)
    ensures LpPx(px, pm, area - image) == StatedOffset(px, pm, area, image) <==> image <= area || pm == 0
  {
    var free := area - image;
    if free < 0.0 && pm != 0 {
      NonZeroProduct(free, pm as real);
    }
  }

  // The same on a whole layer, axis by axis.
  lemma LayerFollowsRuleIff(l: Layer)
    requires Place(l).Some?
    ensures var p := Place(l).value;
            && (p.x == StatedOffset(l.posX, l.posXPm, l.areaW, p.w) <==> p.w <= l.areaW || l.posXPm == 0)
            && (p.y == StatedOffset(l.posY, l.posYPm, l.areaH, p.h) <==> p.h <= l.areaH || l.posYPm == 0)
  {
    hide ImageSize;
    var p := Place(l).value;
    OffsetFollowsRuleIff(l.posX, l.posXPm, l.areaW, p.w);
    OffsetFollowsRuleIff(l.posY, l.posYPm, l.areaH, p.h);
  }

  lemma NonZeroProduct(x: real, y: real)
    requires x < 0.0 && y != 0.0
    ensures x * y / 1000.0 != 0.0
  {
    if y > 0.0 {
      assert x * y < 0.0;
    } else {
      assert x * y > 0.0;
    }
  }

  // Centring a 200px image in a 100px area should start it at -50; the code starts it at 0.
  lemma OversizedCentring()
    ensures LpPx(0, 500, 100.0 - 200.0) == 0.0
    ensures StatedOffset(0, 500, 100.0, 200.0) == -50.0
  {
  }

  // On a whole layer: a percentage aligns that fraction of the image with the same fraction of the area, in
  // both directions, as long as the image fits.
  lemma PercentageAligns(l: Layer)
    requires Place(l).Some? && Place(l).value.w <= l.areaW && Place(l).value.h <= l.areaH
    requires (l.posX == LEN_UNSET || l.posX == 0) && (l.posY == LEN_UNSET || l.posY == 0)
    ensures var p := Place(l).value;
            && p.x + p.w * l.posXPm as real / 1000.0 == l.areaW * l.posXPm as real / 1000.0
            && p.y + p.h * l.posYPm as real / 1000.0 == l.areaH * l.posYPm as real / 1000.0
  {
    var p := Place(l).value;
    OffsetFollowsRuleIff(0, l.posXPm, l.areaW, p.w);
    OffsetFollowsRuleIff(0, l.posYPm, l.areaH, p.h);
    Distribute(l.areaW, p.w, l.posXPm as real);
    Distribute(l.areaH, p.h, l.posYPm as real);
  }

  lemma Distribute(a: real, b: real, c: real)
    ensures (a - b) * c == a * c - b * c
  {
  }
}
