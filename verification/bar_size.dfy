/** Bar size classes and the minimum bar widths of the timeline. */
module BarSize {

  /** Rendering-detail tiers; `CssName` is the enum's string value. */
  datatype SizeClass = Default | Compact | Ultra | Tiny {

    function CssName(): string {
      match this
      case Default => ""
      case Compact => "compact"
      case Ultra => "ultra"
      case Tiny => "tiny"
    }

    /** Position in the order Tiny < Ultra < Compact < Default. */
    function Rank(): nat {
      match this
      case Tiny => 0
      case Ultra => 1
      case Compact => 2
      case Default => 3
    }
  }

  const WIDTH_TINY: real := 44.0
  const WIDTH_ULTRA: real := 72.0
  const WIDTH_COMPACT: real := 112.0

  /** The tier of a bar `widthPx` pixels wide. */
  function GetBarSizeClass(widthPx: real): (c: SizeClass)
    ensures c == Tiny <==> widthPx < 44.0
    ensures c == Ultra <==> 44.0 <= widthPx < 72.0
    ensures c == Compact <==> 72.0 <= widthPx < 112.0
    ensures c == Default <==> 112.0 <= widthPx
  {
    if widthPx < WIDTH_TINY then Tiny
    else if widthPx < WIDTH_ULTRA then Ultra
    else if widthPx < WIDTH_COMPACT then Compact
    else Default
  }

  /** A wider bar never gets a lower tier. */
  lemma SizeClassMonotone(w1: real, w2: real)
    requires w1 <= w2
    ensures GetBarSizeClass(w1).Rank() <= GetBarSizeClass(w2).Rank()
  {
  }

  /** The four enum string values are distinct, so the name identifies the tier. */
  lemma CssNameInjective(a: SizeClass, b: SizeClass)
    ensures a.CssName() == b.CssName() <==> a == b
  {
  }

  datatype BarKind = Plan | Fact

  datatype MinWidths = MinWidths(mobile: real, desktop: real)

  /** The `BAR_MIN_WIDTH` table. */
  function BarMinWidth(kind: BarKind): MinWidths {
    match kind
    case Plan => MinWidths(10.0, 6.0)
    case Fact => MinWidths(8.0, 4.0)
  }

  /** The floor for a bar of this kind in the current layout. */
  function MinBarWidth(kind: BarKind, isMobile: bool): (w: real)
    ensures w > 0.0
  {
    var m := BarMinWidth(kind);
    if isMobile then m.mobile else m.desktop
  }

  /** Plan bars 10 (mobile) / 6 (desktop), fact bars 8 / 4; the mobile floor is never the smaller one. */
  lemma MinBarWidthTable(kind: BarKind)
    ensures MinBarWidth(Plan, true) == 10.0 && MinBarWidth(Plan, false) == 6.0
    ensures MinBarWidth(Fact, true) == 8.0 && MinBarWidth(Fact, false) == 4.0
    ensures MinBarWidth(kind, true) >= MinBarWidth(kind, false)
  {
  }
}
