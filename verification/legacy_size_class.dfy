/** The older copy of the size helpers, with string-valued classes. */
module LegacySizeClass {
  import BarSize

  const W_COMPACT: real := 112.0
  const W_ULTRA: real := 72.0
  const W_TINY: real := 44.0

  /** The older `BAR_MIN_WIDTH` table, kept as its own copy. */
  function LegacyBarMinWidth(kind: BarSize.BarKind): BarSize.MinWidths {
    match kind
    case Plan => BarSize.MinWidths(10.0, 6.0)
    case Fact => BarSize.MinWidths(8.0, 4.0)
  }

  function MinBarWidth(kind: BarSize.BarKind, isMobile: bool): (w: real)
    ensures w > 0.0
  {
    var m := LegacyBarMinWidth(kind);
    if isMobile then m.mobile else m.desktop
  }

  /** Every width gets exactly one of "tiny", "ultra", "compact" and "". */
  function GetBarSizeClass(width: real): (c: string)
    ensures c in ["tiny", "ultra", "compact", ""]
    ensures c == "tiny" <==> width < 44.0
    ensures c == "ultra" <==> 44.0 <= width < 72.0
    ensures c == "compact" <==> 72.0 <= width < 112.0
    ensures c == "" <==> 112.0 <= width
  {
    if width < W_TINY then "tiny"
    else if width < W_ULTRA then "ultra"
    else if width < W_COMPACT then "compact"
    else ""
  }

  /** The two classifiers agree on every width, through the enum's string values. */
  lemma LegacyClassAgrees(width: real)
    ensures GetBarSizeClass(width) == BarSize.GetBarSizeClass(width).CssName()
  {
  }

  /** The two minimum-width tables are identical for both kinds and both layouts. */
  lemma LegacyMinWidthAgrees(kind: BarSize.BarKind, isMobile: bool)
    ensures MinBarWidth(kind, isMobile) == BarSize.MinBarWidth(kind, isMobile)
  {
  }
}
