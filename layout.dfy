/** The integer geometry of `add_text_to_image` in
    xfce/.wallpapers/wallBing.py: where the caption goes and the backing
    rectangle drawn behind it. Decoding the image, loading the font,
    wrapping and measuring the text are outside the model; the measured
    bounding box is a parameter. */
module CaptionLayout {

  /** A rectangle as PIL gives and takes it: (x0, y0, x1, y1). */
  datatype Box = Box(x0: int, y0: int, x1: int, y1: int) {
    function Width(): int { x1 - x0 }
    function Height(): int { y1 - y0 }
  }

  /** Where the text is drawn and the rectangle behind it. */
  datatype Placement = Placement(x: int, y: int, text: Box, backing: Box)

  /** The margin the backing rectangle adds on every side of the text. */
  const BackingMargin: int := 5

  /** `outer` holds `inner` with at least `m` to spare on every side. */
  predicate Surrounds(outer: Box, inner: Box, m: int) {
    outer.x0 + m <= inner.x0 && outer.y0 + m <= inner.y0
    && inner.x1 + m <= outer.x1 && inner.y1 + m <= outer.y1
  }

  /** Caption placement for an image of width x height pixels and text whose
      measured bounding box, taken at the origin, is `measured`. The text
      box here is the one the script computes: it starts at the point the
      text is drawn from and has the measured size; the drawn glyphs may
      sit lower within it by the measured box's own top offset. */
  function Place(width: nat, height: nat, measured: Box): (p: Placement)
    ensures 20 * p.x <= width < 20 * p.x + 20
    ensures p.text.x0 == p.x && p.text.y0 == p.y
    ensures p.text.Width() == measured.Width() && p.text.Height() == measured.Height()
    ensures var gap := height - p.text.y1; 2 * gap <= p.x < 2 * gap + 2
    ensures p.backing.Width() == p.text.Width() + 2 * BackingMargin
    ensures p.backing.Height() == p.text.Height() + 2 * BackingMargin
    ensures Surrounds(p.backing, p.text, BackingMargin)
  {
    var horizontalPadding := width / 20;
    var verticalPadding := horizontalPadding / 2;
    var textWidth := measured.x1 - measured.x0;
    var textHeight := measured.y1 - measured.y0;
    var x := horizontalPadding;
    var y := height - textHeight - verticalPadding;
    Placement(x, y,
              Box(x, y, x + textWidth, y + textHeight),
              Box(x - 5, y - 5, x + textWidth + 5, y + textHeight + 5))
  }

  /** On an image at least 200 pixels wide the vertical padding is at least
      the margin, so the backing rectangle stays inside the image whenever
      the text fits to the right of its padding and above it. */
  lemma BackingInsideImage(width: nat, height: nat, measured: Box)
    requires width >= 200 && measured.Width() >= 0 && measured.Height() >= 0
    requires width / 20 + measured.Width() + BackingMargin <= width
    requires measured.Height() + width / 40 + BackingMargin <= height
    ensures Surrounds(Box(0, 0, width, height), Place(width, height, measured).backing, 0)
  {
    var p := Place(width, height, measured);
    assert p.x == width / 20 && p.x >= 10;
    assert (width / 20) / 2 == width / 40;
  }
}
