/**
 * `create_icon` as far as it is integer and buffer work: choose the
 * palette, fill the squircle background through the mask, and compute the
 * origin and colour of the "JT" caption. The mask (the rasterised squircle) and
 * the caption's bounding box (a font metric) come in as inputs; the caption's
 * rendering itself is not modelled, so the call to the text renderer is
 * returned as its arguments.
 */
module Icon {
  import opened Colors
  import opened Fill
  import opened Centering

  /** The caption that `create_icon` draws. */
  const Label: string := "JT"

  /** The arguments of the text-drawing call: where, what and in which colour. */
  datatype TextDraw = TextDraw(origin: Point, text: string, fill: Rgb)

  method CreateIcon(size: nat, darkMode: bool, mask: array2<Channel>, bbox: BBox)
    returns (img: array2<Rgba>, caption: TextDraw)
    requires mask.Length0 == size && mask.Length1 == size
    ensures fresh(img)
    ensures img.Length0 == size && img.Length1 == size
    ensures forall x, y :: 0 <= x < size && 0 <= y < size ==>
      (img[x, y] == Opaque(SelectPalette(darkMode).background) <==> mask[x, y] > Threshold)
    ensures forall x, y :: 0 <= x < size && 0 <= y < size ==>
      (img[x, y] == Transparent <==> mask[x, y] <= Threshold)
    ensures caption.origin == TextOrigin(size, bbox)
    ensures caption.text == Label
    ensures caption.fill == SelectPalette(darkMode).text
    ensures caption.fill != SelectPalette(darkMode).background
  {
    var palette := SelectPalette(darkMode);
    img := RenderBackground(mask, size, palette.background);
    caption := TextDraw(TextOrigin(size, bbox), Label, palette.text);
  }
}
