/**
 * Colour choice of `create_icon`: the light and dark variants use the same
 * two colours, macOS system orange and black, with background and text swapped.
 */
module Colors {
  /** One 8-bit colour channel. */
  type Channel = c: int | 0 <= c < 256

  datatype Rgb = Rgb(r: Channel, g: Channel, b: Channel)

  /** macOS system orange. */
  const Orange: Rgb := Rgb(255, 149, 0)
  const Black: Rgb := Rgb(0, 0, 0)

  /** The two colours an icon is drawn with. */
  datatype Palette = Palette(background: Rgb, text: Rgb)

  /**
   * Dark mode: black background, orange text; light mode: the reverse.
   * Each mode uses both colours, one for each role.
   */
  function SelectPalette(darkMode: bool): (p: Palette)
    ensures {p.background, p.text} == {Orange, Black}
    ensures p.background != p.text
    ensures p.background == Black <==> darkMode
    ensures p.text == Orange <==> darkMode
  {
    Palette(if darkMode then Black else Orange, if darkMode then Orange else Black)
  }

  /** The two modes swap the roles of the same two colours. */
  lemma ModesSwapColors()
    ensures SelectPalette(true).background == SelectPalette(false).text
    ensures SelectPalette(true).text == SelectPalette(false).background
    ensures SelectPalette(true) != SelectPalette(false)
  {
  }
}
