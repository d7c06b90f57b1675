# Tavern app-icon generator: a Dafny model

`scripts/generate_icon.py` draws the Tavern macOS app icon, an orange or black
squircle with the letters "JT", in a light and a dark variant. It also writes
the asset catalog's `Contents.json` manifest. This project models the integer
and data-structure work in that script and proves what it promises:

- **Colours** (`Colors`): `create_icon` picks a background and a text colour
  from `dark_mode`. Dark mode is black on orange text, light mode the reverse.
  Both modes use the same two colours, and background and text always differ.
- **Background fill** (`Fill`): a `size x size` RGBA buffer (`array2<Rgba>`,
  pixel (x, y) is `img[x, y]`) starts transparent. A nested loop, rows outer
  and columns inner, then paints a pixel opaque in the background colour when
  its mask byte is strictly above 128. Afterwards a pixel is opaque background
  exactly when its mask byte is above 128. Otherwise it is still
  `(0, 0, 0, 0)`, so a mask byte of exactly 128 stays transparent. Each pixel
  depends only on its own mask byte, so the result is fully determined by the
  mask and the colour, and repeating the render gives the same image.
- **Text centring** (`Centering`): the draw origin comes from the label's
  bounding box `(left, top, right, bottom)` by floor division. For a positive
  divisor, Python's `//` is Dafny's `/` on `int`. A box no larger than the
  canvas stays on the canvas, and its two margins differ by at most one.
  Vertically the box's top offset is subtracted, so the drawn text is centred.
  Horizontally the left offset is not subtracted, and the lemma
  `InkHorizontallyCentredIff` shows that the drawn text is centred exactly
  when that offset is 0. Otherwise it sits off centre by the offset.
- **Icon composition** (`Icon`): `create_icon` chooses the palette, fills
  the background and computes the label's origin and colour.
- **Manifest** (`Manifest`): `main` loops over 5 sizes x 2 scales and appends
  a light entry, then a dark one, then wraps the list with
  `info = {author: "xcode", version: 1}`. The manifest has 20 entries. It is
  ordered by size, then scale, with the light entry right before the dark one.
  Every (size, scale) pair has exactly one light entry, which has no
  appearance condition, and exactly one dark entry, which has the
  `luminosity = dark` condition. Every entry has idiom `mac`. The referenced
  files are exactly the two files written. An entry is shown under the dark
  appearance exactly when its file was rendered in dark mode.

Inputs the script gets from elsewhere are parameters here. The squircle mask
is an `array2` of bytes 0..255, and the label's bounding box is a `BBox`.
The lemmas about where the drawn text lands assume one thing about the font
renderer: drawing at origin `o` moves the box measured at (0, 0) by `o`.

The comment at `scripts/generate_icon.py:122` calls the dark icon the "any"
appearance, but the code at lines 144-157 puts the light icon under "any" (no
condition) and the dark icon under `luminosity = dark`. The model follows the code.

## Model

| member | source | states |
|---|---|---|
| `Colors.SelectPalette` | scripts/generate_icon.py:48-52 | the palette uses orange and black, one per role; background and text differ; the background is black exactly in dark mode and the text is orange exactly in dark mode |
| `Colors.ModesSwapColors` | scripts/generate_icon.py:51-52 | the light and dark palettes swap the same two colours, so they differ |
| `Fill.NewImage` | scripts/generate_icon.py:62 | a fresh `size x size` image whose every pixel is `(0, 0, 0, 0)` |
| `Fill.FillBackground` | scripts/generate_icon.py:66-69 | after the loop, a pixel whose mask byte is above 128 is the opaque background colour, and every other pixel keeps its previous value |
| `Fill.RenderBackground` | scripts/generate_icon.py:62-69 | the result is `size x size`; a pixel is opaque background exactly when its mask byte is above 128, and transparent exactly when the byte is 128 or less |
| `Centering.TextOrigin` | scripts/generate_icon.py:101-106 | x is the floor of half the horizontal slack `size - width`; y + top is the floor of half the vertical slack `size - height` |
| `Centering.HorizontalSpanCentred` | scripts/generate_icon.py:102-105 | for `0 <= width <= size`, the box placed at x is on the canvas and its right margin equals its left margin or exceeds it by 1 |
| `Centering.VerticalSpanCentred` | scripts/generate_icon.py:103-106 | for `0 <= height <= size`, the box's top edge `y + top` and its bottom edge are on the canvas, and the bottom margin equals the top margin or exceeds it by 1 |
| `Centering.InkVerticallyCentred` | scripts/generate_icon.py:103-109 | the drawn text's top and bottom margins differ by at most 1, whatever the box's top offset |
| `Centering.InkHorizontallyCentredIff` | scripts/generate_icon.py:102-109 | the drawn text's left and right margins are balanced if and only if the box's left offset is 0; off balance they differ by twice that offset, up to rounding |
| `Centering.InkOffCentreExample` | scripts/generate_icon.py:105-109 | with box (10, 0, 110, 100) on a 1024 canvas, the drawn text has margins 472 and 452 |
| `Icon.CreateIcon` | scripts/generate_icon.py:39-111 | the image is `size x size` with the fill property for the mode's background colour; the label "JT" is drawn at `TextOrigin` in the mode's text colour, which differs from the background |
| `Manifest.Row` | scripts/generate_icon.py:142-157 | one size contributes two entries per scale |
| `Manifest.Images` | scripts/generate_icon.py:140-157 | the entry list has `2 * |sizes| * |scales|` entries |
| `Manifest.BuildContents` | scripts/generate_icon.py:137-162 | the nested append loop produces exactly `Images(Sizes, Scales)`, which has 20 entries, and the info record is `{author: "xcode", version: 1}` |
| `Manifest.RowAt` | scripts/generate_icon.py:142-157 | within one size, entry `2j` is the light entry for scale j and entry `2j + 1` the dark one |
| `Manifest.ImagesAt` | scripts/generate_icon.py:140-157 | entry `2(i * |scales| + j)` is the light entry of size i and scale j, and the dark entry of the same pair follows it immediately |
| `Manifest.RowMember` | scripts/generate_icon.py:142-157 | an entry is in one size's row exactly when it has that size, a listed scale, and is that pair's light or dark entry |
| `Manifest.ImagesMember` | scripts/generate_icon.py:141-157 | an entry is in the manifest exactly when it has a listed size and a listed scale and is that pair's light or dark entry |
| `Manifest.EntriesWellFormed` | scripts/generate_icon.py:144-157 | every entry has idiom `mac` and names one of the two files; it has no appearance condition exactly when it names the light file, and the dark luminosity condition exactly when it names the dark file |
| `Manifest.ImagesFilenames` | scripts/generate_icon.py:144-157 | a manifest with at least one size and one scale refers to exactly `AppIcon-Dark.png` and `AppIcon-Light.png` |
| `Manifest.RowDistinct` | scripts/generate_icon.py:142-157 | with distinct scales, no entry occurs twice in a row |
| `Manifest.ImagesDistinct` | scripts/generate_icon.py:140-157 | with distinct sizes and scales, no entry occurs twice in the manifest |
| `Manifest.EachPairOnce` | scripts/generate_icon.py:141-157 | with distinct tables, each listed (size, scale) pair has exactly one light and exactly one dark entry |
| `Manifest.TablesDistinct` | scripts/generate_icon.py:137-138 | neither the size table nor the scale table repeats a value |
| `Manifest.ManifestEachPairOnce` | scripts/generate_icon.py:137-157 | each of the 10 fixed (size, scale) pairs has exactly one light and exactly one dark entry |
| `Manifest.ManifestMatchesWrittenIcons` | scripts/generate_icon.py:123-157 | the set of files the manifest refers to equals the set of icon files written |
| `Manifest.DarkEntriesShowDarkIcon` | scripts/generate_icon.py:123-157 | an entry has the dark luminosity condition exactly when its file was rendered in dark mode, that is, with the black background |

## Left out

- The squircle outline (`create_squircle_mask`, lines 13-36) uses `cos`, `sin` and fractional powers, which is floating point. Its polygon rasterisation is done inside the imaging library. The mask is an input of the fill instead. The unused `radius` there has no effect.
- Font loading with its fallback list and warning (lines 74-95) reads files and calls the font library. The font size `int(size * 0.45)` is float arithmetic. The label's bounding box is a font metric, so it is an input.
- Rendering the label (line 109) is not modelled. `Icon.CreateIcon` returns the arguments of that call instead.
- The first image and drawing context of `create_icon` (lines 55-56) and the unused `bg_draw` (line 63) are discarded without effect.
- Directory creation, PNG saving, the JSON text of `Contents.json`, the literal root `Contents.json` (line 169) and all `print` output are file I/O and output formatting. Only the manifest's data structure is modelled.
- `Icon.CreateIcon` and `Fill.NewImage` take `size` as a `nat`, because the imaging library rejects a negative size and the script only ever passes 1024.
