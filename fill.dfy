/**
 * The squircle background of `create_icon`: a size x size RGBA buffer,
 * transparent at first, in which every pixel whose mask byte is strictly
 * above 128 is set to the background colour, fully opaque.
 * Pixel (x, y) of an image is `img[x, y]`.
 */
module Fill {
  import opened Colors

  datatype Rgba = Rgba(r: Channel, g: Channel, b: Channel, a: Channel)

  /** The initial value of every pixel of a new image. */
  const Transparent: Rgba := Rgba(0, 0, 0, 0)

  /** A mask byte must be strictly above this to count as inside the shape. */
  const Threshold: int := 128

  /** A colour with full opacity. */
  function Opaque(c: Rgb): (p: Rgba)
    ensures p != Transparent && p.a == 255
  {
    Rgba(c.r, c.g, c.b, 255)
  }

  /** A new size x size image, every pixel transparent. */
  method NewImage(size: nat) returns (img: array2<Rgba>)
    ensures fresh(img)
    ensures img.Length0 == size && img.Length1 == size
    ensures forall x, y :: 0 <= x < size && 0 <= y < size ==> img[x, y] == Transparent
  {
    img := new Rgba[size, size]((x, y) => Transparent);
  }

  /**
   * The nested loop over the buffer: each pixel whose mask byte is above the
   * threshold becomes the opaque background colour; every other pixel keeps
   * the value it had.
   */
  method FillBackground(background: array2<Rgba>, mask: array2<Channel>, size: nat, bg: Rgb)
    requires background.Length0 == size && background.Length1 == size
    requires mask.Length0 == size && mask.Length1 == size
    modifies background
    ensures forall x, y :: 0 <= x < size && 0 <= y < size ==>
      (mask[x, y] > Threshold ==> background[x, y] == Opaque(bg)) &&
      (mask[x, y] <= Threshold ==> background[x, y] == old(background[x, y]))
  {
    for y := 0 to size
      invariant forall x', y' :: 0 <= x' < size && 0 <= y' < size ==>
        if y' < y then
          (mask[x', y'] > Threshold ==> background[x', y'] == Opaque(bg)) &&
          (mask[x', y'] <= Threshold ==> background[x', y'] == old(background[x', y']))
        else
          background[x', y'] == old(background[x', y'])
    {
      for x := 0 to size
        invariant forall x', y' :: 0 <= x' < size && 0 <= y' < size ==>
          if y' < y || (y' == y && x' < x) then
            (mask[x', y'] > Threshold ==> background[x', y'] == Opaque(bg)) &&
            (mask[x', y'] <= Threshold ==> background[x', y'] == old(background[x', y']))
          else
            background[x', y'] == old(background[x', y'])
      {
        if mask[x, y] > Threshold {
          background[x, y] := Opaque(bg);
        }
      }
    }
  }

  /**
   * A new transparent image filled through the mask: pixel (x, y) is the
   * opaque background colour exactly when its mask byte is above the
   * threshold, and transparent otherwise (so a mask byte of exactly 128
   * stays transparent).
   */
  method RenderBackground(mask: array2<Channel>, size: nat, bg: Rgb) returns (background: array2<Rgba>)
    requires mask.Length0 == size && mask.Length1 == size
    ensures fresh(background)
    ensures background.Length0 == size && background.Length1 == size
    ensures forall x, y :: 0 <= x < size && 0 <= y < size ==>
      (background[x, y] == Opaque(bg) <==> mask[x, y] > Threshold)
    ensures forall x, y :: 0 <= x < size && 0 <= y < size ==>
      (background[x, y] == Transparent <==> mask[x, y] <= Threshold)
  {
    background := NewImage(size);
    FillBackground(background, mask, size, bg);
  }
}
