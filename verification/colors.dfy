/** Colours as System.Drawing represents them (alpha, red, green, blue
    bytes), their packed ARGB key, and the ColorWrapper that the catalogue
    is deserialised into (ColorMatcher.Logic/ColorWrapper.cs). */
module Colors {

  type byte = x: int | 0 <= x < 256

  /** A packed ARGB value read as an unsigned 32-bit number. `ColorCatalogue`
      keys its exact index by the signed `Color.ToArgb()`; the two are in
      bijection and keys are only compared for equality. */
  type Argb = x: nat | x < 0x1_0000_0000

  datatype Color = Color(a: byte, r: byte, g: byte, b: byte)

  /** `Color.Empty`, the colour a default-constructed wrapper holds. */
  const Empty: Color := Color(0, 0, 0, 0)

  /** `Color.ToArgb()`: alpha in the top byte, blue in the bottom byte. */
  function Pack(c: Color): Argb
  {
    ((c.a * 0x100 + c.r) * 0x100 + c.g) * 0x100 + c.b
  }

  /** `Color.FromArgb(int)`: splits a packed value back into its bytes. */
  function Unpack(x: Argb): Color
  {
    Color(x / 0x100 / 0x100 / 0x100, x / 0x100 / 0x100 % 0x100, x / 0x100 % 0x100, x % 0x100)
  }

  lemma SplitByte(hi: nat, lo: byte)
    ensures (hi * 0x100 + lo) / 0x100 == hi
    ensures (hi * 0x100 + lo) % 0x100 == lo
  {
  }

  /** Unpacking a packed colour gives the colour back. */
  lemma UnpackPack(c: Color)
    ensures Unpack(Pack(c)) == c
  {
    var x := Pack(c);
    SplitByte((c.a * 0x100 + c.r) * 0x100 + c.g, c.b);
    SplitByte(c.a * 0x100 + c.r, c.g);
    SplitByte(c.a, c.r);
  }

  /** Two colours share a packed key exactly when they are equal, alpha
      included: the packed value is a faithful exact-index key. */
  lemma PackInjective(c1: Color, c2: Color)
    ensures Pack(c1) == Pack(c2) <==> c1 == c2
  {
    if Pack(c1) == Pack(c2) {
      UnpackPack(c1);
      UnpackPack(c2);
    }
  }

  /** R+G+B, the key of the bucket index. */
  function RgbSum(c: Color): (s: int)
    ensures 0 <= s <= 765
  {
    c.r + c.g + c.b
  }

  // ColorWrapper

  datatype ColorWrapper = ColorWrapper(color: Color)

  /** The parameterless constructor used by the deserialiser: until a
      channel setter runs, the wrapper holds the fully transparent black
      `Color.Empty`, whose packed key is 0. */
  function DefaultWrapper(): (w: ColorWrapper)
    ensures w.color.a == 0 && Red(w) == 0 && Green(w) == 0 && Blue(w) == 0
    ensures Pack(w.color) == 0
  {
    ColorWrapper(Empty)
  }

  function Red(w: ColorWrapper): byte { w.color.r }
  function Green(w: ColorWrapper): byte { w.color.g }
  function Blue(w: ColorWrapper): byte { w.color.b }

  /** `SetColor` replaces the wrapped colour by an opaque one. */
  function SetColor(red: byte, green: byte, blue: byte): (w: ColorWrapper)
    ensures w.color.a == 255
    ensures Red(w) == red && Green(w) == green && Blue(w) == blue
  {
    ColorWrapper(Color(255, red, green, blue))
  }

  function SetRed(w: ColorWrapper, v: byte): (w': ColorWrapper)
    ensures Red(w') == v && Green(w') == Green(w) && Blue(w') == Blue(w)
    ensures w'.color.a == 255
  {
    SetColor(v, Green(w), Blue(w))
  }

  function SetGreen(w: ColorWrapper, v: byte): (w': ColorWrapper)
    ensures Green(w') == v && Red(w') == Red(w) && Blue(w') == Blue(w)
    ensures w'.color.a == 255
  {
    SetColor(Red(w), v, Blue(w))
  }

  function SetBlue(w: ColorWrapper, v: byte): (w': ColorWrapper)
    ensures Blue(w') == v && Red(w') == Red(w) && Green(w') == Green(w)
    ensures w'.color.a == 255
  {
    SetColor(Red(w), Green(w), v)
  }

  /** The colour constructor keeps the colour, alpha included, and the
      getters read its channels. */
  lemma WrapperKeepsColor(c: Color)
    ensures ColorWrapper(c).color == c
    ensures Red(ColorWrapper(c)) == c.r && Green(ColorWrapper(c)) == c.g && Blue(ColorWrapper(c)) == c.b
  {
  }

  /** A wrapper built by setting the three channels, whatever it held
      before and in each of the six orders the channels can arrive in, holds
      the opaque colour with exactly those channels: every wrapper on which
      a channel setter ran has alpha 255. */
  lemma SettersBuildOpaqueColor(w: ColorWrapper, red: byte, green: byte, blue: byte)
    ensures SetBlue(SetGreen(SetRed(w, red), green), blue).color == Color(255, red, green, blue)
    ensures SetGreen(SetBlue(SetRed(w, red), blue), green).color == Color(255, red, green, blue)
    ensures SetBlue(SetRed(SetGreen(w, green), red), blue).color == Color(255, red, green, blue)
    ensures SetRed(SetBlue(SetGreen(w, green), blue), red).color == Color(255, red, green, blue)
    ensures SetGreen(SetRed(SetBlue(w, blue), red), green).color == Color(255, red, green, blue)
    ensures SetRed(SetGreen(SetBlue(w, blue), green), red).color == Color(255, red, green, blue)
  {
  }
}
