/** The class palette of the mask converters and the fixed colours. */
module Palette {
  import opened Buffers

  /** An 8-bit RGBA colour (CLASS_COLORS_I8, WHITE_I8). */
  datatype Color8 = Color8(r: byte, g: byte, b: byte, a: byte)

  /** A colour with channels in [0, 1] (foxglove Color); exact reals stand for doubles. */
  datatype ColorF = ColorF(r: real, g: real, b: real, a: real)

  /** The 21-entry class palette; entry 0, the background, is fully transparent black. */
  const ClassColors8: seq<Color8> := [
    Color8(0, 0, 0, 0),
    Color8(230, 25, 75, 200),
    Color8(60, 180, 75, 200),
    Color8(255, 225, 25, 200),
    Color8(0, 130, 200, 200),
    Color8(245, 130, 48, 200),
    Color8(145, 30, 180, 200),
    Color8(70, 240, 240, 200),
    Color8(240, 50, 230, 200),
    Color8(210, 245, 60, 200),
    Color8(250, 190, 212, 200),
    Color8(0, 128, 128, 200),
    Color8(220, 190, 255, 200),
    Color8(170, 110, 40, 200),
    Color8(255, 250, 200, 200),
    Color8(128, 0, 0, 200),
    Color8(170, 255, 195, 200),
    Color8(128, 128, 0, 200),
    Color8(255, 215, 180, 200),
    Color8(0, 0, 128, 200),
    Color8(128, 128, 128, 200)
  ]

  const White8: Color8 := Color8(255, 255, 255, 255)
  const White: ColorF := ColorF(1.0, 1.0, 1.0, 1.0)
  const Transparent: ColorF := ColorF(1.0, 1.0, 1.0, 0.0)

  /** An 8-bit colour scaled into [0, 1] (CLASS_COLORS_F is built this way). */
  function Unit(c: Color8): ColorF {
    ColorF(c.r as real / 255.0, c.g as real / 255.0, c.b as real / 255.0, c.a as real / 255.0)
  }

  /** `CLASS_COLORS_I8[c] ?? WHITE_I8` */
  function ClassColor8(c: nat): Color8 {
    if c < |ClassColors8| then ClassColors8[c] else White8
  }

  /** `CLASS_COLORS_F[c] ?? WHITE` */
  function ClassColorF(c: nat): ColorF {
    if c < |ClassColors8| then Unit(ClassColors8[c]) else White
  }

  /**
   * The float palette and the 8-bit palette name the same colour for every
   * class index, including the white fallback past the end of both.
   */
  lemma ClassColorsAgree(c: nat)
    ensures ClassColorF(c) == Unit(ClassColor8(c))
    ensures c == 0 ==> ClassColor8(c) == Color8(0, 0, 0, 0)
    ensures 0 < c < 21 ==> ClassColor8(c).a == 200
    ensures 21 <= c ==> ClassColor8(c) == White8 && ClassColorF(c) == White
  {
  }
}
