/** The colour value of one LED and its saturating arithmetic (led_color_t). */
module Colors {

  /** An unsigned 8-bit value (uint8_t). */
  type Byte = x: int | 0 <= x < 256

  /** The conversion static_cast<uint8_t> of an int: reduction modulo 2^8.
      Dafny's % is Euclidean, which is exactly the C++ modular conversion,
      negative operands included. */
  function ToUint8(x: int): (b: Byte)
    ensures 0 <= x < 256 ==> b == x
    ensures (x - b) % 256 == 0
  {
    x % 256
  }

  function Min(a: int, b: int): int { if a < b then a else b }

  function Max(a: int, b: int): int { if a < b then b else a }

  /** Three byte channels, red, green and blue. */
  datatype Color = Color(r: Byte, g: Byte, b: Byte)

  const Black: Color := Color(0, 0, 0)

  /** s is the sum a + b clamped at 255: exact when it fits, 255 when it does not. */
  predicate SaturatedSum(a: Byte, b: Byte, s: int)
  {
    (a + b <= 255 ==> s == a + b) && (a + b > 255 ==> s == 255)
  }

  /** s is the difference a - b clamped at 0: exact when it is not negative, 0 otherwise. */
  predicate SaturatedDifference(a: Byte, b: Byte, s: int)
  {
    (a >= b ==> s == a - b) && (a < b ==> s == 0)
  }

  /** operator+: per-channel sum, computed in int, clamped to 255, then cast back to uint8. */
  function Add(x: Color, y: Color): (z: Color)
    ensures SaturatedSum(x.r, y.r, z.r) && SaturatedSum(x.g, y.g, z.g) && SaturatedSum(x.b, y.b, z.b)
    ensures x.r <= z.r && y.r <= z.r && x.g <= z.g && y.g <= z.g && x.b <= z.b && y.b <= z.b
  {
    Color(ToUint8(Min(255, x.r + y.r)), ToUint8(Min(255, x.g + y.g)), ToUint8(Min(255, x.b + y.b)))
  }

  /** operator-: per-channel difference, computed in int, clamped to 0, then cast back to uint8. */
  function Sub(x: Color, y: Color): (z: Color)
    ensures SaturatedDifference(x.r, y.r, z.r) && SaturatedDifference(x.g, y.g, z.g) && SaturatedDifference(x.b, y.b, z.b)
    ensures z.r <= x.r && z.g <= x.g && z.b <= x.b
  {
    Color(ToUint8(Max(0, x.r - y.r)), ToUint8(Max(0, x.g - y.g)), ToUint8(Max(0, x.b - y.b)))
  }

  /** The acceptance test of the random colour source: a drawn colour is kept when the integer
      average of its channels is at least 50, that is, when the channels sum to at least 150. */
  function Accepted(r: Byte, g: Byte, b: Byte): (ok: bool)
    ensures ok <==> r + g + b >= 150
  {
    (r + g + b) / 3 >= 50
  }

  /** Channel-wise maximum, the reference for the add-after-subtract law below. */
  function ChannelMax(x: Color, y: Color): Color
  {
    Color(Max(x.r, y.r), Max(x.g, y.g), Max(x.b, y.b))
  }

  lemma AddCommutes(x: Color, y: Color)
    ensures Add(x, y) == Add(y, x)
  {
  }

  lemma AddBlackIsIdentity(x: Color)
    ensures Add(x, Black) == x && Add(Black, x) == x
  {
  }

  /** Adding to white (255 on a channel) stays white: the sum never wraps round to a small value. */
  lemma AddAbsorbsFull(x: Color, y: Color)
    requires x.r == 255
    ensures Add(x, y).r == 255 && Add(y, x).r == 255
  {
  }

  lemma SubSelfIsBlack(x: Color)
    ensures Sub(x, x) == Black
  {
  }

  lemma SubBlackIsIdentity(x: Color)
    ensures Sub(x, Black) == x && Sub(Black, x) == Black
  {
  }

  /** Subtracting y and adding it back gives the channel-wise maximum of x and y. */
  lemma AddAfterSub(x: Color, y: Color)
    ensures Add(Sub(x, y), y) == ChannelMax(x, y)
  {
  }

  /** Without saturation, adding y and subtracting it again restores x. */
  lemma SubAfterAdd(x: Color, y: Color)
    requires x.r + y.r <= 255 && x.g + y.g <= 255 && x.b + y.b <= 255
    ensures Sub(Add(x, y), y) == x
  {
  }

  /** The worked example: 200 + 100 on the red channel saturates to 255. */
  lemma AddExample()
    ensures Add(Color(200, 0, 0), Color(100, 0, 0)) == Color(255, 0, 0)
  {
  }
}
