/** The WS2812B wire encoding over SPI: every colour bit becomes one SPI byte
    whose duty cycle the LED reads as a 1 or a 0. */
module Ws2812 {
  import opened Colors

  /** Number of LEDs on the disc. */
  const LED_COUNT: nat := 61
  /** SPI clock used for the LEDs, in Hz. */
  const WS2812B_SPI_SPEED: nat := 2500000
  /** SPI byte for a WS2812 "1": 0b11100000. */
  const HIGH: Byte := 0xE0
  /** SPI byte for a WS2812 "0": 0b10000000. */
  const LOW: Byte := 0x80
  /** SPI bytes per LED: 3 channels of 8 bits. */
  const BYTES_PER_LED: nat := 24
  /** Size of the kernel's spidev transfer buffer. */
  const SPI_BUFFER_SIZE: nat := 20480

  function Pow2(k: nat): (p: nat)
    ensures p >= 1
  {
    if k == 0 then 1 else 2 * Pow2(k - 1)
  }

  /** Bit k of v is set: the test v & (1 << k) != 0, written arithmetically. */
  predicate BitSet(v: Byte, k: nat)
  {
    (v / Pow2(k)) % 2 == 1
  }

  /** The arithmetic bit test agrees with the source's bitwise test v & (1 << k) != 0. */
  lemma BitSetMatchesAnd(v: Byte, k: nat)
    requires k < 8
    ensures BitSet(v, k) <==> ((v as bv8) & ((1 as bv8) << k)) != 0
  {
    PowersOfTwo();
    assert Pow2(0) == 1 && Pow2(1) == 2 && Pow2(2) == 4 && Pow2(3) == 8;
    assert Pow2(4) == 16 && Pow2(5) == 32 && Pow2(6) == 64;
  }

  /** The SPI byte that carries bit k of v. */
  function BitByte(v: Byte, k: nat): Byte
  {
    if BitSet(v, k) then HIGH else LOW
  }

  /** One channel, most significant bit first. */
  function EncodeChannel(v: Byte): (s: seq<Byte>)
    ensures |s| == 8
  {
    seq(8, i requires 0 <= i < 8 => BitByte(v, 7 - i))
  }

  /** One colour as 24 SPI bytes, channel order green, red, blue. */
  function Encode(c: Color): (s: seq<Byte>)
    ensures |s| == BYTES_PER_LED
  {
    EncodeChannel(c.g) + EncodeChannel(c.r) + EncodeChannel(c.b)
  }

  /** Every byte of an encoding is one of the two waveform bytes. */
  lemma EncodeOnlyWaveformBytes(c: Color)
    ensures forall i :: 0 <= i < |Encode(c)| ==> Encode(c)[i] == HIGH || Encode(c)[i] == LOW
  {
  }

  /** The channel order and the bit order of the encoding. */
  lemma EncodeLayout(c: Color, i: nat)
    requires i < 8
    ensures Encode(c)[i] == HIGH <==> BitSet(c.g, 7 - i)
    ensures Encode(c)[8 + i] == HIGH <==> BitSet(c.r, 7 - i)
    ensures Encode(c)[16 + i] == HIGH <==> BitSet(c.b, 7 - i)
  {
  }

  /** Byte i of a channel's encoding is HIGH exactly when v & (1 << (7 - i)) is non-zero. */
  lemma EncodeChannelBitwise(v: Byte, i: nat)
    requires i < 8
    ensures EncodeChannel(v)[i] == HIGH <==> ((v as bv8) & ((1 as bv8) << (7 - i))) != 0
  {
    BitSetMatchesAnd(v, 7 - i);
  }

  /** EncodeLayout in the source's own terms, with the bitwise test of each channel. */
  lemma EncodeLayoutBitwise(c: Color, i: nat)
    requires i < 8
    ensures Encode(c)[i] == HIGH <==> ((c.g as bv8) & ((1 as bv8) << (7 - i))) != 0
    ensures Encode(c)[8 + i] == HIGH <==> ((c.r as bv8) & ((1 as bv8) << (7 - i))) != 0
    ensures Encode(c)[16 + i] == HIGH <==> ((c.b as bv8) & ((1 as bv8) << (7 - i))) != 0
  {
    assert Encode(c)[i] == EncodeChannel(c.g)[i];
    assert Encode(c)[8 + i] == EncodeChannel(c.r)[i];
    assert Encode(c)[16 + i] == EncodeChannel(c.b)[i];
    EncodeChannelBitwise(c.g, i);
    EncodeChannelBitwise(c.r, i);
    EncodeChannelBitwise(c.b, i);
  }

  /** Reads SPI bytes back as bits, most significant first: HIGH is 1, anything else 0. */
  function DecodeBits(s: seq<Byte>): (v: nat)
    ensures v < Pow2(|s|)
  {
    if s == [] then 0
    else 2 * DecodeBits(s[..|s| - 1]) + (if s[|s| - 1] == HIGH then 1 else 0)
  }

  /** Reads 24 SPI bytes back as a colour, channel order green, red, blue. */
  function Decode(s: seq<Byte>): Color
    requires |s| == BYTES_PER_LED
  {
    PowersOfTwo();
    Color(DecodeBits(s[8..16]), DecodeBits(s[..8]), DecodeBits(s[16..24]))
  }

  lemma PowersOfTwo()
    ensures Pow2(7) == 128 && Pow2(8) == 256
  {
  }

  /** Dividing by p and then by 2 is dividing by 2p. */
  lemma DivTwice(a: nat, p: nat)
    requires p > 0
    ensures (a / p) / 2 == a / (2 * p)
  {
    var q, r := a / p, a % p;
    var q2, r2 := q / 2, q % 2;
    assert a == q * p + r;
    assert q == 2 * q2 + r2;
    var rest := r2 * p + r;
    assert 0 <= rest < 2 * p by {
      if r2 == 0 { assert rest == r; } else { assert rest == p + r; }
    }
    assert q * p == q2 * (2 * p) + r2 * p by {
      assert q * p == (2 * q2 + r2) * p;
    }
    DivUnique(a, 2 * p, q2, rest);
  }

  lemma DivUnique(a: nat, d: nat, q: int, r: int)
    requires d > 0 && a == q * d + r && 0 <= r < d
    ensures a / d == q
  {
    var q', r' := a / d, a % d;
    assert a == q' * d + r';
    assert (q - q') * d == q * d - q' * d;
    MulSign(q - q', d);
  }

  /** A non-zero multiple of d is at least d away from zero. */
  lemma MulSign(k: int, d: nat)
    requires d > 0
    ensures k >= 1 ==> k * d >= d
    ensures k <= -1 ==> k * d + d <= 0
  {
    if k >= 1 {
      MulAtLeast(k, d);
    } else if k <= -1 {
      MulAtLeast(-k, d);
      assert (-k) * d == -(k * d);
    }
  }

  lemma MulAtLeast(k: int, d: nat)
    requires k >= 1
    ensures k * d >= d
  {
  }

  /** Decoding the first n bytes of a channel's encoding yields its top n bits. */
  lemma {:induction false} DecodeChannelPrefix(v: Byte, n: nat)
    requires n <= 8
    ensures DecodeBits(EncodeChannel(v)[..n]) == v / Pow2(8 - n)
  {
    var s := EncodeChannel(v);
    if n == 0 {
      PowersOfTwo();
      assert s[..0] == [];
    } else {
      var k: nat := 8 - n;
      var t := s[..n];
      assert t[..n - 1] == s[..n - 1];
      assert t[n - 1] == BitByte(v, k);
      DecodeChannelPrefix(v, n - 1);
      assert DecodeBits(t) == 2 * DecodeBits(s[..n - 1]) + (if t[n - 1] == HIGH then 1 else 0);
      assert Pow2(9 - n) == 2 * Pow2(k);
      DivTwice(v, Pow2(k));
      var q := v / Pow2(k);
      assert DecodeBits(s[..n - 1]) == q / 2;
      assert (t[n - 1] == HIGH) == (q % 2 == 1);
    }
  }

  lemma DecodeEncodeChannel(v: Byte)
    ensures DecodeBits(EncodeChannel(v)) == v
  {
    DecodeChannelPrefix(v, 8);
    assert EncodeChannel(v)[..8] == EncodeChannel(v);
  }

  /** Decoding an encoded colour gives the colour back. */
  lemma DecodeEncode(c: Color)
    ensures Decode(Encode(c)) == c
  {
    var s := Encode(c);
    assert s[..8] == EncodeChannel(c.g);
    assert s[8..16] == EncodeChannel(c.r);
    assert s[16..24] == EncodeChannel(c.b);
    DecodeEncodeChannel(c.g);
    DecodeEncodeChannel(c.r);
    DecodeEncodeChannel(c.b);
  }

  /** Distinct colours have distinct encodings. */
  lemma EncodeInjective(x: Color, y: Color)
    requires Encode(x) == Encode(y)
    ensures x == y
  {
    DecodeEncode(x);
    DecodeEncode(y);
  }

  /** encode_color(r, g, b, buffer): fills buffer[offset..offset+24] with the encoding. */
  method EncodeRgb(r: Byte, g: Byte, b: Byte, buffer: array<Byte>, offset: nat)
    requires offset + BYTES_PER_LED <= buffer.Length
    modifies buffer
    ensures buffer[offset..offset + BYTES_PER_LED] == Encode(Color(r, g, b))
    ensures forall p :: 0 <= p < buffer.Length && !(offset <= p < offset + BYTES_PER_LED) ==> buffer[p] == old(buffer[p])
  {
    for i := 0 to 8
      invariant forall q :: offset <= q < offset + i ==> buffer[q] == EncodeChannel(g)[q - offset]
      invariant forall q :: offset + 8 <= q < offset + 8 + i ==> buffer[q] == EncodeChannel(r)[q - offset - 8]
      invariant forall q :: offset + 16 <= q < offset + 16 + i ==> buffer[q] == EncodeChannel(b)[q - offset - 16]
      invariant forall p :: 0 <= p < buffer.Length && !(offset <= p < offset + BYTES_PER_LED) ==> buffer[p] == old(buffer[p])
    {
      buffer[offset + i] := BitByte(g, 7 - i);
      buffer[offset + 8 + i] := BitByte(r, 7 - i);
      buffer[offset + 16 + i] := BitByte(b, 7 - i);
    }
    assert forall q :: offset <= q < offset + BYTES_PER_LED ==> buffer[q] == Encode(Color(r, g, b))[q - offset];
  }

  /** encode_color(c, buffer): the same bytes as EncodeRgb for c's channels. */
  method EncodeColor(c: Color, buffer: array<Byte>, offset: nat)
    requires offset + BYTES_PER_LED <= buffer.Length
    modifies buffer
    ensures buffer[offset..offset + BYTES_PER_LED] == Encode(c)
    ensures forall p :: 0 <= p < buffer.Length && !(offset <= p < offset + BYTES_PER_LED) ==> buffer[p] == old(buffer[p])
  {
    for i := 0 to 8
      invariant forall q :: offset <= q < offset + i ==> buffer[q] == EncodeChannel(c.g)[q - offset]
      invariant forall q :: offset + 8 <= q < offset + 8 + i ==> buffer[q] == EncodeChannel(c.r)[q - offset - 8]
      invariant forall q :: offset + 16 <= q < offset + 16 + i ==> buffer[q] == EncodeChannel(c.b)[q - offset - 16]
      invariant forall p :: 0 <= p < buffer.Length && !(offset <= p < offset + BYTES_PER_LED) ==> buffer[p] == old(buffer[p])
    {
      buffer[offset + i] := BitByte(c.g, 7 - i);
      buffer[offset + 8 + i] := BitByte(c.r, 7 - i);
      buffer[offset + 16 + i] := BitByte(c.b, 7 - i);
    }
    assert forall q :: offset <= q < offset + BYTES_PER_LED ==> buffer[q] == Encode(c)[q - offset];
  }

  /** A whole frame on the wire: the encodings of its LEDs, one after another. */
  function EncodeFrame(f: seq<Color>): (s: seq<Byte>)
    ensures |s| == BYTES_PER_LED * |f|
  {
    if f == [] then [] else EncodeFrame(f[..|f| - 1]) + Encode(f[|f| - 1])
  }

  /** Bytes [24j, 24j+24) of a frame's encoding are the encoding of LED j. */
  lemma {:induction false} EncodeFrameAt(f: seq<Color>, j: nat)
    requires j < |f|
    ensures EncodeFrame(f)[BYTES_PER_LED * j..BYTES_PER_LED * j + BYTES_PER_LED] == Encode(f[j])
  {
    var n := |f| - 1;
    if j < n {
      EncodeFrameAt(f[..n], j);
      assert f[..n][j] == f[j];
    }
  }

  /** Reads a frame back from its bytes, 24 at a time. */
  function DecodeFrame(s: seq<Byte>): (f: seq<Color>)
    requires |s| % BYTES_PER_LED == 0
    ensures BYTES_PER_LED * |f| == |s|
  {
    if s == [] then []
    else DecodeFrame(s[..|s| - BYTES_PER_LED]) + [Decode(s[|s| - BYTES_PER_LED..])]
  }

  /** Decoding a frame's bytes recovers the frame. */
  lemma {:induction false} DecodeEncodeFrame(f: seq<Color>)
    ensures DecodeFrame(EncodeFrame(f)) == f
  {
    if f != [] {
      var n := |f| - 1;
      var s := EncodeFrame(f);
      assert s[..|s| - BYTES_PER_LED] == EncodeFrame(f[..n]);
      assert s[|s| - BYTES_PER_LED..] == Encode(f[n]);
      DecodeEncodeFrame(f[..n]);
      DecodeEncode(f[n]);
      assert f[..n] + [f[n]] == f;
    }
  }

  /** The frame of all LEDs fits the SPI transfer buffer. */
  lemma FrameFitsSpiBuffer()
    ensures LED_COUNT * BYTES_PER_LED < SPI_BUFFER_SIZE
  {
  }
}
