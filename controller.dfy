/** LEDController: the frame buffer of the disc, the SPI transmit path and the render loop. */
module Controller {
  import opened Colors
  import opened Ws2812
  import opened Rings

  /** A frame with every LED set to c. */
  function Solid(c: Color): (f: seq<Color>)
    ensures |f| == LED_COUNT && forall i :: 0 <= i < LED_COUNT ==> f[i] == c
  {
    seq(LED_COUNT, _ => c)
  }

  /** The buffers the rings hold when iteration m of a run begins: initial, then the refill
      of the iteration before. */
  function HeldAt(initial: seq<seq<Color>>, refills: seq<seq<seq<Color>>>, m: nat): seq<seq<Color>>
    requires m <= |refills|
  {
    if m == 0 then initial else refills[m - 1]
  }

  /** The byte buffers a run sends: one per iteration, the encoding of the frame composed from
      the buffers the rings hold when that iteration begins. */
  function RenderedFrames(initial: seq<seq<Color>>, refills: seq<seq<seq<Color>>>): (s: seq<seq<Byte>>)
    requires WellShaped(initial) && forall n :: 0 <= n < |refills| ==> WellShaped(refills[n])
    ensures |s| == |refills|
  {
    seq(|refills|, m requires 0 <= m < |refills| => EncodeFrame(Compose(HeldAt(initial, refills, m))))
  }

  /** Extending a prefix of s by one element of s, appended to a log. */
  lemma PrefixStep<T>(log: seq<T>, s: seq<T>, n: nat)
    requires n < |s|
    ensures (log + s[..n]) + [s[n]] == log + s[..n + 1]
  {
  }

  class LedController {
    /** The frame buffer, one colour per LED. */
    const leds: array<Color>
    /** The clock rate the SPI device is opened with. */
    const spiSpeed: nat
    /** Every byte buffer handed to the SPI transfer so far, oldest first. */
    var transferred: seq<seq<Byte>>

    ghost predicate Valid()
      reads this
    {
      leds.Length == LED_COUNT
    }

    /** The controller can drive rings: they form the disc and none shares the frame buffer. */
    ghost predicate Drives(rings: seq<LedRing>)
      reads this, rings
    {
      Valid() && Disc(rings) && forall k :: 0 <= k < |rings| ==> rings[k].leds != leds
    }

    /** spiOpen stands for the SPI device having opened; only then is the disc switched off
        (and the render thread started). */
    constructor (spiOpen: bool)
      ensures Valid() && fresh(leds) && spiSpeed == WS2812B_SPI_SPEED
      ensures spiOpen ==> leds[..] == Solid(Black) && transferred == [EncodeFrame(Solid(Black))]
      ensures !spiOpen ==> transferred == []
    {
      leds := new Color[LED_COUNT](_ => Black);
      spiSpeed := WS2812B_SPI_SPEED;
      transferred := [];
      new;
      if spiOpen {
        Off();
      }
    }

    /** update_leds: encodes the frame LED by LED into a 61 x 24-byte buffer and hands it to the transfer. */
    method UpdateLeds()
      requires Valid()
      modifies this`transferred
      ensures transferred == old(transferred) + [EncodeFrame(leds[..])]
      ensures |transferred[|transferred| - 1]| == LED_COUNT * BYTES_PER_LED < SPI_BUFFER_SIZE
    {
      var tx := new Byte[LED_COUNT * BYTES_PER_LED](_ => 0);
      for j := 0 to LED_COUNT
        invariant tx[..BYTES_PER_LED * j] == EncodeFrame(leds[..j])
        invariant transferred == old(transferred)
      {
        ghost var done := tx[..BYTES_PER_LED * j];
        EncodeColor(leds[j], tx, j * BYTES_PER_LED);
        assert tx[..BYTES_PER_LED * j] == done;
        assert tx[..BYTES_PER_LED * (j + 1)] == done + tx[BYTES_PER_LED * j..BYTES_PER_LED * j + BYTES_PER_LED];
        assert leds[..j + 1][..j] == leds[..j];
      }
      assert leds[..LED_COUNT] == leds[..];
      assert tx[..] == tx[..BYTES_PER_LED * LED_COUNT];
      assert tx[..] == EncodeFrame(leds[..]);
      transferred := transferred + [tx[..]];
    }

    /** set_all: every LED becomes color; unless noUpdate, the frame is then sent. */
    method SetAll(color: Color, noUpdate: bool)
      requires Valid()
      modifies leds, this`transferred
      ensures leds[..] == Solid(color)
      ensures transferred == if noUpdate then old(transferred) else old(transferred) + [EncodeFrame(Solid(color))]
    {
      for i := 0 to LED_COUNT
        invariant forall p :: 0 <= p < i ==> leds[p] == color
        invariant transferred == old(transferred)
      {
        leds[i] := color;
      }
      assert leds[..] == Solid(color);
      if !noUpdate {
        UpdateLeds();
      }
    }

    /** off: zeroes the frame, then sends it. */
    method Off()
      requires Valid()
      modifies leds, this`transferred
      ensures leds[..] == Solid(Black)
      ensures transferred == old(transferred) + [EncodeFrame(Solid(Black))]
    {
      for i := 0 to LED_COUNT
        invariant forall p :: 0 <= p < i ==> leds[p] == Black
        invariant transferred == old(transferred)
      {
        leds[i] := Black;
      }
      assert leds[..] == Solid(Black);
      UpdateLeds();
    }

    /** One step of the ring loop: ring k copies its buffer into its slice of the frame and
        refills from nextColors; the other rings keep their buffers. */
    method StepRing(rings: seq<LedRing>, k: nat, ghost held: seq<seq<Color>>, nextColors: seq<Color>)
      requires Drives(rings) && k < RING_COUNT && |held| == RING_COUNT && |nextColors| == RING_SIZES[k]
      requires forall j :: 0 <= j < RING_COUNT ==> rings[j].leds[..] == held[j]
      modifies leds, rings[k].leds
      ensures leds[..] == Paste(old(leds[..]), SliceStart(k), held[k])
      ensures forall j :: 0 <= j < RING_COUNT ==> rings[j].leds[..] == held[k := nextColors][j]
    {
      SliceBounds(k);
      rings[k].Update(leds, nextColors);
    }

    /** The ring loop of one pass: each ring in turn copies its buffer into its slice of the
        frame and refills from next. */
    method UpdateRings(rings: seq<LedRing>, ghost bufs: seq<seq<Color>>, next: seq<seq<Color>>)
      requires Drives(rings) && WellShaped(bufs) && WellShaped(next)
      requires forall k :: 0 <= k < |rings| ==> rings[k].leds[..] == bufs[k]
      modifies leds, set k | 0 <= k < |rings| :: rings[k].leds
      ensures leds[..] == PasteRings(old(leds[..]), bufs, RING_COUNT)
      ensures forall k :: 0 <= k < |rings| ==> rings[k].leds[..] == next[k]
    {
      ghost var base := leds[..];
      ghost var held := bufs;
      for k := 0 to RING_COUNT
        invariant leds[..] == PasteRings(base, bufs, k)
        invariant |held| == RING_COUNT && forall j :: 0 <= j < RING_COUNT ==> rings[j].leds[..] == held[j]
        invariant forall j :: 0 <= j < k ==> held[j] == next[j]
        invariant forall j :: k <= j < RING_COUNT ==> held[j] == bufs[j]
      {
        StepRing(rings, k, held, next[k]);
        held := held[k := next[k]];
      }
    }

    /** One pass of the run loop: clear without sending, let the five rings copy in and refill
        from next, then send the frame. */
    method RunIteration(rings: seq<LedRing>, ghost bufs: seq<seq<Color>>, next: seq<seq<Color>>)
      requires Drives(rings) && WellShaped(bufs) && WellShaped(next)
      requires forall k :: 0 <= k < |rings| ==> rings[k].leds[..] == bufs[k]
      modifies leds, this`transferred, set k | 0 <= k < |rings| :: rings[k].leds
      ensures leds[..] == Compose(bufs)
      ensures forall k :: 0 <= k < |rings| ==> rings[k].leds[..] == next[k]
      ensures transferred == old(transferred) + [EncodeFrame(Compose(bufs))]
    {
      SetAll(Black, true);
      UpdateRings(rings, bufs, next);
      PasteAllRings(Solid(Black), bufs);
      UpdateLeds();
    }

    /** The ring table of run: ring k is an LEDRing of RING_SIZES[k] LEDs with index k, filled from
        initial[k] (the colours the random source supplies at construction). */
    static method MakeRings(initial: seq<seq<Color>>) returns (rings: seq<LedRing>)
      requires WellShaped(initial)
      ensures Disc(rings)
      ensures forall k :: 0 <= k < |rings| ==> fresh(rings[k].leds) && rings[k].leds[..] == initial[k]
    {
      rings := [];
      for k := 0 to RING_COUNT
        invariant |rings| == k
        invariant forall j :: 0 <= j < k ==>
          rings[j].Valid() && rings[j].index == j && rings[j].size == RING_SIZES[j] &&
          fresh(rings[j].leds) && rings[j].leds[..] == initial[j]
        invariant forall i, j :: 0 <= i < j < k ==> rings[i].leds != rings[j].leds
      {
        SliceBounds(k);
        var ring := new LedRing(k, RING_SIZES[k], initial[k]);
        rings := rings + [ring];
      }
    }

    /** run: creates the five rings from initial, then runs one iteration per entry of refills
        (the loop ends when the stop flag is seen; refills[n] is what the random source supplies
        to the rings in iteration n). Iteration n sends the frame composed from the buffers the
        rings held when it began. */
    method Run(initial: seq<seq<Color>>, refills: seq<seq<seq<Color>>>)
      requires Valid() && WellShaped(initial)
      requires forall n :: 0 <= n < |refills| ==> WellShaped(refills[n])
      modifies leds, this`transferred
      ensures transferred == old(transferred) + RenderedFrames(initial, refills)
      ensures |refills| == 0 ==> leds[..] == old(leds[..])
      ensures |refills| > 0 ==> leds[..] == Compose(HeldAt(initial, refills, |refills| - 1))
    {
      var rings := MakeRings(initial);
      RenderLoop(rings, initial, refills);
    }

    /** The while loop of run, over rings that hold initial when it starts. */
    method RenderLoop(rings: seq<LedRing>, initial: seq<seq<Color>>, refills: seq<seq<seq<Color>>>)
      requires Drives(rings) && WellShaped(initial)
      requires forall n :: 0 <= n < |refills| ==> WellShaped(refills[n])
      requires forall k :: 0 <= k < |rings| ==> rings[k].leds[..] == initial[k]
      modifies leds, this`transferred, set k | 0 <= k < |rings| :: rings[k].leds
      ensures transferred == old(transferred) + RenderedFrames(initial, refills)
      ensures |refills| == 0 ==> leds[..] == old(leds[..])
      ensures |refills| > 0 ==> leds[..] == Compose(HeldAt(initial, refills, |refills| - 1))
      ensures forall k :: 0 <= k < |rings| ==> rings[k].leds[..] == HeldAt(initial, refills, |refills|)[k]
    {
      ghost var frames := RenderedFrames(initial, refills);
      for n := 0 to |refills|
        invariant forall k :: 0 <= k < |rings| ==> rings[k].leds[..] == HeldAt(initial, refills, n)[k]
        invariant transferred == old(transferred) + frames[..n]
        invariant n == 0 ==> leds[..] == old(leds[..])
        invariant n > 0 ==> leds[..] == Compose(HeldAt(initial, refills, n - 1))
      {
        RunIteration(rings, HeldAt(initial, refills, n), refills[n]);
        PrefixStep(old(transferred), frames, n);
      }
      assert frames[..|refills|] == frames;
    }
  }
}
