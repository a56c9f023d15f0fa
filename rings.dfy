/** The five concentric rings of the disc and the slice of the 61-slot frame
    that each one owns. */
module Rings {
  import opened Colors
  import opened Ws2812

  /** LEDs per ring, from the centre outwards. */
  const RING_SIZES: seq<nat> := [1, 8, 12, 16, 24]
  const RING_COUNT: nat := 5

  /** Sum of the sizes of rings 0 .. k-1: where ring k starts before mirroring. */
  function PrefixSum(k: nat): nat
    requires k <= |RING_SIZES|
  {
    if k == 0 then 0 else PrefixSum(k - 1) + RING_SIZES[k - 1]
  }

  lemma {:induction false} PrefixSumMonotone(j: nat, k: nat)
    requires j <= k <= |RING_SIZES|
    ensures PrefixSum(j) <= PrefixSum(k)
  {
    if j < k {
      PrefixSumMonotone(j, k - 1);
    }
  }

  /** The ring sizes add up to the LED count. */
  lemma RingSizesCoverDisc()
    ensures PrefixSum(RING_COUNT) == LED_COUNT
  {
  }

  /** First index of ring k's slice, after mirroring: LED_COUNT minus the unmirrored end. */
  function SliceStart(k: nat): int
    requires k < RING_COUNT
  {
    LED_COUNT - (PrefixSum(k) + RING_SIZES[k])
  }

  /** One past the last index of ring k's slice, after mirroring: LED_COUNT minus the unmirrored start. */
  function SliceEnd(k: nat): int
    requires k < RING_COUNT
  {
    LED_COUNT - PrefixSum(k)
  }

  predicate InSlice(k: nat, i: int)
    requires k < RING_COUNT
  {
    SliceStart(k) <= i < SliceEnd(k)
  }

  /** Mirroring keeps the width, and every slice lies inside the frame. */
  lemma SliceBounds(k: nat)
    requires k < RING_COUNT
    ensures SliceEnd(k) - SliceStart(k) == RING_SIZES[k]
    ensures 0 <= SliceStart(k) <= SliceEnd(k) <= LED_COUNT
  {
    PrefixSumMonotone(k + 1, RING_COUNT);
    RingSizesCoverDisc();
  }

  /** Mirrored order: an outer ring lies entirely below an inner one. */
  lemma SlicesOrdered(j: nat, k: nat)
    requires j < k < RING_COUNT
    ensures SliceEnd(k) <= SliceStart(j)
  {
    PrefixSumMonotone(j + 1, k);
  }

  /** No index belongs to two rings. */
  lemma SlicesDisjoint(j: nat, k: nat, i: int)
    requires j < RING_COUNT && k < RING_COUNT && j != k
    ensures !(InSlice(j, i) && InSlice(k, i))
  {
    if j < k { SlicesOrdered(j, k); } else { SlicesOrdered(k, j); }
  }

  /** The concrete layout: the centre LED is the last index, the outer ring the first 24. */
  lemma Layout()
    ensures SliceStart(0) == 60 && SliceEnd(0) == 61
    ensures SliceStart(1) == 52 && SliceEnd(1) == 60
    ensures SliceStart(2) == 40 && SliceEnd(2) == 52
    ensures SliceStart(3) == 24 && SliceEnd(3) == 40
    ensures SliceStart(4) == 0 && SliceEnd(4) == 24
  {
  }

  /** The ring whose slice holds index i, searching from ring k outwards. */
  function RingFrom(i: int, k: nat): (r: nat)
    requires k < RING_COUNT && 0 <= i < SliceEnd(k)
    ensures k <= r < RING_COUNT && InSlice(r, i)
    decreases RING_COUNT - k
  {
    if k == RING_COUNT - 1 || SliceStart(k) <= i then
      RingSizesCoverDisc();
      k
    else
      assert SliceStart(k) == SliceEnd(k + 1);
      RingFrom(i, k + 1)
  }

  /** The ring whose slice holds output index i. */
  function RingOf(i: int): (r: nat)
    requires 0 <= i < LED_COUNT
    ensures r < RING_COUNT && InSlice(r, i)
  {
    RingFrom(i, 0)
  }

  /** The slices partition the frame: an index is in some slice exactly when it is a frame index,
      and then it is in exactly one. */
  lemma Partition(i: int)
    ensures (0 <= i < LED_COUNT) <==> (exists k: nat :: k < RING_COUNT && InSlice(k, i))
    ensures 0 <= i < LED_COUNT ==> (set k: nat | k < RING_COUNT && InSlice(k, i)) == {RingOf(i)}
  {
    if 0 <= i < LED_COUNT {
      var r := RingOf(i);
      forall k: nat | k < RING_COUNT && InSlice(k, i) ensures k == r {
        if k != r { SlicesDisjoint(k, r, i); }
      }
    } else {
      forall k: nat | k < RING_COUNT ensures !InSlice(k, i) { SliceBounds(k); }
    }
  }

  /** Slot p of ring k's slice is identified as ring k's. */
  lemma RingOfSlot(k: nat, p: nat)
    requires k < RING_COUNT && p < RING_SIZES[k]
    ensures 0 <= SliceStart(k) + p < LED_COUNT && RingOf(SliceStart(k) + p) == k
  {
    SliceBounds(k);
    var r := RingOf(SliceStart(k) + p);
    if r != k { SlicesDisjoint(k, r, SliceStart(k) + p); }
  }

  /** The frame with the slice starting at start replaced by buf: what Update writes. */
  function Paste(frame: seq<Color>, start: int, buf: seq<Color>): (r: seq<Color>)
    requires 0 <= start && start + |buf| <= |frame|
    ensures |r| == |frame|
    ensures forall i :: start <= i < start + |buf| ==> r[i] == buf[i - start]
    ensures forall i :: 0 <= i < |frame| && !(start <= i < start + |buf|) ==> r[i] == frame[i]
  {
    frame[..start] + buf + frame[start + |buf|..]
  }

  /** One buffer per ring, each of its ring's size. */
  predicate WellShaped(bufs: seq<seq<Color>>)
  {
    |bufs| == RING_COUNT && forall k :: 0 <= k < RING_COUNT ==> |bufs[k]| == RING_SIZES[k]
  }

  /** base after rings 0 .. k-1 have pasted their buffers in order. */
  function PasteRings(base: seq<Color>, bufs: seq<seq<Color>>, k: nat): (r: seq<Color>)
    requires |base| == LED_COUNT && WellShaped(bufs) && k <= RING_COUNT
    ensures |r| == LED_COUNT
  {
    if k == 0 then base
    else
      SliceBounds(k - 1);
      Paste(PasteRings(base, bufs, k - 1), SliceStart(k - 1), bufs[k - 1])
  }

  /** The composed frame: every index takes the entry of the ring whose slice holds it. */
  function Compose(bufs: seq<seq<Color>>): (r: seq<Color>)
    requires WellShaped(bufs)
    ensures |r| == LED_COUNT
  {
    seq(LED_COUNT, i requires 0 <= i < LED_COUNT =>
      SliceBounds(RingOf(i));
      bufs[RingOf(i)][i - SliceStart(RingOf(i))])
  }

  /** Entry p of ring k's buffer lands at index SliceStart(k) + p of the composed frame. */
  lemma ComposeAt(bufs: seq<seq<Color>>, k: nat, p: nat)
    requires WellShaped(bufs) && k < RING_COUNT && p < RING_SIZES[k]
    ensures 0 <= SliceStart(k) + p < LED_COUNT && Compose(bufs)[SliceStart(k) + p] == bufs[k][p]
  {
    RingOfSlot(k, p);
  }

  /** After k rings have pasted, index i holds its ring's entry when that ring is among them,
      and base's value otherwise. */
  lemma {:induction false} PasteRingsAt(base: seq<Color>, bufs: seq<seq<Color>>, k: nat, i: int)
    requires |base| == LED_COUNT && WellShaped(bufs) && k <= RING_COUNT && 0 <= i < LED_COUNT
    ensures PasteRings(base, bufs, k)[i] ==
      if RingOf(i) < k then bufs[RingOf(i)][i - SliceStart(RingOf(i))] else base[i]
  {
    if k > 0 {
      PasteRingsAt(base, bufs, k - 1, i);
      SliceBounds(k - 1);
      if InSlice(k - 1, i) {
        Partition(i);
        assert RingOf(i) in (set j: nat | j < RING_COUNT && InSlice(j, i));
      } else {
        assert RingOf(i) != k - 1;
      }
    }
  }

  /** Once all five rings have pasted, nothing of base survives: the result is the composed frame. */
  lemma PasteAllRings(base: seq<Color>, bufs: seq<seq<Color>>)
    requires |base| == LED_COUNT && WellShaped(bufs)
    ensures PasteRings(base, bufs, RING_COUNT) == Compose(bufs)
  {
    forall i | 0 <= i < LED_COUNT ensures PasteRings(base, bufs, RING_COUNT)[i] == Compose(bufs)[i] {
      PasteRingsAt(base, bufs, RING_COUNT, i);
    }
  }

  /** LEDRing<N>: a ring's own colour buffer and the output slice it is copied into. */
  class LedRing {
    const index: nat
    /** N, the ring's LED count. */
    const size: nat
    const leds: array<Color>
    var start: int
    var end: int

    ghost predicate Valid()
      reads this
    {
      index <= |RING_SIZES| && PrefixSum(index) + size <= LED_COUNT &&
      leds.Length == size &&
      start == LED_COUNT - (PrefixSum(index) + size) &&
      end == LED_COUNT - PrefixSum(index)
    }

    /** Sums the sizes of the rings before this one, adds N, then mirrors both ends.
        initial stands for the colours the constructor draws from the random source. */
    constructor (index: nat, n: nat, initial: seq<Color>)
      requires index <= |RING_SIZES|
      requires PrefixSum(index) + n <= LED_COUNT
      requires |initial| == n
      ensures Valid()
      ensures this.index == index && size == n && fresh(leds) && leds[..] == initial
      ensures end - start == n && 0 <= start
    {
      var s := 0;
      for i := 0 to index
        invariant s == PrefixSum(i)
      {
        s := s + RING_SIZES[i];
      }
      var e := s + n;
      var temp := s;
      this.index := index;
      size := n;
      start := LED_COUNT - e;
      end := LED_COUNT - temp;
      leds := new Color[n](i requires 0 <= i < n => initial[i]);
    }

    /** Copies the ring's colours into its slice of all, then refills the ring's buffer with next
        (the fresh colours the random source supplies). */
    method Update(all: array<Color>, next: seq<Color>)
      requires Valid() && all.Length == LED_COUNT && all != leds && |next| == size
      modifies all, leds
      ensures all[..] == Paste(old(all[..]), start, old(leds[..]))
      ensures leds[..] == next
    {
      for i := start to end
        invariant forall p :: start <= p < i ==> all[p] == leds[p - start]
        invariant forall p :: 0 <= p < all.Length && !(start <= p < i) ==> all[p] == old(all[p])
        invariant leds[..] == old(leds[..])
      {
        all[i] := leds[i - start];
      }
      ghost var copied := all[..];
      assert copied == Paste(old(all[..]), start, old(leds[..]));
      for p := 0 to size
        invariant leds[..p] == next[..p]
        invariant all[..] == copied
      {
        leds[p] := next[p];
      }
    }
  }

  /** The five rings of the disc as run() creates them: ring k has index k and size RING_SIZES[k],
      and no two share a buffer. */
  ghost predicate Disc(rings: seq<LedRing>)
    reads rings
  {
    |rings| == RING_COUNT &&
    (forall k :: 0 <= k < RING_COUNT ==> rings[k].Valid() && rings[k].index == k && rings[k].size == RING_SIZES[k]) &&
    (forall j, k :: 0 <= j < k < RING_COUNT ==> rings[j].leds != rings[k].leds)
  }
}
