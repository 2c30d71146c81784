/** The page-frame bitmap of src/PageFrameAllocator.c: one bit per frame,
    set when the frame is in use, bit `f % 8` of byte `f / 8`. */
module PageFrameAllocator {

  /** 2^32 and 2^64: frame numbers and counts are uint32_t, memory map
      addresses and sizes uint64_t. */
  const W: int := 0x1_0000_0000
  const W64: int := 0x1_0000_0000_0000_0000

  /** A system memory map entry: its type, start address and size. */
  datatype MapEntry = MapEntry(kind: int, start: int, size: int)

  function Mask(bit: nat): bv8
    requires bit < 8
  {
    (1 as bv8) << bit
  }

  /** Frame `f` is marked used. */
  predicate Bit(bits: seq<bv8>, f: nat)
  {
    f / 8 < |bits| && bits[f / 8] & Mask(f % 8) != 0
  }

  // ---------------------------------------------------------------------------
  // Single frames

  /** Lines 31-40: set the frame's bit when its byte lies in the bitmap. */
  function MarkedUsed(bits: seq<bv8>, f: nat): seq<bv8>
  {
    if f / 8 < |bits| then bits[f / 8 := bits[f / 8] | Mask(f % 8)] else bits
  }

  /** Lines 51-60: clear the frame's bit under the same bound. */
  function MarkedFree(bits: seq<bv8>, f: nat): seq<bv8>
  {
    if f / 8 < |bits| then bits[f / 8 := bits[f / 8] & !Mask(f % 8)] else bits
  }

  lemma MaskBits(b: bv8, i: nat, j: nat)
    requires i < 8 && j < 8
    ensures (b | Mask(j)) & Mask(i) != 0 <==> b & Mask(i) != 0 || i == j
    ensures (b & !Mask(j)) & Mask(i) != 0 <==> b & Mask(i) != 0 && i != j
  {
  }

  /** Two frames share a byte and a bit only when they are the same frame. */
  lemma SameSlot(f: nat, g: nat)
    requires f / 8 == g / 8 && f % 8 == g % 8
    ensures f == g
  {
  }

  /** mark_used sets exactly the frame's bit, and only when the frame lies
      inside the bitmap; every byte but the frame's is left as it was. */
  lemma MarkedUsedBits(bits: seq<bv8>, f: nat)
    ensures |MarkedUsed(bits, f)| == |bits|
    ensures forall g: nat :: Bit(MarkedUsed(bits, f), g) <==> Bit(bits, g) || (g == f && f / 8 < |bits|)
    ensures forall k :: 0 <= k < |bits| && k != f / 8 ==> MarkedUsed(bits, f)[k] == bits[k]
  {
    forall g: nat
      ensures Bit(MarkedUsed(bits, f), g) <==> Bit(bits, g) || (g == f && f / 8 < |bits|)
    {
      if f / 8 < |bits| && g / 8 == f / 8 {
        MaskBits(bits[f / 8], g % 8, f % 8);
        if g % 8 == f % 8 {
          SameSlot(f, g);
        }
      }
    }
  }

  /** mark_free clears exactly the frame's bit, under the same bound. */
  lemma MarkedFreeBits(bits: seq<bv8>, f: nat)
    ensures |MarkedFree(bits, f)| == |bits|
    ensures forall g: nat :: Bit(MarkedFree(bits, f), g) <==> Bit(bits, g) && (g != f || f / 8 >= |bits|)
    ensures forall k :: 0 <= k < |bits| && k != f / 8 ==> MarkedFree(bits, f)[k] == bits[k]
  {
    forall g: nat
      ensures Bit(MarkedFree(bits, f), g) <==> Bit(bits, g) && (g != f || f / 8 >= |bits|)
    {
      if f / 8 < |bits| && g / 8 == f / 8 {
        MaskBits(bits[f / 8], g % 8, f % 8);
        if g % 8 == f % 8 {
          SameSlot(f, g);
        }
      }
    }
  }

  /** Marking a frame twice is marking it once, either way. */
  lemma MarkIdempotent(bits: seq<bv8>, f: nat)
    ensures MarkedUsed(MarkedUsed(bits, f), f) == MarkedUsed(bits, f)
    ensures MarkedFree(MarkedFree(bits, f), f) == MarkedFree(bits, f)
  {
  }

  // ---------------------------------------------------------------------------
  // Counting

  /** The clear frames among frames 0 .. n-1. */
  function ClearCount(bits: seq<bv8>, n: nat): nat
  {
    if n == 0 then 0 else ClearCount(bits, n - 1) + if Bit(bits, n - 1) then 0 else 1
  }

  lemma {:induction false} ClearCountGrows(bits: seq<bv8>, m: nat, n: nat)
    requires m <= n
    ensures ClearCount(bits, m) <= ClearCount(bits, n)
    decreases n
  {
    if m < n {
      ClearCountGrows(bits, m, n - 1);
    }
  }

  // ---------------------------------------------------------------------------
  // init_bitmap

  /** Lines 16-17: an entry's frames, truncated to 32 bits; its end is
      computed in 64 bits. */
  function LowFrame(e: MapEntry, frameSize: int): int
    requires frameSize > 0
  {
    (e.start / frameSize) % W
  }

  function HighFrame(e: MapEntry, frameSize: int): int
    requires frameSize > 0
  {
    (((e.start + e.size) % W64) / frameSize) % W
  }

  /** Line 14: the entries whose frames init_bitmap marks.  As written it
      picks the free ones; the comment at line 11 and the meaning of a
      clear bit call for the others. */
  predicate Selected(e: MapEntry, freeType: int, asWritten: bool)
  {
    if asWritten then e.kind == freeType else e.kind != freeType
  }

  /** Lines 12-24: frame `g` lies in a selected entry, from its low frame
      through its high frame inclusive. */
  predicate MapMarks(es: seq<MapEntry>, frameSize: int, freeType: int, asWritten: bool, g: nat)
    requires frameSize > 0
  {
    exists k :: 0 <= k < |es| && Selected(es[k], freeType, asWritten) && LowFrame(es[k], frameSize) <= g <= HighFrame(es[k], frameSize)
  }

  lemma MapMarksStep(es: seq<MapEntry>, k: nat, frameSize: int, freeType: int, asWritten: bool, g: nat)
    requires k < |es| && frameSize > 0
    ensures MapMarks(es[..k + 1], frameSize, freeType, asWritten, g) <==>
      MapMarks(es[..k], frameSize, freeType, asWritten, g)
      || (Selected(es[k], freeType, asWritten) && LowFrame(es[k], frameSize) <= g <= HighFrame(es[k], frameSize))
  {
    var a := es[..k + 1];
    var b := es[..k];
    if MapMarks(a, frameSize, freeType, asWritten, g) {
      var j :| 0 <= j < |a| && Selected(a[j], freeType, asWritten) && LowFrame(a[j], frameSize) <= g <= HighFrame(a[j], frameSize);
      if j < k {
        assert b[j] == a[j];
      }
    }
    if MapMarks(b, frameSize, freeType, asWritten, g) {
      var j :| 0 <= j < |b| && Selected(b[j], freeType, asWritten) && LowFrame(b[j], frameSize) <= g <= HighFrame(b[j], frameSize);
      assert a[j] == b[j];
    }
    if Selected(es[k], freeType, asWritten) && LowFrame(es[k], frameSize) <= g <= HighFrame(es[k], frameSize) {
      assert a[k] == es[k];
    }
  }

  /** What init_bitmap leaves marked: a frame inside the bitmap that a
      selected entry covers, or one of the padding frames from frame_count
      to the end of the bitmap. */
  predicate InitUsed(len: nat, frameCount: int, es: seq<MapEntry>, frameSize: int, freeType: int, asWritten: bool, g: nat)
    requires frameSize > 0
  {
    g / 8 < len && (MapMarks(es, frameSize, freeType, asWritten, g) || frameCount <= g < (8 * len) % W)
  }

  /** Initialization as written marks the free memory used: a map whose one
      free entry spans the eight frames of a one-byte bitmap leaves no frame
      available, where the corrected selection leaves all eight. */
  lemma FreeMapLeavesNoFrame(bits: seq<bv8>, fixed: seq<bv8>)
    requires |bits| == 1 && |fixed| == 1
    requires forall g: nat :: Bit(bits, g) <==> InitUsed(1, 8, [MapEntry(7, 0, 8 * 4096)], 4096, 7, true, g)
    requires forall g: nat :: Bit(fixed, g) <==> InitUsed(1, 8, [MapEntry(7, 0, 8 * 4096)], 4096, 7, false, g)
    ensures ClearCount(bits, 8) == 0
    ensures ClearCount(fixed, 8) == 8
  {
    var es := [MapEntry(7, 0, 8 * 4096)];
    assert LowFrame(es[0], 4096) == 0 && HighFrame(es[0], 4096) == 8;
    forall g: nat | g < 8
      ensures Bit(bits, g) && !Bit(fixed, g)
    {
      assert MapMarks(es, 4096, 7, true, g);
      assert !MapMarks(es, 4096, 7, false, g);
    }
    assert ClearCount(bits, 8) == 0 by {
      ClearCountNone(bits, 8);
    }
    assert ClearCount(fixed, 8) == 8 by {
      ClearCountAll(fixed, 8);
    }
  }

  lemma {:induction false} ClearCountNone(bits: seq<bv8>, n: nat)
    requires forall g: nat :: g < n ==> Bit(bits, g)
    ensures ClearCount(bits, n) == 0
  {
    if n > 0 {
      ClearCountNone(bits, n - 1);
    }
  }

  lemma {:induction false} ClearCountAll(bits: seq<bv8>, n: nat)
    requires forall g: nat :: g < n ==> !Bit(bits, g)
    ensures ClearCount(bits, n) == n
  {
    if n > 0 {
      ClearCountAll(bits, n - 1);
    }
  }

  // ---------------------------------------------------------------------------
  // The allocator

  class Allocator {
    /** The type code of free memory map entries (SystemMemoryMap.inc.h is
        not part of this model). */
    const freeType: int
    const mmap: seq<MapEntry>
    const frameSize: int
    const bitmap: array<bv8>
    const frameCount: int

    ghost predicate Valid()
    {
      0 < frameSize < W && bitmap.Length < W && 0 <= frameCount < W
    }

    constructor (freeType: int, mmap: seq<MapEntry>, frameSize: int, bitmap: array<bv8>, frameCount: int)
      requires 0 < frameSize < W && bitmap.Length < W && 0 <= frameCount < W
      ensures Valid() && this.freeType == freeType && this.mmap == mmap && this.frameSize == frameSize
      ensures this.bitmap == bitmap && this.frameCount == frameCount
    {
      this.freeType := freeType;
      this.mmap := mmap;
      this.frameSize := frameSize;
      this.bitmap := bitmap;
      this.frameCount := frameCount;
    }

    /** PageFrameAllocator_mark_used. */
    method MarkUsed(frame: int)
      requires Valid() && 0 <= frame < W
      modifies bitmap
      ensures bitmap[..] == MarkedUsed(old(bitmap[..]), frame)
    {
      var byte := frame / 8;
      var bit := frame % 8;
      if byte < bitmap.Length {
        bitmap[byte] := bitmap[byte] | Mask(bit);
      }
    }

    /** PageFrameAllocator_mark_free. */
    method MarkFree(frame: int)
      requires Valid() && 0 <= frame < W
      modifies bitmap
      ensures bitmap[..] == MarkedFree(old(bitmap[..]), frame)
    {
      var byte := frame / 8;
      var bit := frame % 8;
      if byte < bitmap.Length {
        bitmap[byte] := bitmap[byte] & !Mask(bit);
      }
    }

    /** PageFrameAllocator_mark_range_used: the frames from `first` up to
        the 32-bit sum `first + count`, exclusive, become used; no other
        frame changes. */
    method MarkRangeUsed(first: int, count: int)
      requires Valid() && 0 <= first < W && 0 <= count < W
      modifies bitmap
      ensures forall g: nat :: Bit(bitmap[..], g) <==> Bit(old(bitmap[..]), g) || (first <= g < (first + count) % W && g / 8 < bitmap.Length)
    {
      var frame := first;
      var bound := (first + count) % W;
      while frame < bound
        invariant first <= frame && (frame <= bound || frame == first)
        invariant forall g: nat :: Bit(bitmap[..], g) <==> Bit(old(bitmap[..]), g) || (first <= g < frame && g / 8 < bitmap.Length)
        decreases bound - frame
      {
        MarkedUsedBits(bitmap[..], frame);
        MarkUsed(frame);
        frame := frame + 1;
      }
    }

    /** PageFrameAllocator_mark_range_free: the same frames become free. */
    method MarkRangeFree(first: int, count: int)
      requires Valid() && 0 <= first < W && 0 <= count < W
      modifies bitmap
      ensures forall g: nat :: Bit(bitmap[..], g) <==> Bit(old(bitmap[..]), g) && !(first <= g < (first + count) % W && g / 8 < bitmap.Length)
    {
      var frame := first;
      var bound := (first + count) % W;
      while frame < bound
        invariant first <= frame && (frame <= bound || frame == first)
        invariant forall g: nat :: Bit(bitmap[..], g) <==> Bit(old(bitmap[..]), g) && !(first <= g < frame && g / 8 < bitmap.Length)
        decreases bound - frame
      {
        MarkedFreeBits(bitmap[..], frame);
        MarkFree(frame);
        frame := frame + 1;
      }
    }

    /** PageFrameAllocator_check_frames_available: 1 exactly when `count`
        is 0 or at least `count` of the first frame_count frames are clear;
        the bitmap is only read.  The bitmap must cover frame_count frames
        (step 4 of the usage notes in include/PageFrameAllocator.h). */
    method CheckFramesAvailable(count: int) returns (r: int)
      requires Valid() && 0 <= count < W && frameCount <= 8 * bitmap.Length
      ensures r == if ClearCount(bitmap[..], frameCount) >= count then 1 else 0
    {
      var left := count;
      var i := 0;
      while i < frameCount && left > 0
        invariant 0 <= i <= frameCount && 0 <= left
        invariant left == count - ClearCount(bitmap[..], i)
      {
        if bitmap[i / 8] & Mask(i % 8) == 0 {
          left := left - 1;
        }
        i := i + 1;
      }
      ClearCountGrows(bitmap[..], i, frameCount);
      return if left == 0 then 1 else 0;
    }

    /** Lines 19-20: the frames `low` through `high` inclusive become used.
        The uint32_t loop counter would never pass a high frame of
        0xFFFFFFFF. */
    method MarkThrough(low: int, high: int)
      requires Valid() && 0 <= low < W && 0 <= high < W - 1
      modifies bitmap
      ensures forall g: nat :: Bit(bitmap[..], g) <==> Bit(old(bitmap[..]), g) || (low <= g <= high && g / 8 < bitmap.Length)
    {
      var i := low;
      while i <= high
        invariant low <= i && (i <= high + 1 || i == low)
        invariant forall g: nat :: Bit(bitmap[..], g) <==> Bit(old(bitmap[..]), g) || (low <= g < i && g / 8 < bitmap.Length)
        decreases high + 1 - i
      {
        MarkedUsedBits(bitmap[..], i);
        MarkUsed(i);
        i := i + 1;
      }
    }

    /** Lines 8-9: every frame becomes free. */
    method Zero()
      requires Valid()
      modifies bitmap
      ensures forall g: nat :: !Bit(bitmap[..], g)
    {
      for i := 0 to bitmap.Length
        invariant forall k :: 0 <= k < i ==> bitmap[k] == 0
      {
        bitmap[i] := 0;
      }
    }

    /** Lines 12-24 with the entry test a parameter: the frames of the
        selected memory map entries become used. */
    method MarkMap(asWritten: bool)
      requires Valid()
      requires forall g: nat :: !Bit(bitmap[..], g)
      requires forall k :: 0 <= k < |mmap| && Selected(mmap[k], freeType, asWritten) ==> HighFrame(mmap[k], frameSize) < W - 1
      modifies bitmap
      ensures forall g: nat :: Bit(bitmap[..], g) <==> g / 8 < bitmap.Length && MapMarks(mmap, frameSize, freeType, asWritten, g)
    {
      for k := 0 to |mmap|
        invariant forall g: nat :: Bit(bitmap[..], g) <==> g / 8 < bitmap.Length && MapMarks(mmap[..k], frameSize, freeType, asWritten, g)
      {
        var e := mmap[k];
        forall g: nat
          ensures MapMarks(mmap[..k + 1], frameSize, freeType, asWritten, g) <==>
            MapMarks(mmap[..k], frameSize, freeType, asWritten, g)
            || (Selected(e, freeType, asWritten) && LowFrame(e, frameSize) <= g <= HighFrame(e, frameSize))
        {
          MapMarksStep(mmap, k, frameSize, freeType, asWritten, g);
        }
        var pick := if asWritten then e.kind == freeType else e.kind != freeType;
        if pick {
          MarkThrough(LowFrame(e, frameSize), HighFrame(e, frameSize));
        }
      }
      assert mmap[..|mmap|] == mmap;
    }

    /** Lines 27-28: the frames from frame_count to the end of the bitmap
        become used.  Both the count and the range bound wrap at 32 bits,
        and the two wraps cancel. */
    method MarkPadding()
      requires Valid()
      modifies bitmap
      ensures forall g: nat :: Bit(bitmap[..], g) <==> Bit(old(bitmap[..]), g) || (frameCount <= g < (8 * bitmap.Length) % W && g / 8 < bitmap.Length)
    {
      var count := ((8 * bitmap.Length) % W - frameCount) % W;
      assert (frameCount + count) % W == (8 * bitmap.Length) % W;
      MarkRangeUsed(frameCount, count);
    }

    /** Lines 3-29 with the entry test a parameter. */
    method Initialize(asWritten: bool)
      requires Valid()
      requires forall k :: 0 <= k < |mmap| && Selected(mmap[k], freeType, asWritten) ==> HighFrame(mmap[k], frameSize) < W - 1
      modifies bitmap
      ensures forall g: nat :: Bit(bitmap[..], g) <==> InitUsed(bitmap.Length, frameCount, mmap, frameSize, freeType, asWritten, g)
    {
      Zero();
      MarkMap(asWritten);
      MarkPadding();
    }

    /** PageFrameAllocator_init_bitmap as written: it marks the frames of
        the free entries used. */
    method InitBitmap()
      requires Valid()
      requires forall k :: 0 <= k < |mmap| && mmap[k].kind == freeType ==> HighFrame(mmap[k], frameSize) < W - 1
      modifies bitmap
      ensures forall g: nat :: Bit(bitmap[..], g) <==> InitUsed(bitmap.Length, frameCount, mmap, frameSize, freeType, true, g)
    {
      Initialize(true);
    }

    /** init_bitmap with the test the comment at line 11 describes: the
        frames of every entry that is not free become used, so the clear
        bits are the free frames below frame_count. */
    method InitBitmapFixed()
      requires Valid()
      requires forall k :: 0 <= k < |mmap| && mmap[k].kind != freeType ==> HighFrame(mmap[k], frameSize) < W - 1
      modifies bitmap
      ensures forall g: nat :: Bit(bitmap[..], g) <==> InitUsed(bitmap.Length, frameCount, mmap, frameSize, freeType, false, g)
    {
      Initialize(false);
    }
  }
}
