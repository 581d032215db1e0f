/**
  The physical frame allocator (`arch/frame.rs`): a bitmap with one bit per frame, proved
  against the set of frames that are free.
  */
module Frames {
  import opened Wrappers
  import opened Words
  import opened Bits
  import Arith

  const PAGE_SIZE: nat := 4096
  const FRAMES_PER_WORD: nat := 64

  /** Frame numbers stay far enough below 2^52 that no frame address overflows. */
  const MAX_FRAME: nat := 0x100_0000_0000

  datatype FrameError =
    | OutOfMemory
    | Fragmented(requested: nat, largestRun: nat)
    | OutOfRange(frame: nat)
    | DoubleFree(frame: nat)
    | BadRegion

  function CeilDiv(a: nat, d: nat): nat
    requires d > 0
  {
    (a + d - 1) / d
  }

  /** A span of physical memory; its end does not wrap around. */
  type Region = r: RawRegion | r.start + r.len <= MAX_U64 witness RawRegion(0, 0)

  datatype RawRegion = RawRegion(start: nat, len: nat) {
    /** `Region::frames`: the first frame wholly inside, and the end of the range. */
    function FirstInside(): nat { CeilDiv(start, PAGE_SIZE) }

    function EndInside(): nat {
      var last := (start + len) / PAGE_SIZE;
      if last < FirstInside() then FirstInside() else last
    }

    /** The range `reserve_region` withholds: rounded outward. */
    function FirstTouched(): nat { start / PAGE_SIZE }

    function EndTouched(): nat { CeilDiv(start + len, PAGE_SIZE) }
  }

  /** Frames from `first` up to, not including, `end`. */
  function Range(first: int, end: int): (frames: set<int>)
    ensures forall f :: f in frames <==> first <= f < end
    decreases end - first
  {
    if first >= end then {} else Range(first, end - 1) + {end - 1}
  }

  lemma RangeSize(first: int, end: int)
    requires first <= end
    ensures |Range(first, end)| == end - first
    decreases end - first
  {
    if first < end { RangeSize(first, end - 1); }
  }

  lemma {:induction false} SubsetSize<T>(small: set<T>, large: set<T>)
    requires small <= large
    ensures |small| <= |large|
    ensures small != large ==> |small| < |large|
  {
    if small != {} {
      var x :| x in small;
      SubsetSize(small - {x}, large - {x});
    }
  }

  // ----- the bitmap ----------------------------------------------------------------------

  predicate IsUsedAt(words: seq<u64>, offset: nat)
    requires offset < 64 * |words|
  {
    Bit(words[offset / 64], offset % 64)
  }

  /** The frames whose bit is clear. */
  function FreeOf(words: seq<u64>, base: nat, count: nat): set<int>
    requires count <= 64 * |words|
  {
    var managed := Range(base, base + count);
    set f | f in managed && !IsUsedAt(words, f - base)
  }

  /** Bits past the managed range are set, so that they never look free. */
  ghost predicate TailIsUsed(words: seq<u64>, count: nat) {
    forall o: nat :: count <= o < 64 * |words| ==> IsUsedAt(words, o)
  }

  /** A managed frame is free exactly when its bit is clear; and no more frames are free than managed. */
  lemma FrameBit(words: seq<u64>, base: nat, count: nat, frame: nat)
    requires count <= 64 * |words| && base <= frame < base + count
    ensures frame in FreeOf(words, base, count) <==> !Bit(words[(frame - base) / 64], (frame - base) % 64)
    ensures |FreeOf(words, base, count)| <= count
    ensures frame !in FreeOf(words, base, count) ==> |FreeOf(words, base, count)| < count
  {
    hide Bit, Range;
    RangeSize(base, base + count);
    assert frame in Range(base, base + count);
    SubsetSize(FreeOf(words, base, count), Range(base, base + count));
    hide FreeOf;
  }

  lemma RangeGrows(first: int, frame: int, managed: set<int>)
    requires first <= frame
    ensures Range(first, frame + 1) * managed ==
            if frame in managed then Range(first, frame) * managed + {frame} else Range(first, frame) * managed
    ensures frame !in Range(first, frame)
  {
    hide Range;
  }

  // ----- scanning words ------------------------------------------------------------------

  /** No frame is free whose bit lies in words `from` up to, not including, `to`. */
  ghost predicate NoneFree(words: seq<u64>, base: nat, count: nat, from: int, to: int)
    requires count <= 64 * |words|
  {
    forall f | f in FreeOf(words, base, count) :: !(base + 64 * from <= f < base + 64 * to)
  }

  lemma NothingBetween(words: seq<u64>, base: nat, count: nat, from: nat)
    requires count <= 64 * |words|
    ensures NoneFree(words, base, count, from, from)
  {
  }

  lemma FullWord(words: seq<u64>, base: nat, count: nat, from: nat, w: nat)
    requires count <= 64 * |words| && w < |words| && words[w] == MAX_U64
    requires NoneFree(words, base, count, from, w)
    ensures NoneFree(words, base, count, from, w + 1)
  {
    hide Bit;
    forall f | f in FreeOf(words, base, count)
      ensures !(base + 64 * from <= f < base + 64 * (w + 1))
    {
      MaxHasAllBits((f - base) % 64);
    }
  }

  /** The lowest clear bit of a word that is not full is a free frame, the first one from `from` on. */
  lemma FirstFreeInWord(words: seq<u64>, base: nat, count: nat, from: nat, w: nat)
    requires count <= 64 * |words| && w < |words| && from <= w && words[w] != MAX_U64
    requires NoneFree(words, base, count, from, w) && TailIsUsed(words, count)
    ensures var bit := TrailingZeros(Not(words[w]));
            var f := base + 64 * w + bit;
            && bit < 64 && f < base + count && f in FreeOf(words, base, count)
            && (forall g | g in FreeOf(words, base, count) :: !(base + 64 * from <= g < f))
  {
    hide Bit, TrailingZeros;
    LowestClearBit(words[w]);
    var bit := TrailingZeros(Not(words[w]));
    var o := 64 * w + bit;
    assert o / 64 == w && o % 64 == bit;
    assert !IsUsedAt(words, o);
    forall o': nat | 64 * w <= o' < o
      ensures IsUsedAt(words, o')
    {
      assert o' / 64 == w && o' % 64 < bit;
    }
  }

  /** The scan finds the next fit: in its second pass only when nothing was left from `split` on. */
  lemma ScanFindsNextFit(words: seq<u64>, base: nat, count: nat, split: nat, from: nat, f: int)
    requires count <= 64 * |words| && f in FreeOf(words, base, count)
    requires forall g | g in FreeOf(words, base, count) :: !(base + 64 * from <= g < f)
    requires if from == split then base + 64 * split <= f
             else from == 0 && f < base + 64 * split && NoneFree(words, base, count, split, |words|)
    ensures IsNextFit(FreeOf(words, base, count), base + 64 * split, f)
  {
    hide Bit;
  }

  lemma TakeBit(words: seq<u64>, base: nat, count: nat, w: nat, bit: nat, words': seq<u64>)
    requires count <= 64 * |words| && w < |words| && bit < 64 && 64 * w + bit < count && TailIsUsed(words, count)
    requires words' == words[w := SetBit(words[w], bit)]
    ensures FreeOf(words', base, count) == FreeOf(words, base, count) - {base + 64 * w + bit}
    ensures TailIsUsed(words', count)
  {
    assert (64 * w + bit) / 64 == w && (64 * w + bit) % 64 == bit;
    SetUsedInWords(words, base, count, 64 * w + bit, words');
  }

  lemma NoneFreeAtAll(words: seq<u64>, base: nat, count: nat, split: nat)
    requires count <= 64 * |words|
    requires NoneFree(words, base, count, split, |words|) && NoneFree(words, base, count, 0, split)
    ensures FreeOf(words, base, count) == {}
  {
    hide Bit;
    forall f
      ensures f !in FreeOf(words, base, count)
    {
    }
  }

  lemma FrameAtBit(words: seq<u64>, base: nat, count: nat, word: nat, bit: nat)
    requires count <= 64 * |words| && word < |words| && bit < 64 && 64 * word + bit < count
    ensures base + 64 * word + bit in FreeOf(words, base, count) <==> !Bit(words[word], bit)
  {
    hide Bit, Range;
    assert (64 * word + bit) / 64 == word && (64 * word + bit) % 64 == bit;
    assert base + 64 * word + bit in Range(base, base + count);
  }

  /** A word that is zero holds only free frames. */
  lemma EmptyWord(words: seq<u64>, base: nat, count: nat, frame: nat, word: nat, bit: nat)
    requires count <= 64 * |words| && base <= frame < base + count && bit < 64
    requires frame == base + 64 * word + bit && words[word] == 0
    ensures forall f | frame <= f < frame + 64 - bit && f < base + count :: f in FreeOf(words, base, count)
  {
    hide Bit, FreeOf;
    forall f | frame <= f < frame + 64 - bit && f < base + count
      ensures f in FreeOf(words, base, count)
    {
      ZeroHasNoBits(f - frame + bit);
      FrameAtBit(words, base, count, word, f - frame + bit);
    }
  }

  /** What the masked word says about the `n` frames from `frame` on. */
  lemma MaskedWord(words: seq<u64>, base: nat, count: nat, frame: nat, word: nat, bit: nat, n: nat)
    requires count <= 64 * |words| && base <= frame && frame + n <= base + count && 0 < n && bit + n <= 64
    requires frame == base + 64 * word + bit
    ensures var masked := And(words[word], RangeMask(bit, n));
            if masked == 0 then IsFreeRun(FreeOf(words, base, count), frame, n)
            else
              var found := frame - bit + TrailingZeros(masked);
              && frame <= found < frame + n && found !in FreeOf(words, base, count)
              && IsFreeRun(FreeOf(words, base, count), frame, found - frame)
  {
    hide Bit, And, RangeMask, TrailingZeros, FreeOf;
    LowestBitInRange(words[word], bit, n);
    forall f: int | frame <= f < frame + n
      ensures f in FreeOf(words, base, count) <==> !Bit(words[word], f - frame + bit)
    {
      FrameAtBit(words, base, count, word, f - frame + bit);
    }
  }

  lemma RangeStep(free: set<int>, first: int, f: int)
    requires first <= f
    ensures Range(first, f + 1) == Range(first, f) + {f} && f !in Range(first, f)
    ensures free - Range(first, f + 1) == (free - Range(first, f)) - {f}
    ensures free + Range(first, f + 1) == (free + Range(first, f)) + {f}
  {
    hide Range;
  }

  /** No multiple lies between a number and its next multiple. */
  lemma NoMultipleBetween(a: nat, d: nat, x: nat)
    requires d > 0 && a <= x < NextMultiple(a, d)
    ensures x % d != 0
  {
    var m := NextMultiple(a, d);
    hide NextMultiple;
    Arith.FloorMultiple(x, d);
    Arith.FloorMultiple(m, d);
    Arith.QuotientMonotone(x, m, d);
    if x % d == 0 && x / d < m / d { Arith.MulGap(x / d, m / d, d); }
  }

  lemma SetUsedInWords(words: seq<u64>, base: nat, count: nat, offset: nat, words': seq<u64>)
    requires count <= 64 * |words| && offset < count && TailIsUsed(words, count)
    requires words' == words[offset / 64 := SetBit(words[offset / 64], offset % 64)]
    ensures FreeOf(words', base, count) == FreeOf(words, base, count) - {base + offset}
    ensures TailIsUsed(words', count)
  {
    hide Bit, SetBit;
    forall o: nat | o < 64 * |words|
      ensures IsUsedAt(words', o) <==> o == offset || IsUsedAt(words, o)
    {
      SetBitBits(words[offset / 64], offset % 64, o % 64);
    }
  }

  lemma SetFreeInWords(words: seq<u64>, base: nat, count: nat, offset: nat, words': seq<u64>)
    requires count <= 64 * |words| && offset < count && TailIsUsed(words, count)
    requires words' == words[offset / 64 := ClearBit(words[offset / 64], offset % 64)]
    ensures FreeOf(words', base, count) == FreeOf(words, base, count) + {base + offset}
    ensures TailIsUsed(words', count)
  {
    hide Bit, ClearBit;
    forall o: nat | o < 64 * |words|
      ensures IsUsedAt(words', o) <==> o != offset && IsUsedAt(words, o)
    {
      ClearBitBits(words[offset / 64], offset % 64, o % 64);
    }
  }

  // ----- what the searches look for ------------------------------------------------------

  /** The frame `alloc` takes: the first free one from `from` on, or else the first free one. */
  ghost predicate IsNextFit(free: set<int>, from: int, f: int) {
    && f in free
    && (forall g | g in free && from <= g :: f >= from && f <= g)
    && (f < from ==> forall g | g in free :: f <= g)
  }

  /** The `n` frames from `start` on are all free. */
  ghost predicate IsFreeRun(free: set<int>, start: int, n: nat) {
    forall f | start <= f < start + n :: f in free
  }

  ghost predicate HasFreeRun(free: set<int>, n: nat) {
    exists start: int :: IsFreeRun(free, start, n)
  }

  /** No run of free managed frames is longer than `best`, and one is as long. */
  ghost predicate IsLongestRun(s: State, best: nat) {
    && HasFreeRun(s.free, best)
    && forall start, n: nat | s.base <= start && start + n <= s.base + s.count && IsFreeRun(s.free, start, n) ::
         n <= best
  }

  function AtLeastOne(align: nat): nat {
    if align == 0 then 1 else align
  }

  /** `next_multiple_of`. */
  function NextMultiple(a: nat, d: nat): (m: nat)
    requires d > 0
    ensures a <= m < a + d && m % d == 0
  {
    if a % d == 0 then a else
      assert (a - a % d + d) % d == 0 by { NextMultipleDivides(a, d); }
      a - a % d + d
  }

  lemma NextMultipleDivides(a: nat, d: nat)
    requires d > 0
    ensures (a - a % d + d) % d == 0
  {
    assert a - a % d + d == (a / d + 1) * d;
    Arith.UniqueDivision(a - a % d + d, d, a / d + 1, 0);
  }

  // ----- what each operation does to the set of free frames ------------------------------

  /** The allocator seen from outside: which frames it manages, which are free, and the hint. */
  datatype State = State(base: nat, count: nat, free: set<int>, hint: nat) {
    function Managed(): set<int> { Range(base, base + count) }

    /** The frame of the first bit of the word the hint lies in, where `alloc` starts to look. */
    function SearchStart(): int { base + hint / 64 * 64 }
  }

  /** Byte `b` is one of the 4096 bytes of frame `f`. */
  predicate ByteOfFrame(b: nat, f: int) {
    f * 4096 <= b < (f + 1) * 4096
  }

  predicate ByteOfRegion(b: nat, region: Region) {
    region.start <= b < region.start + region.len
  }

  /** Every byte of the frame lies in the region. */
  ghost predicate LiesInside(f: int, region: Region) {
    forall b: nat | ByteOfFrame(b, f) :: ByteOfRegion(b, region)
  }

  ghost predicate SharesByte(f: int, region: Region) {
    exists b: nat :: ByteOfFrame(b, f) && ByteOfRegion(b, region)
  }

  /** What a reservation withholds. One of no bytes withholds a frame that it points into. */
  ghost predicate IsWithheld(f: int, region: Region) {
    SharesByte(f, region) || (region.len == 0 && f * 4096 < region.start < (f + 1) * 4096)
  }

  /** `add_region` frees exactly the managed frames that lie wholly inside the region, and counts them. */
  ghost predicate AddStep(s: State, region: Region, s': State, added: nat) {
    var frames := set f | f in s.Managed() && LiesInside(f, region);
    s' == s.(free := s.free + frames) && added == |frames|
  }

  /** `reserve_region` withholds exactly the managed frames that the region touches, and counts them. */
  ghost predicate ReserveStep(s: State, region: Region, s': State, reserved: nat) {
    var frames := set f | f in s.Managed() && IsWithheld(f, region);
    s' == s.(free := s.free - frames) && reserved == |frames|
  }

  /** Rounding inward: the frames wholly inside are those of the source's range. */
  lemma InsideIsRange(region: Region, f: nat)
    ensures LiesInside(f, region) <==> region.FirstInside() <= f < region.EndInside()
  {
    assert ByteOfFrame(f * 4096, f) && ByteOfFrame(f * 4096 + 4095, f);
  }

  /** Rounding outward: the frames withheld are those of the source's range. */
  lemma WithheldIsRange(region: Region, f: nat)
    ensures IsWithheld(f, region) <==> region.FirstTouched() <= f < region.EndTouched()
  {
    if region.FirstTouched() <= f < region.EndTouched() && region.len > 0 {
      var b := if f * 4096 >= region.start then f * 4096 else region.start;
      assert ByteOfFrame(b, f) && ByteOfRegion(b, region);
    }
  }

  lemma AddedFrames(s: State, region: Region)
    ensures (set f | f in s.Managed() && LiesInside(f, region)) ==
            Range(region.FirstInside(), region.EndInside()) * s.Managed()
  {
    hide LiesInside, RawRegion.FirstInside, RawRegion.EndInside;
    forall f | f in s.Managed()
      ensures LiesInside(f, region) <==> region.FirstInside() <= f < region.EndInside()
    {
      InsideIsRange(region, f);
    }
  }

  lemma WithheldFrames(s: State, region: Region)
    ensures (set f | f in s.Managed() && IsWithheld(f, region)) ==
            Range(region.FirstTouched(), region.EndTouched()) * s.Managed()
  {
    hide IsWithheld, RawRegion.FirstTouched, RawRegion.EndTouched;
    forall f | f in s.Managed()
      ensures IsWithheld(f, region) <==> region.FirstTouched() <= f < region.EndTouched()
    {
      WithheldIsRange(region, f);
    }
  }

  /** The state with the managed frames from `first` up to `end` withheld, and how many those are. */
  function Withheld(s: State, first: int, end: int): State {
    s.(free := s.free - Range(first, end) * s.Managed())
  }

  function ManagedIn(s: State, first: int, end: int): nat {
    |Range(first, end) * s.Managed()|
  }

  lemma WithholdNone(s: State, first: int)
    ensures Withheld(s, first, first) == s && ManagedIn(s, first, first) == 0
  {
  }

  lemma WithholdOne(s: State, first: nat, frame: nat)
    requires first <= frame
    ensures Withheld(s, first, frame).Managed() == s.Managed()
    ensures if frame in s.Managed() then
              && Withheld(s, first, frame + 1) ==
                   Withheld(s, first, frame).(free := Withheld(s, first, frame).free - {frame})
              && ManagedIn(s, first, frame + 1) == ManagedIn(s, first, frame) + 1
            else
              && Withheld(s, first, frame + 1) == Withheld(s, first, frame)
              && ManagedIn(s, first, frame + 1) == ManagedIn(s, first, frame)
  {
    RangeGrows(first, frame, s.Managed());
    hide Range;
  }

  lemma WithholdingReserves(s: State, region: Region)
    ensures ReserveStep(s, region, Withheld(s, region.FirstTouched(), region.EndTouched()),
                        ManagedIn(s, region.FirstTouched(), region.EndTouched()))
  {
    WithheldFrames(s, region);
  }

  lemma TouchedInOrder(region: Region)
    ensures region.FirstTouched() <= region.EndTouched()
  {
  }

  /** One frame is handed out exactly when one is free: the next one that fits. */
  ghost predicate AllocStep(s: State, s': State, r: Result<nat, FrameError>) {
    match r
    case Err(e) => e == OutOfMemory && s.free == {} && s' == s
    case Ok(addr) =>
      var f := addr / PAGE_SIZE;
      && addr == f * PAGE_SIZE && s.base <= f && IsNextFit(s.free, s.SearchStart(), f)
      && s' == s.(free := s.free - {f}, hint := f + 1 - s.base)
  }

  lemma TakingIsAllocStep(s: State, f: nat)
    requires s.base <= f && IsNextFit(s.free, s.SearchStart(), f)
    ensures AllocStep(s, s.(free := s.free - {f}, hint := f + 1 - s.base), Ok(f * PAGE_SIZE))
  {
    assert f * PAGE_SIZE / PAGE_SIZE == f;
  }

  /** The scan found a word with a free frame: what taking it makes of the allocator. */
  lemma WordYields(words: seq<u64>, base: nat, count: nat, hint: nat, from: nat, w: nat)
    requires count <= 64 * |words| && w < |words| && from <= w && words[w] != MAX_U64
    requires NoneFree(words, base, count, from, w) && TailIsUsed(words, count)
    requires from == hint / 64 || (from == 0 && w < hint / 64 && NoneFree(words, base, count, hint / 64, |words|))
    ensures var bit := TrailingZeros(Not(words[w]));
            && bit < 64 && 64 * w + bit < count
            && var words' := words[w := SetBit(words[w], bit)];
               && TailIsUsed(words', count)
               && |FreeOf(words', base, count)| == |FreeOf(words, base, count)| - 1
               && AllocStep(State(base, count, FreeOf(words, base, count), hint),
                            State(base, count, FreeOf(words', base, count), 64 * w + bit + 1),
                            Ok((base + (64 * w + bit)) * PAGE_SIZE))
  {
    hide Bit, TrailingZeros, SetBit, FreeOf, TailIsUsed, NoneFree, IsNextFit, AllocStep;
    var bit := TrailingZeros(Not(words[w]));
    var f := base + 64 * w + bit;
    FirstFreeInWord(words, base, count, from, w);
    ScanFindsNextFit(words, base, count, hint / 64, from, f);
    TakingIsAllocStep(State(base, count, FreeOf(words, base, count), hint), f);
    TakeBit(words, base, count, w, bit, words[w := SetBit(words[w], bit)]);
  }

  lemma FullIsAllocStep(s: State)
    requires s.free == {}
    ensures AllocStep(s, s, Err(OutOfMemory))
  {
  }

  /** An aligned run of `n` free managed frames. */
  ghost predicate Fits(s: State, start: int, n: nat, align: nat)
    requires align > 0
  {
    IsCandidate(s, start, n, align) && IsFreeRun(s.free, start, n)
  }

  /** A place where an aligned run of `n` frames would lie within what is managed. */
  predicate IsCandidate(s: State, start: int, n: nat, align: nat)
    requires align > 0
  {
    start % align == 0 && s.base <= start && start + n <= s.base + s.count
  }

  /** `best` free frames follow some candidate below `limit`, and no more follow any. */
  ghost predicate IsBestRun(s: State, n: nat, align: nat, limit: int, best: nat)
    requires align > 0
  {
    && (best > 0 ==> exists start :: IsCandidate(s, start, n, align) && start < limit && IsFreeRun(s.free, start, best))
    && forall start, k: nat | IsCandidate(s, start, n, align) && start < limit && k <= n
         && IsFreeRun(s.free, start, k) :: k <= best
  }

  /**
    The lowest aligned run that fits is taken whole; a refusal means there is none, and says how
    long a run at a candidate got.
    */
  ghost predicate AllocContiguousStep(s: State, n: nat, alignFrames: nat, s': State, r: Result<nat, FrameError>) {
    var align := AtLeastOne(alignFrames);
    if n == 0 then r == Err(BadRegion) && s' == s
    else
      match r
      case Ok(addr) =>
        var start := addr / PAGE_SIZE;
        && addr == start * PAGE_SIZE && Fits(s, start, n, align)
        && (forall other :: Fits(s, other, n, align) ==> start <= other)
        && s' == s.(free := s.free - Range(start, start + n))
      case Err(e) =>
        && s' == s && (forall other :: !Fits(s, other, n, align))
        && e.Fragmented? && e.requested == n && e.largestRun < n
        && IsBestRun(s, n, align, s.base + s.count, e.largestRun)
  }

  lemma NothingToAllocate(s: State, n: nat, alignFrames: nat)
    ensures n == 0 ==> AllocContiguousStep(s, n, alignFrames, s, Err(BadRegion))
  {
  }

  lemma LowestFitTaken(s: State, n: nat, alignFrames: nat, candidate: nat)
    requires n > 0 && candidate % AtLeastOne(alignFrames) == 0 && s.base <= candidate
             && candidate + n <= s.base + s.count
    requires IsFreeRun(s.free, candidate, n)
    requires forall other :: Fits(s, other, n, AtLeastOne(alignFrames)) ==> candidate <= other
    ensures AllocContiguousStep(s, n, alignFrames, s.(free := s.free - Range(candidate, candidate + n)),
                                Ok(candidate * PAGE_SIZE))
  {
    hide IsFreeRun, Range;
    assert candidate * PAGE_SIZE / PAGE_SIZE == candidate;
  }

  lemma NothingFits(s: State, n: nat, alignFrames: nat, candidate: nat, bestRun: nat)
    requires n > 0 && candidate + n > s.base + s.count && bestRun < n
             && IsBestRun(s, n, AtLeastOne(alignFrames), candidate, bestRun)
    requires forall other :: Fits(s, other, n, AtLeastOne(alignFrames)) ==> candidate <= other
    ensures AllocContiguousStep(s, n, alignFrames, s, Err(Fragmented(n, bestRun)))
  {
    hide IsFreeRun;
  }

  lemma NothingBelowFirstCandidate(s: State, n: nat, align: nat, candidate: nat)
    requires align > 0 && candidate == NextMultiple(s.base, align)
    ensures forall other :: Fits(s, other, n, align) ==> candidate <= other
    ensures IsBestRun(s, n, align, candidate, 0)
  {
    forall other | IsCandidate(s, other, n, align)
      ensures candidate <= other
    {
      if other < candidate { NoMultipleBetween(s.base, align, other); }
    }
  }

  /** Every run that starts between the candidate and the next multiple past the blocker is spoiled. */
  lemma SkipPastBlocker(s: State, n: nat, align: nat, candidate: nat, blocker: nat)
    requires align > 0 && candidate <= blocker < candidate + n && blocker !in s.free
    requires forall other :: Fits(s, other, n, align) ==> candidate <= other
    ensures forall other :: Fits(s, other, n, align) ==> NextMultiple(blocker + 1, align) <= other
  {
    forall other | Fits(s, other, n, align)
      ensures NextMultiple(blocker + 1, align) <= other
    {
      if blocker < other < NextMultiple(blocker + 1, align) {
        NoMultipleBetween(blocker + 1, align, other);
      }
    }
  }

  /** The blocker also ends every run that starts at a candidate up to it. */
  lemma BestRunGrows(s: State, n: nat, align: nat, candidate: nat, blocker: nat, best: nat)
    requires align > 0 && IsCandidate(s, candidate, n, align) && candidate <= blocker < candidate + n
    requires blocker !in s.free && IsFreeRun(s.free, candidate, blocker - candidate)
    requires IsBestRun(s, n, align, candidate, best)
    ensures IsBestRun(s, n, align, NextMultiple(blocker + 1, align),
                      if blocker - candidate > best then blocker - candidate else best)
  {
    var best' := if blocker - candidate > best then blocker - candidate else best;
    forall start, k: nat | IsCandidate(s, start, n, align) && start < NextMultiple(blocker + 1, align) && k <= n
      && IsFreeRun(s.free, start, k)
      ensures k <= best'
    {
      if start > blocker {
        NoMultipleBetween(blocker + 1, align, start);
      } else {
        assert !(start <= blocker < start + k);
      }
    }
  }

  /**
    A refusal reports the longest free run exactly when a run that long begins at a candidate: at
    an aligned place with as many managed frames from there on as were asked for. Otherwise it
    reports less.
    */
  lemma ReportsLongestRunExactly(s: State, n: nat, alignFrames: nat, r: Result<nat, FrameError>, longest: nat)
    requires n > 0 && AllocContiguousStep(s, n, alignFrames, s, r) && r.Err? && IsLongestRun(s, longest)
    ensures r.error.Fragmented? && r.error.largestRun <= longest
    ensures r.error.largestRun == longest <==>
            longest == 0 || exists start ::
              IsCandidate(s, start, n, AtLeastOne(alignFrames)) && IsFreeRun(s.free, start, longest)
  {
    var align, reported := AtLeastOne(alignFrames), r.error.largestRun;
    if start :| IsCandidate(s, start, n, align) && IsFreeRun(s.free, start, longest) {
      // A candidate with `n` free frames would have been taken.
      assert !Fits(s, start, n, align);
      assert longest < n;
    }
  }

  /**
    The searches add to frame numbers in 64 bits. With an alignment that is a power of two and a
    first candidate whose end fits, no candidate's end passes 2^64.
    */
  predicate FitsWords(base: nat, n: nat, alignFrames: nat) {
    alignFrames <= 0x8000_0000_0000_0000 && NextMultiple(base, AtLeastOne(alignFrames)) + n <= MAX_U64
  }

  /** Only a frame that is managed and not free can be freed. */
  ghost predicate FreeStep(s: State, addr: nat, s': State, r: Result<(), FrameError>) {
    var f := addr / PAGE_SIZE;
    if f !in s.Managed() then r == Err(OutOfRange(f)) && s' == s
    else if f in s.free then r == Err(DoubleFree(f)) && s' == s
    else r == Ok(()) && s' == s.(free := s.free + {f}, hint := Arith.Min(s.hint, f - s.base))
  }

  /** All or nothing: the first bad frame of the range is reported and then nothing changes. */
  ghost predicate FreeContiguousStep(s: State, addr: nat, n: nat, s': State, r: Result<(), FrameError>) {
    var first := addr / PAGE_SIZE;
    match r
    case Ok(_) =>
      && Range(first, first + n) <= s.Managed() - s.free
      && first >= s.base
      && s' == s.(free := s.free + Range(first, first + n), hint := Arith.Min(s.hint, first - s.base))
    case Err(e) =>
      && s' == s
      && (e.OutOfRange? || e.DoubleFree?) && first <= e.frame < first + n
      && Range(first, e.frame) <= s.Managed() - s.free
      && (e.OutOfRange? <==> e.frame !in s.Managed())
      && (e.DoubleFree? <==> e.frame in s.free)
  }

  lemma FreeingStep(s: State, addr: nat, n: nat, r: Result<(), FrameError>)
    requires var first := addr / PAGE_SIZE;
             match r
             case Ok(_) => Range(first, first + n) <= s.Managed() - s.free && first >= s.base
             case Err(e) =>
               && (e.OutOfRange? || e.DoubleFree?) && first <= e.frame < first + n
               && Range(first, e.frame) <= s.Managed() - s.free
               && (e.OutOfRange? <==> e.frame !in s.Managed()) && (e.DoubleFree? <==> e.frame in s.free)
    ensures var first := addr / PAGE_SIZE;
            FreeContiguousStep(s, addr, n,
                               if r.Err? then s
                               else s.(free := s.free + Range(first, first + n),
                                       hint := Arith.Min(s.hint, first - s.base)),
                               r)
  {
    hide Range;
  }
}

/** The allocator itself: loops over the words of a bitmap that it updates in place. */
module FrameMachine {
  import opened Wrappers
  import opened Words
  import opened Bits
  import opened Frames

  class FrameAllocator {
    const bitmap: array<u64>
    const base: nat
    const count: nat
    var used: nat
    var nextHint: nat

    ghost predicate Valid()
      reads this, bitmap
    {
      && count <= 64 * bitmap.Length && base + count <= MAX_FRAME
      && used + |FreeOf(bitmap[..], base, count)| == count
      && TailIsUsed(bitmap[..], count)
      && nextHint <= count
    }

    ghost function View(): State
      reads this, bitmap
      requires Valid()
    {
      State(base, count, FreeOf(bitmap[..], base, count), nextHint)
    }

    /** Everything starts out used. */
    constructor (bitmap: array<u64>, base: nat, count: nat)
      requires count <= 64 * bitmap.Length && base + count <= MAX_FRAME
      modifies bitmap
      ensures Valid() && this.bitmap == bitmap && View() == State(base, count, {}, 0)
    {
      this.bitmap, this.base, this.count := bitmap, base, count;
      used, nextHint := count, 0;
      new;
      for i := 0 to bitmap.Length
        modifies bitmap
        invariant forall k :: 0 <= k < i ==> bitmap[k] == MAX_U64
      {
        bitmap[i] := MAX_U64;
      }
      forall o: nat | o < 64 * bitmap.Length
        ensures IsUsedAt(bitmap[..], o)
      {
        MaxHasAllBits(o % 64);
      }
    }

    /** `index_of`: the word and the bit of a managed frame. */
    function IndexOf(frame: int): (r: Result<(nat, nat), FrameError>)
      requires frame >= 0
      ensures r.Ok? <==> base <= frame < base + count
      ensures r.Ok? ==> r.value.1 < 64 && frame == base + 64 * r.value.0 + r.value.1
      ensures r.Err? ==> r == Err(OutOfRange(frame))
    {
      if frame < base || frame >= base + count then Err(OutOfRange(frame))
      else Ok(((frame - base) / FRAMES_PER_WORD, (frame - base) % FRAMES_PER_WORD))
    }

    method IsUsed(frame: nat) returns (r: Result<bool, FrameError>)
      requires Valid()
      ensures frame !in View().Managed() ==> r == Err(OutOfRange(frame))
      ensures frame in View().Managed() ==> r == Ok(frame !in View().free)
      ensures r.Ok? <==> base <= frame < base + count
      ensures View().free <= View().Managed()
    {
      var at := IndexOf(frame);
      if at.Err? { return Err(at.error); }
      r := Ok(Bit(bitmap[at.value.0], at.value.1));
    }

    method SetUsed(frame: nat) returns (r: Result<(), FrameError>)
      requires Valid()
      modifies this, bitmap
      ensures Valid() && nextHint == old(nextHint)
      ensures frame !in View().Managed() ==> r == Err(OutOfRange(frame)) && View() == old(View())
      ensures frame in View().Managed() ==> r == Ok(()) && View() == old(View()).(free := old(View()).free - {frame})
    {
      hide Bit, SetBit, ClearBit, FreeOf, TailIsUsed, Range;
      var at := IndexOf(frame);
      if at.Err? { return Err(at.error); }
      var word, bit := at.value.0, at.value.1;
      ghost var words := bitmap[..];
      FrameBit(words, base, count, frame);
      if !Bit(bitmap[word], bit) {
        bitmap[word] := SetBit(bitmap[word], bit);
        used := used + 1;
        SetUsedInWords(words, base, count, frame - base, bitmap[..]);
      }
      r := Ok(());
    }

    method SetFree(frame: nat) returns (r: Result<(), FrameError>)
      requires Valid()
      modifies this, bitmap
      ensures Valid() && nextHint == old(nextHint)
      ensures frame !in View().Managed() ==> r == Err(OutOfRange(frame)) && View() == old(View())
      ensures frame in View().Managed() ==> r == Ok(()) && View() == old(View()).(free := old(View()).free + {frame})
    {
      hide Bit, SetBit, ClearBit, FreeOf, TailIsUsed, Range;
      var at := IndexOf(frame);
      if at.Err? { return Err(at.error); }
      var word, bit := at.value.0, at.value.1;
      ghost var words := bitmap[..];
      FrameBit(words, base, count, frame);
      if Bit(bitmap[word], bit) {
        bitmap[word] := ClearBit(bitmap[word], bit);
        used := used - 1;
        SetFreeInWords(words, base, count, frame - base, bitmap[..]);
      }
      r := Ok(());
    }

    method AddRegion(region: Region) returns (added: nat)
      requires Valid()
      modifies this, bitmap
      ensures Valid() && AddStep(old(View()), region, View(), added)
    {
      hide FreeOf, TailIsUsed, Range, LiesInside;
      ghost var start := View();
      var first, end := region.FirstInside(), region.EndInside();
      added := 0;
      for frame := first to end
        invariant Valid()
        invariant View() == start.(free := start.free + Range(first, frame) * start.Managed())
        invariant added == |Range(first, frame) * start.Managed()|
      {
        RangeGrows(first, frame, start.Managed());
        var r := SetFree(frame);
        if r.Ok? { added := added + 1; }
      }
      AddedFrames(start, region);
    }

    method ReserveRegion(region: Region) returns (reserved: nat)
      requires Valid()
      modifies this, bitmap
      ensures Valid() && ReserveStep(old(View()), region, View(), reserved)
    {
      hide FreeOf, TailIsUsed, Range, RawRegion.FirstTouched, RawRegion.EndTouched, ReserveStep, Withheld, ManagedIn;
      ghost var start := View();
      TouchedInOrder(region);
      var first, end := region.FirstTouched(), region.EndTouched();
      reserved := 0;
      WithholdNone(start, first);
      for frame := first to end
        invariant Valid() && View() == Withheld(start, first, frame) && reserved == ManagedIn(start, first, frame)
      {
        WithholdOne(start, first, frame);
        var r := SetUsed(frame);
        if r.Ok? { reserved := reserved + 1; }
      }
      WithholdingReserves(start, region);
    }

    method Alloc() returns (r: Result<nat, FrameError>)
      requires Valid()
      modifies this, bitmap
      ensures Valid() && AllocStep(old(View()), View(), r)
    {
      hide Bit, TrailingZeros, SetBit, FreeOf, Range, TailIsUsed, NoneFree, IsNextFit, AllocStep;
      ghost var words := bitmap[..];
      var startWord := nextHint / FRAMES_PER_WORD;
      for pass := 0 to 2
        invariant Valid() && bitmap[..] == words && View() == old(View())
        invariant pass >= 1 ==> NoneFree(words, base, count, startWord, bitmap.Length)
        invariant pass == 2 ==> NoneFree(words, base, count, 0, startWord)
      {
        var from := if pass == 0 then startWord else 0;
        var to := if pass == 0 then bitmap.Length else if startWord < bitmap.Length then startWord else bitmap.Length;
        NothingBetween(words, base, count, from);
        for w := from to to
          invariant Valid() && bitmap[..] == words && View() == old(View())
          invariant NoneFree(words, base, count, from, w)
        {
          var word := bitmap[w];
          if word == MAX_U64 {
            FullWord(words, base, count, from, w);
            continue;
          }
          var bit := TrailingZeros(Not(word));
          var offset := w * FRAMES_PER_WORD + bit;
          FirstFreeInWord(words, base, count, from, w);
          if offset >= count { break; }

          WordYields(words, base, count, nextHint, from, w);
          bitmap[w] := SetBit(word, bit);
          used := used + 1;
          nextHint := offset + 1;
          assert bitmap[..] == words[w := SetBit(word, bit)];
          return Ok((base + offset) * PAGE_SIZE);
        }
      }
      NoneFreeAtAll(words, base, count, startWord);
      FullIsAllocStep(View());
      r := Err(OutOfMemory);
    }

    /**
      First used frame of `n` managed frames from `start` on, found a word at a time; this is
      the answer of a search frame by frame.
      */
    method FirstUsedIn(start: nat, n: nat) returns (r: Option<nat>)
      requires Valid() && base <= start && start + n <= base + count
      ensures r.None? ==> IsFreeRun(View().free, start, n)
      ensures r.Some? ==> start <= r.value < start + n && r.value !in View().free
      ensures r.Some? ==> IsFreeRun(View().free, start, r.value - start)
    {
      hide Bit, And, RangeMask, TrailingZeros, FreeOf, TailIsUsed, Range;
      var frame, end := start, start + n;
      while frame < end
        invariant start <= frame && Valid()
        invariant forall f | start <= f < frame && f < end :: f in View().free
        decreases end - frame
      {
        var at := IndexOf(frame).value;
        var word, bit := at.0, at.1;
        var w := bitmap[word];
        if w == 0 {
          EmptyWord(bitmap[..], base, count, frame, word, bit);
          frame := frame + (FRAMES_PER_WORD - bit);
          continue;
        }
        var remaining := if end - frame < FRAMES_PER_WORD - bit then end - frame else FRAMES_PER_WORD - bit;
        var masked := And(w, RangeMask(bit, remaining));
        MaskedWord(bitmap[..], base, count, frame, word, bit, remaining);
        if masked != 0 {
          return Some(frame - bit + TrailingZeros(masked));
        }
        frame := frame + remaining;
      }
      return None;
    }

    method AllocContiguous(n: nat, alignFrames: nat) returns (r: Result<nat, FrameError>)
      requires Valid() && FitsWords(base, n, alignFrames)
      modifies this, bitmap
      ensures Valid() && AllocContiguousStep(old(View()), n, alignFrames, View(), r)
    {
      hide FreeOf, TailIsUsed, Range, Fits, AllocContiguousStep, IsBestRun, NextMultiple;
      NothingToAllocate(View(), n, alignFrames);
      if n == 0 { return Err(BadRegion); }
      ghost var s := View();
      var align := AtLeastOne(alignFrames);
      var bestRun: nat := 0;
      var candidate := NextMultiple(base, align);
      NothingBelowFirstCandidate(s, n, align, candidate);
      while candidate + n <= base + count
        invariant Valid() && View() == s && base <= candidate && candidate % align == 0
        invariant candidate + n <= MAX_U64
        invariant bestRun < n && IsBestRun(s, n, align, candidate, bestRun)
        invariant forall other :: Fits(s, other, n, align) ==> candidate <= other
        decreases base + count - candidate
      {
        var blocked := FirstUsedIn(candidate, n);
        if blocked.None? {
          LowestFitTaken(s, n, alignFrames, candidate);
          SetAllUsed(candidate, n);
          return Ok(candidate * PAGE_SIZE);
        }
        var blocker := blocked.value;
        BestRunGrows(s, n, align, candidate, blocker, bestRun);
        if blocker - candidate > bestRun { bestRun := blocker - candidate; }
        SkipPastBlocker(s, n, align, candidate, blocker);
        candidate := NextMultiple(blocker + 1, align);
      }
      NothingFits(s, n, alignFrames, candidate, bestRun);
      r := Err(Fragmented(n, bestRun));
    }

    method Free(addr: nat) returns (r: Result<(), FrameError>)
      requires Valid()
      modifies this, bitmap
      ensures Valid() && FreeStep(old(View()), addr, View(), r)
    {
      hide FreeOf, TailIsUsed, Range;
      var frame := addr / PAGE_SIZE;
      var isUsed := IsUsed(frame);
      if isUsed.Err? { return Err(isUsed.error); }
      if !isUsed.value { return Err(DoubleFree(frame)); }
      r := SetFree(frame);
      var offset := frame - base;
      if offset < nextHint { nextHint := offset; }
    }

    method FreeContiguous(addr: nat, n: nat) returns (r: Result<(), FrameError>)
      requires Valid() && (n == 0 ==> base <= addr / PAGE_SIZE) && addr / PAGE_SIZE + n <= MAX_U64
      modifies this, bitmap
      ensures Valid() && FreeContiguousStep(old(View()), addr, n, View(), r)
    {
      hide FreeOf, TailIsUsed, Range, FreeContiguousStep;
      var first := addr / PAGE_SIZE;
      ghost var s := View();
      // Nothing is changed before the whole run is known to be used.
      r := CheckAllUsed(first, n);
      FreeingStep(s, addr, n, r);
      if r.Err? { return; }
      SetAllFree(first, n);
      var offset := first - base;
      if offset < nextHint { nextHint := offset; }
    }

    /** The first loop of `free_contiguous`. */
    method CheckAllUsed(first: nat, n: nat) returns (r: Result<(), FrameError>)
      requires Valid()
      ensures r.Ok? ==> Range(first, first + n) <= View().Managed() - View().free && (n > 0 ==> base <= first)
      ensures r.Err? ==>
                && (r.error.OutOfRange? || r.error.DoubleFree?) && first <= r.error.frame < first + n
                && Range(first, r.error.frame) <= View().Managed() - View().free
                && (r.error.OutOfRange? <==> r.error.frame !in View().Managed())
                && (r.error.DoubleFree? <==> r.error.frame in View().free)
    {
      hide FreeOf, TailIsUsed, Range;
      for f := first to first + n
        invariant Range(first, f) <= View().Managed() - View().free && (f > first ==> base <= first)
      {
        var isUsed := IsUsed(f);
        if isUsed.Err? { return Err(isUsed.error); }
        if !isUsed.value { return Err(DoubleFree(f)); }
        RangeStep(View().free, first, f);
      }
      r := Ok(());
    }

    method SetAllUsed(first: nat, n: nat)
      requires Valid() && base <= first && first + n <= base + count
      modifies this, bitmap
      ensures Valid() && View() == old(View()).(free := old(View()).free - Range(first, first + n))
    {
      hide FreeOf, TailIsUsed, Range;
      ghost var s := View();
      for f := first to first + n
        invariant Valid() && View() == s.(free := s.free - Range(first, f))
      {
        var _ := SetUsed(f);
        RangeStep(s.free, first, f);
      }
    }

    method SetAllFree(first: nat, n: nat)
      requires Valid() && Range(first, first + n) <= View().Managed()
      modifies this, bitmap
      ensures Valid() && View() == old(View()).(free := old(View()).free + Range(first, first + n))
    {
      hide FreeOf, TailIsUsed, Range;
      ghost var s := View();
      for f := first to first + n
        invariant Valid() && View() == s.(free := s.free + Range(first, f))
      {
        var _ := SetFree(f);
        RangeStep(s.free, first, f);
      }
    }

    /** The length of the longest run of free managed frames. */
    method LargestFreeRun() returns (best: nat)
      requires Valid()
      ensures IsLongestRun(View(), best)
    {
      hide FreeOf, TailIsUsed, Range;
      var current: nat := 0;
      best := 0;
      assert IsFreeRun(View().free, 0, 0);
      for offset := 0 to count
        invariant current <= offset && current <= best && HasFreeRun(View().free, best)
        invariant IsFreeRun(View().free, base + offset - current, current)
        invariant current < offset ==> base + offset - current - 1 !in View().free
        invariant forall start, n: nat ::
                  base <= start && start + n <= base + offset && IsFreeRun(View().free, start, n) ==> n <= best
      {
        var isUsed := IsUsed(base + offset);
        if !isUsed.value {
          current := current + 1;
          assert IsFreeRun(View().free, base + offset + 1 - current, current);
          if current > best { best := current; }
        } else {
          current := 0;
        }
      }
    }
  }
}
