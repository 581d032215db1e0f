/**
  What it means for a file to be accepted: exact conditions, the geometry of its sections, and
  what each refusal says.
  */
module PeTheorems {
  import opened Wrappers
  import opened Words
  import opened Bits
  import opened Pe
  import Arith

  // ----- masks are multiples -------------------------------------------------------------

  lemma {:induction false} PowerOfTwoIsPower(x: nat) returns (k: nat)
    requires IsPowerOfTwo(x)
    ensures x == Pow2(k)
  {
    if x == 1 {
      k := 0;
    } else {
      var half := PowerOfTwoIsPower(x / 2);
      k := half + 1;
    }
  }

  lemma {:induction false} AndAllOnes(v: nat, n: nat)
    requires v < Pow2(n)
    ensures And(v, Pow2(n) - 1) == v
  {
    if n > 0 && v != 0 {
      assert (Pow2(n) - 1) / 2 == Pow2(n - 1) - 1 && (Pow2(n) - 1) % 2 == 1;
      AndAllOnes(v / 2, n - 1);
    }
  }

  lemma PowerAtMost(k: nat, n: nat)
    requires k <= n
    ensures Pow2(k) <= Pow2(n)
  {
    if k < n { PowerMonotone(k, n); }
  }

  /** The multiple of `p` at or below `v`. */
  function Floor(v: nat, p: nat): nat
    requires p > 0
  {
    v - v % p
  }

  /** Clearing the `k` low bits of an `n`-bit number leaves the multiple of `2^k` below it. */
  lemma {:induction false} MaskFloors(v: nat, n: nat, k: nat)
    requires v < Pow2(n) && k <= n
    ensures Pow2(k) <= Pow2(n) && And(v, Pow2(n) - Pow2(k)) == Floor(v, Pow2(k))
  {
    hide Floor, And, Pow2;
    PowerAtMost(k, n);
    if k == 0 {
      MaskNothing(v, n);
    } else {
      PowerStep(n);
      PowerStep(k);
      MaskFloors(v / 2, n - 1, k - 1);
      AndEven(v, Pow2(n - 1) - Pow2(k - 1));
      FloorOfHalf(v, Pow2(k - 1));
    }
  }

  lemma MaskNothing(v: nat, n: nat)
    requires v < Pow2(n)
    ensures Pow2(0) == 1 && And(v, Pow2(n) - Pow2(0)) == Floor(v, Pow2(0))
  {
    hide And;
    AndAllOnes(v, n);
  }

  lemma PowerStep(n: nat)
    requires n > 0
    ensures Pow2(n) == 2 * Pow2(n - 1)
  {
  }

  lemma AndEven(v: nat, mask: nat)
    ensures And(v, 2 * mask) == 2 * And(v / 2, mask)
  {
    assert 2 * mask % 2 == 0 && 2 * mask / 2 == mask;
    if v != 0 && mask != 0 { AndStep(v, 2 * mask); }
  }

  lemma AndStep(x: nat, y: nat)
    requires x != 0 && y != 0 && y % 2 == 0
    ensures And(x, y) == 2 * And(x / 2, y / 2)
  {
  }

  lemma FloorOfHalf(v: nat, p: nat)
    requires p > 0
    ensures Floor(v, 2 * p) == 2 * Floor(v / 2, p)
  {
    var h := v / 2;
    var q, r := h / p, h % p;
    Arith.FloorMultiple(h, p);
    Double(q, p);
    Arith.UniqueDivision(v, 2 * p, q, 2 * r + v % 2);
  }

  lemma Double(q: nat, p: nat)
    ensures q * (2 * p) == 2 * (q * p)
  {
  }

  lemma Pow2Of32()
    ensures Pow2(32) == MAX_U32 + 1
  {
    assert Pow2(8) == 0x100;
    assert Pow2(16) == 0x1_0000;
    assert Pow2(24) == 0x100_0000;
  }

  lemma ExponentBelow(k: nat, n: nat)
    requires Pow2(k) < Pow2(n)
    ensures k < n
  {
    if k >= n { PowerAtMost(n, k); }
  }

  /** Both helpers round to multiples of the alignment. */
  lemma AlignmentRounds(v: nat, align: nat)
    requires IsPowerOfTwo(align) && align <= MAX_U32 && v <= MAX_U32
    ensures AlignDown(v, align) == v / align * align
    ensures AlignUp(v, align) == (v + align - 1) / align * align
  {
    var k := PowerOfTwoIsPower(align);
    hide Pow2, And, IsPowerOfTwo, AlignDown, AlignUp;
    Pow2Of32();
    ExponentBelow(k, 32);
    RoundsDown(v, align, k);
    RoundsUp(v, align, k);
  }

  lemma RoundsDown(v: nat, align: nat, k: nat)
    requires align == Pow2(k) <= MAX_U32 && k < 32 && v <= MAX_U32
    ensures AlignDown(v, align) == v / align * align
  {
    hide Pow2, And;
    Pow2Of32();
    MaskIsMultiple(v, 32, k);
    assert MAX_U32 - (align - 1) == Pow2(32) - Pow2(k);
  }

  lemma RoundsUp(v: nat, align: nat, k: nat)
    requires align == Pow2(k) <= MAX_U32 && k < 32 && v <= MAX_U32
    ensures AlignUp(v, align) == (v + align - 1) / align * align
  {
    hide Pow2, And;
    Pow2Of64();
    MaskIsMultiple(v + align - 1, 64, k);
    assert MAX_U64 - (align - 1) == Pow2(64) - Pow2(k);
  }

  lemma MaskIsMultiple(v: nat, n: nat, k: nat)
    requires v < Pow2(n) && k <= n
    ensures Pow2(k) <= Pow2(n) && And(v, Pow2(n) - Pow2(k)) == v / Pow2(k) * Pow2(k)
  {
    MaskFloors(v, n, k);
    hide Pow2, And;
    Arith.FloorMultiple(v, Pow2(k));
  }

  // ----- flags ---------------------------------------------------------------------------

  /** Testing a power of two is testing one bit. */
  lemma FlagIsBit(x: nat, n: nat, width: nat)
    requires x < Pow2(width) && n < width
    ensures HasFlag(x, Pow2(n)) <==> Bit(x, n)
  {
    AndBound(x, Pow2(n));
    forall k: nat | k < width
      ensures Bit(And(x, Pow2(n)), k) <==> Bit(x, k) && k == n
    {
      AndBit(x, Pow2(n), k);
      PowerBit(n, k);
    }
    if And(x, Pow2(n)) != 0 {
      if forall k: nat :: k < width ==> !Bit(And(x, Pow2(n)), k) { NoBitsIsZero(And(x, Pow2(n)), width); }
    } else {
      ZeroHasNoBits(n);
    }
  }

  lemma SectionFlags(x: nat)
    requires x <= MAX_U32
    ensures HasFlag(x, SCN_MEM_EXECUTE) <==> Bit(x, 29)
    ensures HasFlag(x, SCN_MEM_READ) <==> Bit(x, 30)
    ensures HasFlag(x, SCN_MEM_WRITE) <==> Bit(x, 31)
  {
    Pow2Of32();
    assert Pow2(32) == 2 * Pow2(31) && Pow2(31) == 2 * Pow2(30) && Pow2(30) == 2 * Pow2(29);
    hide Pow2, HasFlag, Bit;
    FlagIsBit(x, 29, 32);
    FlagIsBit(x, 30, 32);
    FlagIsBit(x, 31, 32);
  }

  // ----- blocks --------------------------------------------------------------------------

  /** Some byte of the section lies in the aligned block `q`. */
  ghost predicate Touches(s: Section, align: nat, q: int)
    requires align > 0
  {
    exists a: nat :: s.virtualAddress <= a < s.VirtualEnd() && a / align == q
  }

  /** The block `q` lies in the range of the section, rounded outward. */
  predicate Occupies(s: Section, align: nat, q: int)
    requires align > 0
  {
    s.virtualAddress / align <= q < (s.VirtualEnd() + align - 1) / align
  }

  /** The numbers of the first block of a section and of the one past its last. */
  function FirstBlock(s: Section, align: nat): nat
    requires align > 0
  {
    s.virtualAddress / align
  }

  function EndBlock(s: Section, align: nat): nat
    requires align > 0
  {
    (s.VirtualEnd() + align - 1) / align
  }

  lemma RoundedRange(s: Section, align: nat)
    requires IsPowerOfTwo(align) && align <= MAX_U32 && s.VirtualEnd() <= MAX_U32
    ensures Start(s, align) == FirstBlock(s, align) * align && End(s, align) == EndBlock(s, align) * align
    ensures FirstBlock(s, align) <= EndBlock(s, align)
    ensures FirstBlock(s, align) == EndBlock(s, align) <==> s.Extent() == 0 && s.virtualAddress % align == 0
  {
    AlignmentRounds(s.virtualAddress, align);
    AlignmentRounds(s.VirtualEnd(), align);
    hide AlignDown, AlignUp, IsPowerOfTwo;
    BlocksOfRange(s.virtualAddress, s.Extent(), align);
  }

  lemma BlocksOfRange(v: nat, extent: nat, align: nat)
    requires align > 0
    ensures v / align <= (v + extent + align - 1) / align
    ensures v / align == (v + extent + align - 1) / align <==> extent == 0 && v % align == 0
  {
    var q, r := v / align, v % align;
    assert v == q * align + r;
    if extent == 0 && r == 0 {
      Arith.UniqueDivision(v + extent + align - 1, align, q, align - 1);
    } else {
      assert (q + 1) * align == q * align + align;
      BelowQuotient(v + extent + align - 1, align, q + 1);
    }
  }

  lemma BelowQuotient(a: nat, d: nat, q: nat)
    requires d > 0 && q * d <= a
    ensures q <= a / d
  {
    assert a == a / d * d + a % d;
    if q > a / d { Arith.MulGap(a / d, q, d); }
  }

  /** Multiples compare as their factors. */
  lemma MultiplesCompare(x: int, y: int, d: nat)
    requires d > 0
    ensures x * d < y * d <==> x < y
    ensures x * d <= y * d <==> x <= y
  {
    if x < y { Arith.MulGap(x, y, d); } else { Arith.MulMonotone(y, x, d); }
    if x > y { Arith.MulGap(y, x, d); }
  }

  /** Every block a byte of the section lies in is in its rounded range. */
  lemma TouchedIsOccupied(s: Section, align: nat, q: int)
    requires IsPowerOfTwo(align) && align <= MAX_U32 && s.VirtualEnd() <= MAX_U32
    ensures Touches(s, align, q) ==> Occupies(s, align, q)
  {
    assert align > 0;
    hide IsPowerOfTwo;
    if Touches(s, align, q) {
      var a: nat :| s.virtualAddress <= a < s.VirtualEnd() && a / align == q;
      BlockOfByte(s.virtualAddress, a, s.VirtualEnd(), align);
    }
  }

  lemma BlockOfByte(v: nat, a: nat, end: nat, align: nat)
    requires align > 0 && v <= a < end
    ensures v / align <= a / align < (end + align - 1) / align
  {
    Arith.QuotientMonotone(v, a, align);
    var q := a / align;
    assert a == q * align + a % align;
    assert (q + 1) * align == q * align + align;
    BelowQuotient(end + align - 1, align, q + 1);
  }

  /** A section that takes no block: it has no size and starts on a block boundary. */
  predicate IsEmptyRange(s: Section, align: nat)
    requires align > 0
  {
    s.Extent() == 0 && s.virtualAddress % align == 0
  }

  /**
    Two sections are refused as overlapping exactly when they share a block, or one that takes
    none lies strictly inside the other.
    */
  lemma OverlapExactly(a: Section, b: Section, align: nat)
    requires IsPowerOfTwo(align) && align <= MAX_U32 && a.VirtualEnd() <= MAX_U32 && b.VirtualEnd() <= MAX_U32
    ensures Overlap(a, b, align) <==>
            || (exists q :: Occupies(a, align, q) && Occupies(b, align, q))
            || (IsEmptyRange(a, align) && FirstBlock(b, align) < FirstBlock(a, align) < EndBlock(b, align))
            || (IsEmptyRange(b, align) && FirstBlock(a, align) < FirstBlock(b, align) < EndBlock(a, align))
  {
    RoundedRange(a, align);
    RoundedRange(b, align);
    assert forall q :: Occupies(a, align, q) <==> FirstBlock(a, align) <= q < EndBlock(a, align);
    assert forall q :: Occupies(b, align, q) <==> FirstBlock(b, align) <= q < EndBlock(b, align);
    var fa, ea, fb, eb := FirstBlock(a, align), EndBlock(a, align), FirstBlock(b, align), EndBlock(b, align);
    MultiplesCompare(fa, eb, align);
    MultiplesCompare(fb, ea, align);
    MultiplesCompare(fb, fa, align);
    MultiplesCompare(fa, fb, align);
    hide IsPowerOfTwo, FirstBlock, EndBlock, Start, End, Occupies;
    var q := if fa >= fb then fa else fb;
    if fa < ea && fb < eb && fa < eb && fb < ea {
      assert Occupies(a, align, q) && Occupies(b, align, q);
    }
  }

  // ----- what is accepted ----------------------------------------------------------------

  /** The headers a file needs, all conditions at once. */
  predicate HasGoodHeaders(b: seq<byte>) {
    && |b| >= 0x40 && Value(b, 0, 2) == DOS_MAGIC
    && var pe := Value(b, 0x3C, 4);
       && pe + 96 <= |b| && Value(b, pe, 4) == PE_MAGIC
       && CoffAt(b, pe + 4).machine == MACHINE_AMD64
       && CoffAt(b, pe + 4).numberOfSections <= MAX_SECTIONS
       && CoffAt(b, pe + 4).sizeOfOptionalHeader >= 112
       && OptionalAt(b, pe + 24).magic == OPT_MAGIC_PE32PLUS
       && IsSane(OptionalAt(b, pe + 24))
  }

  lemma HeadersExactly(b: seq<byte>)
    ensures HeadersOf(b).Ok? <==> HasGoodHeaders(b)
    ensures HeadersOf(b).Ok? ==>
              && HeadersOf(b).value.optional == OptionalAt(b, Value(b, 0x3C, 4) + 24)
              && IsSane(HeadersOf(b).value.optional)
              && HeadersOf(b).value.optional.sectionAlignment <= MAX_U32
              && HeadersOf(b).value.optional.sizeOfImage <= MAX_U32
  {
    hide Value, IsSane;
    if HeadersOf(b).Ok? {
      var at := Value(b, 0x3C, 4) + 24;
      ValueBound(b, at + 32);
      ValueBound(b, at + 56);
    }
  }

  /** Entry `k` of the section table lies in the file and describes a section that fits. */
  predicate HasGoodSection(b: seq<byte>, h: Headers, k: nat) {
    && h.sectionTable + k * 40 + 40 <= |b|
    && Fits(SectionAt(b, h.sectionTable + k * 40), h.optional, |b|)
  }

  lemma {:induction false} SectionsExactly(b: seq<byte>, h: Headers, n: nat)
    ensures SectionsOf(b, h, n).Ok? <==> forall k | 0 <= k < n :: HasGoodSection(b, h, k)
    ensures SectionsOf(b, h, n).Ok? ==>
              && |SectionsOf(b, h, n).value| == n
              && forall k | 0 <= k < n ::
                   HasGoodSection(b, h, k) && SectionsOf(b, h, n).value[k] == SectionAt(b, h.sectionTable + k * 40)
  {
    hide SectionAt, Fits;
    if n > 0 {
      SectionsExactly(b, h, n - 1);
      assert SectionsOf(b, h, n).Ok? ==> HasGoodSection(b, h, n - 1);
      if !HasGoodSection(b, h, n - 1) { assert SectionsOf(b, h, n).Err?; }
    }
  }

  /** A file is accepted exactly when its headers are good, every section fits, and none overlap. */
  lemma AcceptedExactly(b: seq<byte>, r: Result<Image, PeError>)
    requires IsParsed(b, r)
    ensures r.Ok? <==>
            && HasGoodHeaders(b)
            && var h := HeadersOf(b);
               && h.Ok? && 0 < h.value.optional.sectionAlignment <= MAX_U32
               && (forall k | 0 <= k < h.value.coff.numberOfSections :: HasGoodSection(b, h.value, k))
               && var s := SectionsOf(b, h.value, h.value.coff.numberOfSections);
                  s.Ok? && NoOverlap(s.value, h.value.optional.sectionAlignment)
  {
    hide HeadersOf, SectionsOf, HasGoodHeaders, HasGoodSection, Overlap, HasFlag;
    HeadersExactly(b);
    if HeadersOf(b).Ok? {
      SectionsExactly(b, HeadersOf(b).value, HeadersOf(b).value.coff.numberOfSections);
    }
  }

  /** Accepted sections: read from the table, and within the widths of their fields. */
  lemma AcceptedSection(b: seq<byte>, image: Image, k: nat)
    requires IsParsed(b, Ok(image)) && k < |image.sections|
    ensures Fits(image.sections[k], image.optional, |b|)
    ensures IsPowerOfTwo(image.optional.sectionAlignment) && image.optional.sectionAlignment <= MAX_U32
    ensures image.sections[k].VirtualEnd() <= MAX_U32 && image.sections[k].characteristics <= MAX_U32
    ensures NoOverlap(image.sections, image.optional.sectionAlignment)
  {
    hide HeadersOf, SectionsOf, HasFlag, Overlap, Value;
    HeadersExactly(b);
    var h := HeadersOf(b).value;
    SectionsExactly(b, h, h.coff.numberOfSections);
    assert HasGoodSection(b, h, k);
    ValueBound(b, h.sectionTable + k * 40 + 36);
  }

  /** The raw range lies in the file; the virtual range lies in the image and does not start below the headers. */
  lemma AcceptedRanges(b: seq<byte>, image: Image, k: nat)
    requires IsParsed(b, Ok(image)) && k < |image.sections|
    ensures var s := image.sections[k];
            && s.pointerToRawData + s.sizeOfRawData <= |b|
            && image.optional.sizeOfHeaders <= s.virtualAddress
            && s.virtualAddress + s.virtualSize <= image.optional.sizeOfImage
            && s.virtualAddress + s.sizeOfRawData <= image.optional.sizeOfImage
  {
    hide IsParsed, NoOverlap, IsPowerOfTwo;
    AcceptedSection(b, image, k);
  }

  /**
    Each aligned block has at most one owner: the rounded ranges of two sections of an accepted
    image share no block, so that the sections have no bytes in the same block either.
    */
  lemma BlocksHaveOneOwner(b: seq<byte>, image: Image, i: nat, j: nat, q: int)
    requires IsParsed(b, Ok(image)) && i < j < |image.sections|
    ensures 0 < image.optional.sectionAlignment <= MAX_U32
    ensures var a, c, align := image.sections[i], image.sections[j], image.optional.sectionAlignment;
            !(Occupies(a, align, q) && Occupies(c, align, q)) && !(Touches(a, align, q) && Touches(c, align, q))
  {
    AcceptedSection(b, image, i);
    AcceptedSection(b, image, j);
    hide IsParsed, Touches, Occupies, Overlap, Fits;
    var a, c, align := image.sections[i], image.sections[j], image.optional.sectionAlignment;
    TouchedIsOccupied(a, align, q);
    TouchedIsOccupied(c, align, q);
    OverlapExactly(a, c, align);
    hide IsPowerOfTwo;
  }

  /** Some byte of the headers lies in the block the section starts in. */
  ghost predicate SharesBlockWithHeaders(s: Section, o: OptionalHeader, align: nat)
    requires align > 0
  {
    exists a: nat :: a < o.sizeOfHeaders && a / align == FirstBlock(s, align)
  }

  /**
    Starting past the headers is not enough to keep clear of their last block: a section of an
    accepted image does exactly when it starts no lower than the headers' size rounded up.
    */
  lemma FirstBlockIsFreeOfHeadersExactly(b: seq<byte>, image: Image, k: nat)
    requires IsParsed(b, Ok(image)) && k < |image.sections|
    ensures 0 < image.optional.sectionAlignment <= MAX_U32
    ensures var s, o, align := image.sections[k], image.optional, image.optional.sectionAlignment;
            !SharesBlockWithHeaders(s, o, align) <==> s.virtualAddress >= AlignUp(o.sizeOfHeaders, align)
  {
    hide *;
    var s, o, align := image.sections[k], image.optional, image.optional.sectionAlignment;
    AcceptedSection(b, image, k);
    PastHeaders(s, o, |b|);
    PositivePower(align);
    AlignmentRounds(o.sizeOfHeaders, align);
    SharesExactly(s, o, align);
  }

  lemma PastHeaders(s: Section, o: OptionalHeader, fileLen: nat)
    requires Fits(s, o, fileLen)
    ensures o.sizeOfHeaders <= s.virtualAddress <= s.VirtualEnd()
  {
  }

  lemma PositivePower(x: nat)
    requires IsPowerOfTwo(x)
    ensures x > 0
  {
  }

  lemma SharesExactly(s: Section, o: OptionalHeader, align: nat)
    requires align > 0 && o.sizeOfHeaders <= s.virtualAddress
    ensures SharesBlockWithHeaders(s, o, align) <==> s.virtualAddress < (o.sizeOfHeaders + align - 1) / align * align
  {
    HeadersEnd(s.virtualAddress, o.sizeOfHeaders, align);
    if s.virtualAddress < (o.sizeOfHeaders + align - 1) / align * align {
      assert o.sizeOfHeaders - 1 < o.sizeOfHeaders && (o.sizeOfHeaders - 1) / align == FirstBlock(s, align);
    }
  }

  lemma HeadersEnd(v: nat, headers: nat, align: nat)
    requires align > 0 && headers <= v
    ensures v < (headers + align - 1) / align * align ==> headers > 0 && (headers - 1) / align == v / align
    ensures v >= (headers + align - 1) / align * align ==> forall a: nat | a < headers :: a / align < v / align
  {
    var q := (headers + align - 1) / align;
    RoundedUpEnd(headers, align, q);
    if v < q * align {
      LastBlock(headers - 1, align, q);
      LastBlock(v, align, q);
    } else {
      BelowQuotient(v, align, q);
      forall a: nat | a < headers
        ensures a / align < v / align
      {
        Arith.QuotientBounds(a, align, 0, q);
      }
    }
  }

  /** `q` blocks hold the headers, and one fewer do not. */
  lemma RoundedUpEnd(headers: nat, align: nat, q: nat)
    requires align > 0 && q == (headers + align - 1) / align
    ensures headers <= q * align && (headers > 0 ==> q > 0 && (q - 1) * align < headers)
    ensures headers == 0 ==> q == 0
  {
    Arith.FloorMultiple(headers + align - 1, align);
    if headers == 0 {
      Arith.UniqueDivision(align - 1, align, 0, align - 1);
    } else {
      Arith.QuotientBounds(headers + align - 1, align, 1, headers + align);
      OneLess(q, align);
    }
  }

  lemma OneLess(q: nat, align: nat)
    ensures (q - 1) * align == q * align - align
  {
  }

  lemma LastBlock(v: nat, align: nat, q: nat)
    requires align > 0 && q > 0 && (q - 1) * align <= v < q * align
    ensures v / align == q - 1
  {
    Arith.QuotientBounds(v, align, q - 1, q);
  }

  /**
    A file of 0x500 bytes with one section at 0x500, past headers of 0x400 bytes, at an alignment of
    0x1000. Bytes not named here are zero.
    */
  function SmallFile(): (b: seq<byte>)
    ensures |b| == 0x500 && forall i: nat | i < 0x500 :: b[i] == SmallFileByte(i)
  {
    seq(0x500, (i: nat) => SmallFileByte(i))
  }

  function SmallFileByte(i: nat): byte {
    match i
    case 0x00 => 0x4D
    case 0x01 => 0x5A
    case 0x3C => 0x40 // the PE header's offset
    case 0x40 => 0x50
    case 0x41 => 0x45
    case 0x44 => 0x64 // the machine
    case 0x45 => 0x86
    case 0x46 => 0x01 // one section
    case 0x54 => 0x70 // the optional header's size
    case 0x58 => 0x0B
    case 0x59 => 0x02
    case 0x79 => 0x10 // section alignment 0x1000
    case 0x7D => 0x02 // file alignment 0x200
    case 0x91 => 0x10 // image size 0x1000
    case 0x95 => 0x04 // header size 0x400
    case 0xD1 => 0x01 // virtual size 0x100
    case 0xD5 => 0x05 // virtual address 0x500
    case 0xD9 => 0x01 // raw size 0x100
    case 0xDD => 0x04 // raw data at 0x400
    case _ => 0
  }

  lemma ValueOfTwo(b: seq<byte>, off: nat)
    requires off + 2 <= |b|
    ensures Value(b, off, 2) == b[off] + 0x100 * (b[off + 1] as nat)
  {
    assert Value(b, off + 2, 0) == 0;
  }

  lemma ValueOfFour(b: seq<byte>, off: nat)
    requires off + 4 <= |b|
    ensures Value(b, off, 4) ==
            b[off] + 0x100 * (b[off + 1] as nat) + 0x1_0000 * (b[off + 2] as nat) + 0x100_0000 * (b[off + 3] as nat)
  {
    ValueOfTwo(b, off + 2);
    assert Value(b, off, 4) == b[off] + 256 * (b[off + 1] + 256 * Value(b, off + 2, 2));
  }

  lemma SmallFileSignatures()
    ensures var b := SmallFile();
            && Value(b, 0, 2) == DOS_MAGIC && Value(b, 0x3C, 4) == 0x40 && Value(b, 0x40, 4) == PE_MAGIC
            && Value(b, 0x44, 2) == MACHINE_AMD64 && Value(b, 0x46, 2) == 1 && Value(b, 0x54, 2) == 112
  {
    var b := SmallFile();
    hide Value, SmallFile;
    ValueOfTwo(b, 0);
    ValueOfFour(b, 0x3C);
    ValueOfFour(b, 0x40);
    ValueOfTwo(b, 0x44);
    ValueOfTwo(b, 0x46);
    ValueOfTwo(b, 0x54);
  }

  lemma SmallFileOptional()
    ensures var b := SmallFile();
            && Value(b, 0x58, 2) == OPT_MAGIC_PE32PLUS && Value(b, 0x68, 4) == 0 && Value(b, 0x78, 4) == 0x1000
            && Value(b, 0x7C, 4) == 0x200 && Value(b, 0x90, 4) == 0x1000 && Value(b, 0x94, 4) == 0x400
  {
    var b := SmallFile();
    hide Value, SmallFile;
    ValueOfTwo(b, 0x58);
    ValueOfFour(b, 0x68);
    ValueOfFour(b, 0x78);
    ValueOfFour(b, 0x7C);
    ValueOfFour(b, 0x90);
    ValueOfFour(b, 0x94);
  }

  lemma SmallFileHeaders()
    ensures var h := HeadersOf(SmallFile());
            && h.Ok? && h.value.coff.numberOfSections == 1 && h.value.sectionTable == 0xC8
            && h.value.optional.sectionAlignment == 0x1000 && h.value.optional.sizeOfImage == 0x1000
            && h.value.optional.sizeOfHeaders == 0x400
  {
    SmallFileSignatures();
    SmallFileOptional();
    PowersOfTwo();
    hide IsPowerOfTwo, SmallFileByte, Value, SmallFile;
  }

  lemma PowersOfTwo()
    ensures IsPowerOfTwo(0x200) && IsPowerOfTwo(0x1000)
  {
    assert IsPowerOfTwo(0x4);
    assert IsPowerOfTwo(0x10);
    assert IsPowerOfTwo(0x40);
    assert IsPowerOfTwo(0x100);
    assert IsPowerOfTwo(0x400);
  }

  lemma SmallFileSection(s: Section)
    requires s == SectionAt(SmallFile(), 0xC8)
    ensures s.virtualSize == 0x100 && s.virtualAddress == 0x500 && s.sizeOfRawData == 0x100
    ensures s.pointerToRawData == 0x400
  {
    var b := SmallFile();
    hide Value, SmallFile;
    ValueOfFour(b, 0xD0);
    ValueOfFour(b, 0xD4);
    ValueOfFour(b, 0xD8);
    ValueOfFour(b, 0xDC);
  }

  /** The small file is accepted, and its section shares the block at 0 with the headers. */
  lemma SectionMayShareBlockWithHeaders() returns (image: Image)
    ensures IsParsed(SmallFile(), Ok(image)) && |image.sections| == 1 && image.optional.sectionAlignment == 0x1000
    ensures SharesBlockWithHeaders(image.sections[0], image.optional, 0x1000)
  {
    var b := SmallFile();
    SmallFileHeaders();
    hide Value, SmallFile, HeadersOf, HasFlag, SmallFileByte;
    var h := HeadersOf(b).value;
    var s := SectionAt(b, 0xC8);
    SmallFileSection(s);
    OneSection(b, h, s);
    image := Image(h.coff, h.optional, [s], !HasFlag(h.optional.dllCharacteristics, DLL_DYNAMIC_BASE),
                   AsksWriteExecute(s));
    OneSectionParses(b, h, s, image);
    assert 0 < image.optional.sizeOfHeaders && 0 / 0x1000 == FirstBlock(s, 0x1000);
  }

  lemma OneSection(b: seq<byte>, h: Headers, s: Section)
    requires h.sectionTable + 40 <= |b| && s == SectionAt(b, h.sectionTable) && Fits(s, h.optional, |b|)
    ensures SectionsOf(b, h, 1) == Ok([s])
  {
    hide SectionAt, Fits;
    var none := SectionsOf(b, h, 0);
    assert none == Ok([]);
    var at := h.sectionTable + 0 * 40;
    assert SectionAt(b, at) == s;
    assert SectionsOf(b, h, 1) == Ok(none.value + [s]);
    assert [] + [s] == [s];
  }

  lemma OneSectionParses(b: seq<byte>, h: Headers, s: Section, image: Image)
    requires HeadersOf(b) == Ok(h) && h.coff.numberOfSections == 1 && 0 < h.optional.sectionAlignment <= MAX_U32
    requires SectionsOf(b, h, 1) == Ok([s])
    requires image ==
             Image(h.coff, h.optional, [s], !HasFlag(h.optional.dllCharacteristics, DLL_DYNAMIC_BASE),
                   AsksWriteExecute(s))
    ensures IsParsed(b, Ok(image))
  {
    hide HeadersOf, SectionsOf, HasFlag, AsksWriteExecute, Overlap;
    assert [s][0] == s;
  }

  /** The flag says exactly that some section asks to be writable and executable, and no section is given both. */
  lemma WriteExecuteExactly(b: seq<byte>, image: Image)
    requires IsParsed(b, Ok(image))
    ensures image.hadWxSection <==>
            exists k ::
              0 <= k < |image.sections| && Bit(image.sections[k].characteristics, 29)
              && Bit(image.sections[k].characteristics, 31)
    ensures forall k | 0 <= k < |image.sections| && image.sections[k].Protection().Ok? ::
              !(image.sections[k].Protection().value.write && image.sections[k].Protection().value.execute)
  {
    forall k | 0 <= k < |image.sections|
      ensures AsksWriteExecute(image.sections[k]) <==>
              Bit(image.sections[k].characteristics, 29) && Bit(image.sections[k].characteristics, 31)
    {
      AcceptedSection(b, image, k);
      SectionFlags(image.sections[k].characteristics);
    }
    hide AsksWriteExecute, HasFlag, Bit, NoOverlap;
  }

  // ----- what is refused -----------------------------------------------------------------

  /** The first bytes say what the file is: both signatures are there, as far as the file reaches. */
  predicate IsPe(b: seq<byte>) {
    && |b| >= 0x40 && Value(b, 0, 2) == DOS_MAGIC
    && var pe := Value(b, 0x3C, 4); pe + 24 <= |b| ==> Value(b, pe, 4) == PE_MAGIC
  }

  /** And the machine is named: the COFF header lies in the file. */
  predicate NamesMachine(b: seq<byte>) {
    IsPe(b) && Value(b, 0x3C, 4) + 24 <= |b|
  }

  /** A header of the right kind, whose counts are in range and whose optional header at least starts in the file. */
  predicate HasOptionalHeader(b: seq<byte>) {
    && NamesMachine(b)
    && var pe := Value(b, 0x3C, 4);
       && CoffAt(b, pe + 4).numberOfSections <= MAX_SECTIONS && CoffAt(b, pe + 4).sizeOfOptionalHeader >= 112
       && pe + 26 <= |b|
  }

  function MachineOf(b: seq<byte>): nat {
    if NamesMachine(b) then CoffAt(b, Value(b, 0x3C, 4) + 4).machine else 0
  }

  /** Another machine is named, or the optional header is not of the 64-bit kind. */
  predicate IsForAnotherLoader(b: seq<byte>) {
    && NamesMachine(b)
    && (MachineOf(b) != MACHINE_AMD64
         || (HasOptionalHeader(b) && Value(b, Value(b, 0x3C, 4) + 24, 2) != OPT_MAGIC_PE32PLUS))
  }

  /** `NotPe` says exactly that a signature is missing. */
  lemma NotPeExactly(b: seq<byte>, r: Result<Image, PeError>)
    requires IsParsed(b, r)
    ensures r == Err(NotPe) <==> !IsPe(b)
  {
    OnlyLaterErrors(b, r);
    hide Value, IsSane, IsParsed, CoffAt, OptionalAt;
  }

  /**
    `WrongMachine` names the machine of the header: it comes exactly when that is another one, or
    when it is the right one but the optional header is not of the 64-bit kind; then the error
    names the machine this loader does load.
    */
  lemma WrongMachineExactly(b: seq<byte>, r: Result<Image, PeError>, machine: nat)
    requires IsParsed(b, r)
    ensures r == Err(WrongMachine(machine)) <==>
            IsForAnotherLoader(b) && machine == MachineOf(b)
  {
    OnlyLaterErrors(b, r);
    hide Value, IsSane, IsParsed, CoffAt, OptionalAt;
  }

  /**
    `TruncatedHeader` comes exactly when nothing above is wrong, and either the headers are not
    good or an entry of the section table, the first that is, leaves the file.
    */
  lemma TruncatedExactly(b: seq<byte>, r: Result<Image, PeError>)
    requires IsParsed(b, r)
    ensures r == Err(TruncatedHeader) <==>
            && IsPe(b) && !IsForAnotherLoader(b)
            && (!HasGoodHeaders(b) ||
                (HeadersOf(b).Ok? && exists k: nat ::
                  IsFirstCutEntry(b, HeadersOf(b).value, HeadersOf(b).value.coff.numberOfSections, k)))
  {
    OnlyLaterErrors(b, r);
    HeadersExactly(b);
    if HeadersOf(b).Ok? {
      FirstCutEntry(b, HeadersOf(b).value, HeadersOf(b).value.coff.numberOfSections);
    }
    HeaderErrorIs(b);
    hide Value, IsSane, IsParsed, CoffAt, OptionalAt, HeadersOf, HasGoodHeaders, SectionsOf, HasGoodSection, IsPe,
         MachineOf, IsForAnotherLoader, IsFirstCutEntry;
  }

  lemma HeaderErrorIs(b: seq<byte>)
    ensures HeadersOf(b).Err? ==>
              if !IsPe(b) then HeadersOf(b).error == NotPe
              else HeadersOf(b).error == if IsForAnotherLoader(b) then WrongMachine(MachineOf(b)) else TruncatedHeader
    ensures HeadersOf(b).Ok? ==> IsPe(b) && !IsForAnotherLoader(b)
  {
    hide Value, IsSane, CoffAt, OptionalAt;
  }

  /** Of the first `n` entries this one leaves the file, and everything before it is good. */
  ghost predicate IsFirstCutEntry(b: seq<byte>, h: Headers, n: nat, k: nat) {
    && k < n && h.sectionTable + k * 40 + 40 > |b|
    && forall i | 0 <= i < k :: HasGoodSection(b, h, i)
  }

  lemma {:induction false} FirstCutEntry(b: seq<byte>, h: Headers, n: nat)
    ensures SectionsOf(b, h, n) == Err(TruncatedHeader) <==>
            exists k: nat :: IsFirstCutEntry(b, h, n, k)
    ensures SectionsOf(b, h, n).Err? ==>
            SectionsOf(b, h, n).error.TruncatedHeader? || SectionsOf(b, h, n).error.BadSection?
    decreases n
  {
    hide SectionAt, Fits;
    if n > 0 {
      var m := n - 1;
      FirstCutEntry(b, h, m);
      SectionsExactly(b, h, m);
      forall k: nat
        ensures IsFirstCutEntry(b, h, n, k) <==> IsFirstCutEntry(b, h, m, k) || (k == m && IsFirstCutEntry(b, h, n, m))
      {
      }
      assert IsFirstCutEntry(b, h, n, m) <==> SectionsOf(b, h, m).Ok? && h.sectionTable + m * 40 + 40 > |b|;
      hide IsFirstCutEntry;
    }
  }

  /** Errors that are not of the headers are of sections or overlaps, or of a section table cut short. */
  lemma OnlyLaterErrors(b: seq<byte>, r: Result<Image, PeError>)
    requires IsParsed(b, r)
    ensures HeadersOf(b).Err? ==> r == Err(HeadersOf(b).error)
    ensures HeadersOf(b).Ok? && r.Err? ==> !r.error.NotPe? && !r.error.WrongMachine?
    ensures HeadersOf(b).Ok? ==>
              (r == Err(TruncatedHeader) <==>
                SectionsOf(b, HeadersOf(b).value, HeadersOf(b).value.coff.numberOfSections) == Err(TruncatedHeader))
  {
    hide HeadersOf, SectionsOf, HasFlag, Overlap, NoOverlap;
    if HeadersOf(b).Ok? {
      FirstCutEntry(b, HeadersOf(b).value, HeadersOf(b).value.coff.numberOfSections);
    }
  }

  /** `BadSection` names the first section that does not fit, and nothing before it is wrong. */
  lemma BadSectionExactly(b: seq<byte>, r: Result<Image, PeError>, k: nat)
    requires IsParsed(b, r)
    ensures r == Err(BadSection(k)) <==>
            && HeadersOf(b).Ok? && k < HeadersOf(b).value.coff.numberOfSections
            && var h := HeadersOf(b).value;
               && (forall i | 0 <= i < k :: HasGoodSection(b, h, i))
               && h.sectionTable + k * 40 + 40 <= |b|
               && !Fits(SectionAt(b, h.sectionTable + k * 40), h.optional, |b|)
  {
    HeaderErrors(b);
    hide HeadersOf, Fits, SectionAt, NoOverlap, HasFlag, IsFirstOverlap;
    if HeadersOf(b).Ok? {
      FirstBadSection(b, HeadersOf(b).value, HeadersOf(b).value.coff.numberOfSections, k);
    }
  }

  lemma HeaderErrors(b: seq<byte>)
    ensures HeadersOf(b).Err? ==> !HeadersOf(b).error.BadSection? && !HeadersOf(b).error.OverlappingSections?
  {
    hide Value, IsSane;
  }

  lemma {:induction false} FirstBadSection(b: seq<byte>, h: Headers, n: nat, k: nat)
    ensures SectionsOf(b, h, n) == Err(BadSection(k)) <==>
            && k < n
            && (forall i | 0 <= i < k :: HasGoodSection(b, h, i))
            && h.sectionTable + k * 40 + 40 <= |b|
            && !Fits(SectionAt(b, h.sectionTable + k * 40), h.optional, |b|)
    ensures SectionsOf(b, h, n).Err? ==> !SectionsOf(b, h, n).error.OverlappingSections?
    decreases n
  {
    hide SectionAt, Fits;
    if n > 0 {
      FirstBadSection(b, h, n - 1, k);
      SectionsExactly(b, h, n - 1);
      if k < n - 1 && (forall i | 0 <= i <= k :: HasGoodSection(b, h, i)) { assert HasGoodSection(b, h, k); }
    }
  }

  /** `OverlappingSections` names the first pair that overlaps, in a file that is otherwise sound. */
  lemma OverlapErrorExactly(b: seq<byte>, r: Result<Image, PeError>, i: nat, j: nat)
    requires IsParsed(b, r)
    ensures r == Err(OverlappingSections(i, j)) <==>
            && HeadersOf(b).Ok? && 0 < HeadersOf(b).value.optional.sectionAlignment <= MAX_U32
            && var h := HeadersOf(b).value;
               var s := SectionsOf(b, h, h.coff.numberOfSections);
               s.Ok? && IsFirstOverlap(s.value, h.optional.sectionAlignment, i, j)
  {
    HeaderErrors(b);
    hide HeadersOf, HasFlag, Overlap;
    if HeadersOf(b).Ok? {
      FirstBadSection(b, HeadersOf(b).value, HeadersOf(b).value.coff.numberOfSections, 0);
      hide SectionsOf;
      if SectionsOf(b, HeadersOf(b).value, HeadersOf(b).value.coff.numberOfSections).Ok? && r.Err? {
        assert IsFirstOverlap(SectionsOf(b, HeadersOf(b).value, HeadersOf(b).value.coff.numberOfSections).value,
                              HeadersOf(b).value.optional.sectionAlignment, r.error.a, r.error.b);
      }
    }
  }
}
