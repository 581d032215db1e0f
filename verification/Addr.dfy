/**
  Virtual and physical addresses (`arch/addr.rs`): canonical form, table indices and the
  split between the user and the kernel half.

  A 64-bit word is a natural number below 2^64. A left shift multiplies and drops the
  overflow; a right shift divides, rounding down (Dafny's `/` by a positive divisor), which
  is also what the arithmetic shift does to a negative `i64`.
  */
module Addr {
  import opened Words
  import opened Arith

  const TWO_47: nat := 0x8000_0000_0000
  const TWO_48: nat := 0x1_0000_0000_0000
  const TWO_52: nat := 0x10_0000_0000_0000
  const TWO_56: nat := 0x100_0000_0000_0000
  const TWO_57: nat := 0x200_0000_0000_0000
  const TWO_63: nat := 0x8000_0000_0000_0000

  datatype PagingMode = Level4 | Level5 {
    /** Number of table levels a walk visits. */
    function Levels(): nat {
      if Level4? then 4 else 5
    }

    /** 2 to the number of virtual address bits the hardware translates. */
    function Span(): nat {
      if Level4? then TWO_48 else TWO_57
    }
  }

  type VirtAddr = a: nat | a < U64_SIZE

  /** A physical address is at most 52 bits wide. */
  type PhysAddr = a: nat | a < TWO_52

  function AsI64(x: nat): int
    requires x < U64_SIZE
  {
    if x < TWO_63 then x else x - U64_SIZE
  }

  function AsU64(x: int): VirtAddr
    requires -(TWO_63 as int) <= x < TWO_63
  {
    if x < 0 then x + U64_SIZE else x
  }

  /** Shift left until the sign bit is on top, then shift back arithmetically. */
  function SignExtend(addr: VirtAddr, mode: PagingMode): VirtAddr {
    match mode
    case Level4 => AsU64(AsI64(addr * 0x1_0000 % U64_SIZE) / 0x1_0000)
    case Level5 => AsU64(AsI64(addr * 0x80 % U64_SIZE) / 0x80)
  }

  /** `VirtAddr::is_canonical`: the sign extension round trip changes nothing. */
  predicate IsCanonical(addr: VirtAddr, mode: PagingMode) {
    SignExtend(addr, mode) == addr
  }

  /** `VirtAddr::is_kernel_half`: the sign bit is set. */
  predicate IsKernelHalf(virt: VirtAddr, mode: PagingMode) {
    match mode
    case Level4 => virt / TWO_47 % 2 == 1
    case Level5 => virt / TWO_56 % 2 == 1
  }

  /** What one entry of a table at `level` spans: 4 KiB at level 1, 512 times more per level. */
  function EntrySpan(level: nat): (span: nat)
    requires 1 <= level <= 6
    ensures span >= 0x1000
  {
    match level
    case 1 => 0x1000
    case 2 => 0x20_0000
    case 3 => 0x4000_0000
    case 4 => 0x80_0000_0000
    case 5 => TWO_48
    case _ => TWO_57
  }

  /** `VirtAddr::table_index` at a level the mode has; the source answers `None` at any other. */
  function TableIndex(virt: VirtAddr, level: nat, mode: PagingMode): nat
    requires 1 <= level <= mode.Levels()
  {
    virt / EntrySpan(level) % 512
  }

  /** The indices a walk for `virt` reads, top level first. */
  function Path(virt: VirtAddr, mode: PagingMode): (path: seq<nat>)
    ensures |path| == mode.Levels()
    ensures forall k :: 0 <= k < |path| ==> path[k] == TableIndex(virt, |path| - k, mode)
    ensures forall k :: 0 <= k < |path| ==> path[k] < 512
  {
    seq(mode.Levels(), k requires 0 <= k < mode.Levels() => TableIndex(virt, mode.Levels() - k, mode))
  }

  /** `v` and `w` lie in the same page of the size that `level` maps. */
  predicate SamePage(v: VirtAddr, w: VirtAddr, level: nat)
    requires 1 <= level <= 3
  {
    v / EntrySpan(level) == w / EntrySpan(level)
  }

  // ----- canonical addresses -------------------------------------------------------------

  /** The value of the round trip: the translated bits, filled up with the sign bit. */
  lemma SignExtendValue(addr: VirtAddr, mode: PagingMode)
    ensures var low := addr % mode.Span();
            SignExtend(addr, mode) == if low < mode.Span() / 2 then low else low + U64_SIZE - mode.Span()
  {
    var low := addr % mode.Span();
    match mode {
      case Level4 =>
        ModScale(addr, TWO_48, 0x1_0000);
        assert (low - TWO_48) * 0x1_0000 == low * 0x1_0000 - U64_SIZE;
      case Level5 =>
        ModScale(addr, TWO_57, 0x80);
        assert (low - TWO_57) * 0x80 == low * 0x80 - U64_SIZE;
    }
  }

  /** Canonical addresses are exactly those in the two halves around the hole. */
  lemma CanonicalIsTwoHalves(addr: VirtAddr, mode: PagingMode)
    ensures IsCanonical(addr, mode) <==> addr < mode.Span() / 2 || addr >= U64_SIZE - mode.Span() / 2
  {
    hide SignExtend;
    SignExtendValue(addr, mode);
    match mode {
      case Level4 => HalvesOf48(addr, addr / TWO_48, addr % TWO_48);
      case Level5 => HalvesOf57(addr, addr / TWO_57, addr % TWO_57);
    }
  }

  lemma HalvesOf48(addr: VirtAddr, q: int, low: int)
    requires addr == q * TWO_48 + low && 0 <= low < TWO_48
    ensures (if low < TWO_48 / 2 then low else low + U64_SIZE - TWO_48) == addr <==>
            addr < TWO_48 / 2 || addr >= U64_SIZE - TWO_48 / 2
  {
  }

  lemma HalvesOf57(addr: VirtAddr, q: int, low: int)
    requires addr == q * TWO_57 + low && 0 <= low < TWO_57
    ensures (if low < TWO_57 / 2 then low else low + U64_SIZE - TWO_57) == addr <==>
            addr < TWO_57 / 2 || addr >= U64_SIZE - TWO_57 / 2
  {
  }

  /** Of the two halves, `is_kernel_half` picks the upper one. */
  lemma KernelHalfIsUpperHalf(addr: VirtAddr, mode: PagingMode)
    requires IsCanonical(addr, mode)
    ensures IsKernelHalf(addr, mode) <==> addr >= TWO_63
  {
    CanonicalIsTwoHalves(addr, mode);
  }

  /** Sign extension always lands on a canonical address and keeps the translated bits. */
  lemma SignExtensionIsCanonical(addr: VirtAddr, mode: PagingMode)
    ensures IsCanonical(SignExtend(addr, mode), mode)
    ensures SignExtend(addr, mode) % mode.Span() == addr % mode.Span()
  {
    hide SignExtend;
    SignExtendValue(addr, mode);
    CanonicalIsTwoHalves(SignExtend(addr, mode), mode);
  }

  // ----- indices determine pages ---------------------------------------------------------

  /** One digit of the mixed-radix form of an address. */
  lemma Digit(virt: VirtAddr, level: nat, mode: PagingMode)
    requires 1 <= level <= mode.Levels()
    ensures virt / EntrySpan(level) == 512 * (virt / EntrySpan(level + 1)) + TableIndex(virt, level, mode)
  {
    DivDiv(virt, EntrySpan(level), 512);
  }

  /** Above the top index a canonical address only repeats its sign. */
  lemma TopIndexIsSign(virt: VirtAddr, mode: PagingMode)
    requires IsCanonical(virt, mode)
    ensures var top := TableIndex(virt, mode.Levels(), mode);
            && (IsKernelHalf(virt, mode) <==> top >= 256)
            && virt / EntrySpan(mode.Levels() + 1) ==
               if top >= 256 then U64_SIZE / EntrySpan(mode.Levels() + 1) - 1 else 0
  {
    hide IsCanonical;
    CanonicalIsTwoHalves(virt, mode);
    match mode {
      case Level4 => TopQuotients(virt, 0x80_0000_0000, 0x1_0000);
      case Level5 => TopQuotients(virt, TWO_48, 0x80);
    }
  }

  /** With `span` per top-level entry and `n` repetitions of the translated range. */
  lemma TopQuotients(virt: nat, span: nat, n: nat)
    requires span > 0 && n > 0
    requires virt < 256 * span || (512 * n - 256) * span <= virt < 512 * n * span
    ensures var top := virt / span % 512;
            && (virt / (span * 256) % 2 == 1 <==> top >= 256)
            && virt / (span * 512) == if top >= 256 then n - 1 else 0
  {
    DivDiv(virt, span, 512);
    DivDiv(virt, span, 256);
    var q := virt / span;
    if virt < 256 * span {
      QuotientBounds(virt, span, 0, 256);
    } else {
      QuotientBounds(virt, span, 512 * n - 256, 512 * n);
      UniqueDivision(q, 512, n - 1, q - (n - 1) * 512);
      UniqueDivision(q, 256, 2 * n - 1, q - (2 * n - 1) * 256);
    }
  }

  lemma PrefixExtends(a: seq<nat>, b: seq<nat>, k: nat)
    requires k < |a| && k < |b|
    ensures a[..k + 1] == b[..k + 1] <==> a[..k] == b[..k] && a[k] == b[k]
  {
    assert a[..k + 1] == a[..k] + [a[k]] && b[..k + 1] == b[..k] + [b[k]];
    assert a[..k + 1][..k] == a[..k] && b[..k + 1][..k] == b[..k];
    assert a[..k + 1][k] == a[k] && b[..k + 1][k] == b[k];
  }

  lemma DigitsAgree(q: nat, q': nat, i: nat, i': nat)
    requires i < 512 && i' < 512
    ensures 512 * q + i == 512 * q' + i' <==> q == q' && i == i'
  {
  }

  /** For canonical addresses, sharing a page means sharing the walk down to that page's entry. */
  lemma SamePageIsSamePrefix(v: VirtAddr, w: VirtAddr, level: nat, mode: PagingMode)
    requires IsCanonical(v, mode) && IsCanonical(w, mode)
    requires 1 <= level <= mode.Levels()
    ensures v / EntrySpan(level) == w / EntrySpan(level) <==>
            Path(v, mode)[..mode.Levels() - level + 1] == Path(w, mode)[..mode.Levels() - level + 1]
    decreases mode.Levels() - level
  {
    hide EntrySpan, IsCanonical, TableIndex, IsKernelHalf, Path;
    var k := mode.Levels() - level;
    Digit(v, level, mode);
    Digit(w, level, mode);
    DigitsAgree(v / EntrySpan(level + 1), w / EntrySpan(level + 1), Path(v, mode)[k], Path(w, mode)[k]);
    PrefixExtends(Path(v, mode), Path(w, mode), k);
    if level == mode.Levels() {
      TopIndexIsSign(v, mode);
      TopIndexIsSign(w, mode);
    } else {
      SamePageIsSamePrefix(v, w, level + 1, mode);
    }
  }

  /** An aligned page that starts below an aligned bound ends below it. */
  lemma PageNeverCrosses(virt: nat, span: nat, offset: nat, bound: nat)
    requires span > 0 && virt % span == 0 && offset < span && bound % span == 0
    ensures virt < bound ==> virt + offset < bound
  {
    var q, n := virt / span, bound / span;
    assert virt == q * span && bound == n * span;
    if virt < bound {
      if q >= n { MulMonotone(n, q, span); }
      MulGap(q, n, span);
    }
  }

  lemma SpanDivides(level: nat, mode: PagingMode)
    requires 1 <= level <= 3
    ensures mode.Span() / 2 % EntrySpan(level) == 0 && U64_SIZE % EntrySpan(level) == 0
  {
    if level == 1 {
      assert EntrySpan(1) == 0x1000;
    } else if level == 2 {
      assert EntrySpan(2) == 0x20_0000;
    } else {
      assert EntrySpan(3) == 0x4000_0000;
    }
  }

  /** Every byte of an aligned page that starts at a canonical address is canonical too. */
  lemma PageStaysCanonical(virt: VirtAddr, offset: nat, level: nat, mode: PagingMode)
    requires IsCanonical(virt, mode) && 1 <= level <= 3
    requires virt % EntrySpan(level) == 0 && offset < EntrySpan(level)
    ensures virt + offset < U64_SIZE && IsCanonical(virt + offset, mode)
    ensures SamePage(virt, virt + offset, level) && (virt + offset) % EntrySpan(level) == offset
  {
    hide IsCanonical, EntrySpan;
    var span := EntrySpan(level);
    var half := mode.Span() / 2;
    SpanDivides(level, mode);
    PageNeverCrosses(virt, span, offset, half);
    PageNeverCrosses(virt, span, offset, U64_SIZE);
    CanonicalIsTwoHalves(virt, mode);
    CanonicalIsTwoHalves(virt + offset, mode);
    UniqueDivision(virt + offset, span, virt / span, offset);
  }
}
