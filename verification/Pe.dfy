/**
  The PE32+ parser (`winbridge/src/pe.rs`): every check a file has to pass before any of it is
  mapped.
  */
module Pe {
  import opened Wrappers
  import opened Words
  import opened Bits

  const DOS_MAGIC: nat := 0x5A4D
  const PE_MAGIC: nat := 0x0000_4550
  const OPT_MAGIC_PE32PLUS: nat := 0x20B
  const MACHINE_AMD64: nat := 0x8664
  const DLL_DYNAMIC_BASE: nat := 0x0040
  const SCN_MEM_EXECUTE: nat := 0x2000_0000
  const SCN_MEM_READ: nat := 0x4000_0000
  const SCN_MEM_WRITE: nat := 0x8000_0000
  const MAX_SECTIONS: nat := 96

  type byte = x: nat | x < 256

  datatype PeError =
    | NotPe
    | WrongMachine(machine: nat)
    | TruncatedHeader
    | BadSection(index: nat)
    | OverlappingSections(a: nat, b: nat)

  datatype CoffHeader = CoffHeader(
    machine: nat, numberOfSections: nat, timeDateStamp: nat, pointerToSymbolTable: nat,
    numberOfSymbols: nat, sizeOfOptionalHeader: nat, characteristics: nat)

  datatype OptionalHeader = OptionalHeader(
    magic: nat, imageBase: nat, sectionAlignment: nat, fileAlignment: nat, sizeOfImage: nat,
    sizeOfHeaders: nat, addressOfEntryPoint: nat, subsystem: nat, dllCharacteristics: nat)

  datatype Section = Section(
    name: seq<byte>, virtualSize: nat, virtualAddress: nat, sizeOfRawData: nat,
    pointerToRawData: nat, characteristics: nat)
  {
    /** The larger of the two sizes is what the section takes in memory. */
    function Extent(): (n: nat)
      ensures n >= virtualSize && n >= sizeOfRawData && (n == virtualSize || n == sizeOfRawData)
    {
      if virtualSize >= sizeOfRawData then virtualSize else sizeOfRawData
    }

    function VirtualEnd(): nat { virtualAddress + Extent() }

    function Protection(): Result<PageProtection, ()> {
      var read := HasFlag(characteristics, SCN_MEM_READ);
      var write := HasFlag(characteristics, SCN_MEM_WRITE);
      var execute := HasFlag(characteristics, SCN_MEM_EXECUTE);
      if write && execute then Err(()) else Ok(PageProtection(read, write, execute))
    }
  }

  datatype PageProtection = PageProtection(read: bool, write: bool, execute: bool)

  datatype Image = Image(
    coff: CoffHeader, optional: OptionalHeader, sections: seq<Section>, aslrOptOut: bool, hadWxSection: bool)

  predicate HasFlag(x: nat, flag: nat) { And(x, flag) != 0 }

  // ----- reading -------------------------------------------------------------------------

  /** Little-endian value of the `n` bytes from `off`. */
  function Value(b: seq<byte>, off: nat, n: nat): nat
    requires off + n <= |b|
    decreases n
  {
    if n == 0 then 0 else b[off] + 256 * Value(b, off + 1, n - 1)
  }

  function Read(b: seq<byte>, off: nat, n: nat): Result<nat, PeError> {
    if off + n <= |b| then Ok(Value(b, off, n)) else Err(TruncatedHeader)
  }

  function ReadU16(b: seq<byte>, off: nat): Result<nat, PeError> { Read(b, off, 2) }

  function ReadU32(b: seq<byte>, off: nat): Result<nat, PeError> { Read(b, off, 4) }

  function ReadU64(b: seq<byte>, off: nat): Result<nat, PeError> { Read(b, off, 8) }

  predicate IsPowerOfTwo(x: nat) {
    x == 1 || (x > 1 && x % 2 == 0 && IsPowerOfTwo(x / 2))
  }

  // ----- the headers ---------------------------------------------------------------------

  datatype Headers = Headers(coff: CoffHeader, optional: OptionalHeader, sectionTable: nat)

  function CoffAt(b: seq<byte>, at: nat): CoffHeader
    requires at + 20 <= |b|
  {
    CoffHeader(Value(b, at, 2), Value(b, at + 2, 2), Value(b, at + 4, 4), Value(b, at + 8, 4),
               Value(b, at + 12, 4), Value(b, at + 16, 2), Value(b, at + 18, 2))
  }

  function OptionalAt(b: seq<byte>, at: nat): OptionalHeader
    requires at + 72 <= |b|
  {
    OptionalHeader(Value(b, at, 2), Value(b, at + 24, 8), Value(b, at + 32, 4), Value(b, at + 36, 4),
                   Value(b, at + 56, 4), Value(b, at + 60, 4), Value(b, at + 16, 4), Value(b, at + 68, 2),
                   Value(b, at + 70, 2))
  }

  /**
    Both alignments are powers of two, sections are aligned at least as files are, and the entry
    point is in the image.
    */
  predicate IsSane(o: OptionalHeader) {
    && IsPowerOfTwo(o.sectionAlignment) && IsPowerOfTwo(o.fileAlignment)
    && o.sectionAlignment >= o.fileAlignment && o.addressOfEntryPoint < o.sizeOfImage
  }

  /** The headers of a file, or the first thing wrong with them. */
  function HeadersOf(b: seq<byte>): Result<Headers, PeError> {
    if |b| < 0x40 || Value(b, 0, 2) != DOS_MAGIC then Err(NotPe)
    else
      var pe := Value(b, 0x3C, 4);
      if pe + 24 > |b| then Err(TruncatedHeader)
      else if Value(b, pe, 4) != PE_MAGIC then Err(NotPe)
      else
        var coff := CoffAt(b, pe + 4);
        if coff.machine != MACHINE_AMD64 then Err(WrongMachine(coff.machine))
        else if coff.numberOfSections > MAX_SECTIONS || coff.sizeOfOptionalHeader < 112 || pe + 26 > |b|
        then Err(TruncatedHeader)
        else if Value(b, pe + 24, 2) != OPT_MAGIC_PE32PLUS then Err(WrongMachine(coff.machine))
        else if pe + 96 > |b| || !IsSane(OptionalAt(b, pe + 24)) then Err(TruncatedHeader)
        else Ok(Headers(coff, OptionalAt(b, pe + 24), pe + 24 + coff.sizeOfOptionalHeader))
  }

  // ----- sections ------------------------------------------------------------------------

  function SectionAt(b: seq<byte>, at: nat): Section
    requires at + 40 <= |b|
  {
    Section(b[at..at + 8], Value(b, at + 8, 4), Value(b, at + 12, 4), Value(b, at + 16, 4), Value(b, at + 20, 4),
            Value(b, at + 36, 4))
  }

  /** The raw data lies in the file, and the virtual range in the image and past the headers. */
  predicate Fits(s: Section, o: OptionalHeader, fileLen: nat) {
    && s.pointerToRawData + s.sizeOfRawData <= fileLen
    && s.VirtualEnd() <= o.sizeOfImage
    && s.virtualAddress >= o.sizeOfHeaders
  }

  /** The first `n` sections, or the first thing wrong with one of them. */
  function SectionsOf(b: seq<byte>, h: Headers, n: nat): Result<seq<Section>, PeError> {
    if n == 0 then Ok([])
    else
      var before :- SectionsOf(b, h, n - 1);
      var at := h.sectionTable + (n - 1) * 40;
      if at + 40 > |b| then Err(TruncatedHeader)
      else if !Fits(SectionAt(b, at), h.optional, |b|) then Err(BadSection(n - 1))
      else Ok(before + [SectionAt(b, at)])
  }

  // ----- alignment and overlap -----------------------------------------------------------

  function AlignDown(v: nat, align: nat): nat
    requires 0 < align <= MAX_U32
  {
    And(v, MAX_U32 - (align - 1))
  }

  function AlignUp(v: nat, align: nat): nat
    requires 0 < align <= MAX_U32
  {
    And(v + align - 1, MAX_U64 - (align - 1))
  }

  /** The range of addresses a section takes once it is rounded outward. */
  function Start(s: Section, align: nat): nat
    requires 0 < align <= MAX_U32
  {
    AlignDown(s.virtualAddress, align)
  }

  function End(s: Section, align: nat): nat
    requires 0 < align <= MAX_U32
  {
    AlignUp(s.VirtualEnd(), align)
  }

  predicate Overlap(a: Section, b: Section, align: nat)
    requires 0 < align <= MAX_U32
  {
    Start(a, align) < End(b, align) && Start(b, align) < End(a, align)
  }

  /** `(i, j)` is the first pair that overlaps. */
  ghost predicate IsFirstOverlap(s: seq<Section>, align: nat, i: nat, j: nat)
    requires 0 < align <= MAX_U32
  {
    && i < j < |s| && Overlap(s[i], s[j], align)
    && (forall l | i < l < j :: !Overlap(s[i], s[l], align))
    && (forall k, l | 0 <= k < i && k < l < |s| :: !Overlap(s[k], s[l], align))
  }

  ghost predicate NoOverlap(s: seq<Section>, align: nat)
    requires 0 < align <= MAX_U32
  {
    forall k, l | 0 <= k < l < |s| :: !Overlap(s[k], s[l], align)
  }

  predicate AsksWriteExecute(s: Section) {
    HasFlag(s.characteristics, SCN_MEM_WRITE) && HasFlag(s.characteristics, SCN_MEM_EXECUTE)
  }

  // ----- the parser ----------------------------------------------------------------------

  method ValidateSection(s: Section, o: OptionalHeader, fileLen: nat, index: nat) returns (r: Result<(), PeError>)
    ensures r == if Fits(s, o, fileLen) then Ok(()) else Err(BadSection(index))
  {
    var rawEnd := s.pointerToRawData + s.sizeOfRawData;
    if rawEnd > fileLen { return Err(BadSection(index)); }
    var virtualEnd := s.virtualAddress + s.Extent();
    if virtualEnd > o.sizeOfImage { return Err(BadSection(index)); }
    if s.virtualAddress < o.sizeOfHeaders { return Err(BadSection(index)); }
    r := Ok(());
  }

  method CheckNoOverlap(s: seq<Section>, align: nat) returns (r: Result<(), PeError>)
    requires 0 < align <= MAX_U32
    ensures r.Ok? ==> NoOverlap(s, align)
    ensures r.Err? ==> r.error.OverlappingSections? && IsFirstOverlap(s, align, r.error.a, r.error.b)
  {
    for i := 0 to |s|
      invariant forall k, l | 0 <= k < i && k < l < |s| :: !Overlap(s[k], s[l], align)
    {
      var aStart, aEnd := Start(s[i], align), End(s[i], align);
      for j := i + 1 to |s|
        invariant forall l | i < l < j :: !Overlap(s[i], s[l], align)
      {
        var bStart, bEnd := Start(s[j], align), End(s[j], align);
        if aStart < bEnd && bStart < aEnd {
          return Err(OverlappingSections(i, j));
        }
      }
    }
    r := Ok(());
  }

  /** What parsing a file gives: the first error in the order of the checks, or the image. */
  ghost predicate IsParsed(b: seq<byte>, r: Result<Image, PeError>) {
    match HeadersOf(b)
    case Err(e) => r == Err(e)
    case Ok(h) =>
      match SectionsOf(b, h, h.coff.numberOfSections)
      case Err(e) => r == Err(e)
      case Ok(sections) =>
        && 0 < h.optional.sectionAlignment <= MAX_U32
        && match r
           case Err(e) => e.OverlappingSections? && IsFirstOverlap(sections, h.optional.sectionAlignment, e.a, e.b)
           case Ok(image) =>
             && NoOverlap(sections, h.optional.sectionAlignment)
             && image.coff == h.coff && image.optional == h.optional && image.sections == sections
             && (image.aslrOptOut <==> !HasFlag(h.optional.dllCharacteristics, DLL_DYNAMIC_BASE))
             && (image.hadWxSection <==> exists k :: 0 <= k < |sections| && AsksWriteExecute(sections[k]))
  }

  lemma ValueBound(b: seq<byte>, off: nat)
    requires off + 4 <= |b|
    ensures Value(b, off, 4) <= MAX_U32
  {
    assert Value(b, off, 4) ==
           b[off] + 256 * (b[off + 1] + 256 * (b[off + 2] + 256 * (b[off + 3] + 256 * Value(b, off + 4, 0))));
  }

  method ParseHeaders(b: seq<byte>) returns (r: Result<Headers, PeError>)
    ensures r == HeadersOf(b)
    ensures r.Ok? ==> 0 < r.value.optional.sectionAlignment <= MAX_U32
  {
    hide Value;
    // Reads that the length checks before them have made safe cannot fail.
    if |b| < 0x40 { return Err(NotPe); }
    var dosMagic := ReadU16(b, 0).value;
    if dosMagic != DOS_MAGIC { return Err(NotPe); }

    var peOffset := ReadU32(b, 0x3C).value;
    if peOffset + 24 > |b| { return Err(TruncatedHeader); }
    var peMagic := ReadU32(b, peOffset).value;
    if peMagic != PE_MAGIC { return Err(NotPe); }

    var coffOff := peOffset + 4;
    var machine := ReadU16(b, coffOff).value;
    var numberOfSections := ReadU16(b, coffOff + 2).value;
    var timeDateStamp := ReadU32(b, coffOff + 4).value;
    var pointerToSymbolTable := ReadU32(b, coffOff + 8).value;
    var numberOfSymbols := ReadU32(b, coffOff + 12).value;
    var sizeOfOptionalHeader := ReadU16(b, coffOff + 16).value;
    var characteristics := ReadU16(b, coffOff + 18).value;
    var coff := CoffHeader(machine, numberOfSections, timeDateStamp, pointerToSymbolTable, numberOfSymbols,
                           sizeOfOptionalHeader, characteristics);
    if coff.machine != MACHINE_AMD64 { return Err(WrongMachine(coff.machine)); }
    if coff.numberOfSections > MAX_SECTIONS { return Err(TruncatedHeader); }

    var optOff := coffOff + 20;
    if coff.sizeOfOptionalHeader < 112 { return Err(TruncatedHeader); }
    var magic :- ReadU16(b, optOff);
    if magic != OPT_MAGIC_PE32PLUS { return Err(WrongMachine(coff.machine)); }
    var addressOfEntryPoint :- ReadU32(b, optOff + 16);
    var imageBase :- ReadU64(b, optOff + 24);
    var sectionAlignment :- ReadU32(b, optOff + 32);
    var fileAlignment :- ReadU32(b, optOff + 36);
    var sizeOfImage :- ReadU32(b, optOff + 56);
    var sizeOfHeaders :- ReadU32(b, optOff + 60);
    var subsystem :- ReadU16(b, optOff + 68);
    var dllCharacteristics :- ReadU16(b, optOff + 70);
    var optional := OptionalHeader(magic, imageBase, sectionAlignment, fileAlignment, sizeOfImage, sizeOfHeaders,
                                   addressOfEntryPoint, subsystem, dllCharacteristics);
    if !IsPowerOfTwo(optional.sectionAlignment) || !IsPowerOfTwo(optional.fileAlignment)
       || optional.sectionAlignment < optional.fileAlignment
    {
      return Err(TruncatedHeader);
    }
    if optional.addressOfEntryPoint >= optional.sizeOfImage { return Err(TruncatedHeader); }
    ValueBound(b, optOff + 32);
    r := Ok(Headers(coff, optional, optOff + coff.sizeOfOptionalHeader));
  }

  method Parse(b: seq<byte>) returns (r: Result<Image, PeError>)
    ensures IsParsed(b, r)
  {
    hide HeadersOf, Value, SectionAt, Fits;
    var h :- ParseHeaders(b);
    var sections: seq<Section> := [];
    var hadWx := false;
    for i := 0 to h.coff.numberOfSections
      invariant SectionsOf(b, h, i) == Ok(sections)
      invariant hadWx <==> exists k :: 0 <= k < |sections| && AsksWriteExecute(sections[k])
    {
      var off := h.sectionTable + i * 40;
      if off + 40 > |b| {
        ErrorStays(b, h, i + 1, h.coff.numberOfSections);
        return Err(TruncatedHeader);
      }
      var section := SectionAt(b, off);
      var valid := ValidateSection(section, h.optional, |b|, i);
      if valid.Err? {
        ErrorStays(b, h, i + 1, h.coff.numberOfSections);
        return Err(valid.error);
      }
      if section.Protection().Err? { hadWx := true; }
      SectionsStep(sections, section);
      sections := sections + [section];
    }
    var _ :- CheckNoOverlap(sections, h.optional.sectionAlignment);
    r := Ok(Image(h.coff, h.optional, sections, !HasFlag(h.optional.dllCharacteristics, DLL_DYNAMIC_BASE), hadWx));
  }

  lemma SectionsStep(sections: seq<Section>, last: Section)
    ensures (exists k :: 0 <= k < |sections + [last]| && AsksWriteExecute((sections + [last])[k])) <==>
            AsksWriteExecute(last) || exists k :: 0 <= k < |sections| && AsksWriteExecute(sections[k])
    ensures last.Protection().Err? <==> AsksWriteExecute(last)
  {
    var all := sections + [last];
    assert all[|sections|] == last;
    if k :| 0 <= k < |sections| && AsksWriteExecute(sections[k]) {
      assert all[k] == sections[k];
    }
  }

  /** The first error found among the sections is the one reported. */
  lemma {:induction false} ErrorStays(b: seq<byte>, h: Headers, i: nat, n: nat)
    requires i <= n && SectionsOf(b, h, i).Err?
    ensures SectionsOf(b, h, n) == SectionsOf(b, h, i)
    decreases n
  {
    hide SectionAt, Fits;
    if i < n { ErrorStays(b, h, i, n - 1); }
  }
}
