/**
  The layout of a PE32+ file, given by the widths of its fields in file order, and what parsing
  means by it: an image is what a file parses to exactly when the file lays that image out and the
  image is sound.
  */
module PeLayout {
  import opened Wrappers
  import opened Words
  import opened Bits
  import opened Pe
  import opened PeTheorems
  import Arith

  /** Fields one after another: little-endian numbers of a width in bytes, and bytes as they are. */
  datatype Layout =
    | End
    | Number(value: nat, width: nat, rest: Layout)
    | Raw(bytes: seq<nat>, rest: Layout)

  /** `width` digits to the base 256, lowest first; a number too large leaves a last digit over 255, no byte. */
  function Digits(x: nat, width: nat): (d: seq<nat>)
    ensures |d| == width
  {
    if width == 0 then [] else if width == 1 then [x] else [x % 256] + Digits(x / 256, width - 1)
  }

  function Encoded(fields: Layout): seq<nat> {
    match fields
    case End => []
    case Number(value, width, rest) => Digits(value, width) + Encoded(rest)
    case Raw(bytes, rest) => bytes + Encoded(rest)
  }

  /** The COFF header. */
  function CoffLayout(c: CoffHeader, rest: Layout): Layout {
    Number(c.machine, 2,
    Number(c.numberOfSections, 2,
    Number(c.timeDateStamp, 4,
    Number(c.pointerToSymbolTable, 4,
    Number(c.numberOfSymbols, 4,
    Number(c.sizeOfOptionalHeader, 2,
    Number(c.characteristics, 2, rest)))))))
  }

  /** Fields of the optional header that are not kept: linker and sizes, code base, versions, checksum. */
  datatype Unread = Unread(sizes: seq<nat>, codeBase: seq<nat>, versions: seq<nat>, sum: seq<nat>) {
    predicate Valid() { |sizes| == 14 && |codeBase| == 4 && |versions| == 16 && |sum| == 4 }
  }

  function OptionalLayout(o: OptionalHeader, u: Unread, rest: Layout): Layout {
    Number(o.magic, 2,
    Raw(u.sizes,
    Number(o.addressOfEntryPoint, 4,
    Raw(u.codeBase,
    Number(o.imageBase, 8,
    Number(o.sectionAlignment, 4,
    Number(o.fileAlignment, 4,
    Raw(u.versions,
    Number(o.sizeOfImage, 4,
    Number(o.sizeOfHeaders, 4,
    Raw(u.sum,
    Number(o.subsystem, 2,
    Number(o.dllCharacteristics, 2, rest)))))))))))))
  }

  /** A section header; `unread` holds relocations and line numbers. */
  function SectionLayout(s: Section, unread: seq<nat>, rest: Layout): Layout {
    Raw(s.name,
    Number(s.virtualSize, 4,
    Number(s.virtualAddress, 4,
    Number(s.sizeOfRawData, 4,
    Number(s.pointerToRawData, 4,
    Raw(unread,
    Number(s.characteristics, 4, rest)))))))
  }

  /** The file holds these bytes from `at` on. */
  predicate HoldsAt(b: seq<byte>, at: nat, bytes: seq<nat>) {
    at + |bytes| <= |b| && b[at..at + |bytes|] == bytes
  }

  /** The signature, the COFF header and the optional header one after another. */
  function HeaderBytes(image: Image, u: Unread): seq<nat> {
    Encoded(Raw([0x50, 0x45, 0, 0], CoffLayout(image.coff, OptionalLayout(image.optional, u, End))))
  }

  /** The file lays out section `k` of the image, 40 bytes a section, after the optional header. */
  ghost predicate HasSection(b: seq<byte>, pe: nat, image: Image, k: nat)
    requires k < |image.sections|
  {
    && |image.sections[k].name| == 8
    && exists unread: seq<nat> ::
         |unread| == 12
         && HoldsAt(b, pe + 24 + image.coff.sizeOfOptionalHeader + 40 * k,
                    Encoded(SectionLayout(image.sections[k], unread, End)))
  }

  /** The file is one of the image: what it says at each place is what the image holds. */
  ghost predicate LaysOut(b: seq<byte>, image: Image) {
    && |b| >= 0x40 && HoldsAt(b, 0, [0x4D, 0x5A])
    && exists pe: nat ::
         HoldsAt(b, 0x3C, Digits(pe, 4))
         && (exists u: Unread :: u.Valid() && HoldsAt(b, pe, HeaderBytes(image, u)))
         && forall k | 0 <= k < |image.sections| :: HasSection(b, pe, image, k)
  }

  ghost predicate IsPow2(x: nat) {
    exists k: nat :: x == Pow2(k)
  }

  /** What is asked of an image that comes from a file of so many bytes. */
  ghost predicate IsSound(image: Image, fileLen: nat) {
    var c, o := image.coff, image.optional;
    && c.machine == 0x8664 && |image.sections| == c.numberOfSections <= 96 && c.sizeOfOptionalHeader >= 112
    && o.magic == 0x20B && o.addressOfEntryPoint < o.sizeOfImage
    && IsPow2(o.sectionAlignment) && IsPow2(o.fileAlignment)
    && o.fileAlignment <= o.sectionAlignment <= MAX_U32
    && (forall s | s in image.sections ::
         && s.pointerToRawData + s.sizeOfRawData <= fileLen && o.sizeOfHeaders <= s.virtualAddress
         && s.virtualAddress + s.virtualSize <= o.sizeOfImage && s.virtualAddress + s.sizeOfRawData <= o.sizeOfImage)
    && (o.sectionAlignment > 0 ==> NoOverlap(image.sections, o.sectionAlignment))
    && (image.aslrOptOut <==> !Bit(o.dllCharacteristics, 6))
    && (image.hadWxSection <==>
          exists s | s in image.sections :: Bit(s.characteristics, 31) && Bit(s.characteristics, 29))
  }

  // ----- reading one field ---------------------------------------------------------------

  /** The same field by field: the file holds the layout from `at` on. */
  predicate StandsAt(b: seq<byte>, at: nat, fields: Layout)
    decreases fields
  {
    match fields
    case End => at <= |b|
    case Number(value, width, rest) => HoldsAt(b, at, Digits(value, width)) && StandsAt(b, at + width, rest)
    case Raw(bytes, rest) => HoldsAt(b, at, bytes) && StandsAt(b, at + |bytes|, rest)
  }

  lemma {:induction false} StandsAtIsEncoded(b: seq<byte>, at: nat, fields: Layout)
    ensures StandsAt(b, at, fields) <==> HoldsAt(b, at, Encoded(fields))
    decreases fields
  {
    hide Digits;
    match fields {
      case End =>
      case Number(value, width, rest) =>
        StandsAtIsEncoded(b, at + width, rest);
        HoldsBoth(b, at, Digits(value, width), Encoded(rest));
      case Raw(bytes, rest) =>
        StandsAtIsEncoded(b, at + |bytes|, rest);
        HoldsBoth(b, at, bytes, Encoded(rest));
    }
  }

  lemma HoldsBoth(b: seq<byte>, at: nat, first: seq<nat>, second: seq<nat>)
    ensures HoldsAt(b, at, first + second) <==> HoldsAt(b, at, first) && HoldsAt(b, at + |first|, second)
  {
    var n, m := |first|, |second|;
    if at + n + m <= |b| {
      var all := b[at..at + n + m];
      assert all[..n] == b[at..at + n] && all[n..] == b[at + n..at + n + m];
      assert (first + second)[..n] == first && (first + second)[n..] == second;
      assert all == all[..n] + all[n..];
    }
  }

  /** A number stands in the file exactly when reading there gives it. */
  lemma {:induction false} DigitsAreRead(b: seq<byte>, at: nat, x: nat, width: nat)
    requires width > 0
    ensures HoldsAt(b, at, Digits(x, width)) <==> at + width <= |b| && Value(b, at, width) == x
    decreases width
  {
    if at + width <= |b| {
      if width == 1 {
        assert Value(b, at + 1, 0) == 0 && b[at..at + 1] == [b[at]];
      } else {
        DigitsAreRead(b, at + 1, x / 256, width - 1);
        HoldsBoth(b, at, [x % 256], Digits(x / 256, width - 1));
        assert b[at..at + 1] == [b[at]];
      }
    }
  }

  // ----- reading the headers -------------------------------------------------------------

  lemma NumberIsRead(b: seq<byte>, at: nat, f: Layout)
    requires f.Number? && f.width > 0
    ensures StandsAt(b, at, f) <==>
            at + f.width <= |b| && Value(b, at, f.width) == f.value && StandsAt(b, at + f.width, f.rest)
  {
    DigitsAreRead(b, at, f.value, f.width);
    hide Digits, Value, HoldsAt;
  }

  lemma RawIsRead(b: seq<byte>, at: nat, f: Layout)
    requires f.Raw?
    ensures StandsAt(b, at, f) <==> HoldsAt(b, at, f.bytes) && StandsAt(b, at + |f.bytes|, f.rest)
  {
  }

  /** The fields are read at the offsets that the widths before them add up to. */
  lemma CoffIsRead(b: seq<byte>, at: nat, c: CoffHeader, rest: Layout)
    ensures StandsAt(b, at, CoffLayout(c, rest)) <==>
            at + 20 <= |b| && CoffAt(b, at) == c && StandsAt(b, at + 20, rest)
  {
    hide StandsAt, Value;
    var f := CoffLayout(c, rest);
    NumberIsRead(b, at, f);
    NumberIsRead(b, at + 2, f.rest);
    NumberIsRead(b, at + 4, f.rest.rest);
    f := f.rest.rest.rest;
    NumberIsRead(b, at + 8, f);
    NumberIsRead(b, at + 12, f.rest);
    NumberIsRead(b, at + 16, f.rest.rest);
    NumberIsRead(b, at + 18, f.rest.rest.rest);
  }

  lemma OptionalIsRead(b: seq<byte>, at: nat, o: OptionalHeader, u: Unread)
    requires u.Valid()
    ensures StandsAt(b, at, OptionalLayout(o, u, End)) <==>
            && at + 72 <= |b| && OptionalAt(b, at) == o
            && HoldsAt(b, at + 2, u.sizes) && HoldsAt(b, at + 20, u.codeBase)
            && HoldsAt(b, at + 40, u.versions) && HoldsAt(b, at + 64, u.sum)
  {
    var f := OptionalLayout(o, u, End);
    assert at + 72 <= |b| ==> StandsAt(b, at + 72, End);
    hide StandsAt, Value, HoldsAt;
    NumberIsRead(b, at, f);
    RawIsRead(b, at + 2, f.rest);
    NumberIsRead(b, at + 16, f.rest.rest);
    RawIsRead(b, at + 20, f.rest.rest.rest);
    f := f.rest.rest.rest.rest;
    NumberIsRead(b, at + 24, f);
    NumberIsRead(b, at + 32, f.rest);
    NumberIsRead(b, at + 36, f.rest.rest);
    RawIsRead(b, at + 40, f.rest.rest.rest);
    f := f.rest.rest.rest.rest;
    NumberIsRead(b, at + 56, f);
    NumberIsRead(b, at + 60, f.rest);
    RawIsRead(b, at + 64, f.rest.rest);
    NumberIsRead(b, at + 68, f.rest.rest.rest);
    NumberIsRead(b, at + 70, f.rest.rest.rest.rest);
  }

  lemma SectionIsRead(b: seq<byte>, at: nat, s: Section, unread: seq<nat>)
    requires |unread| == 12 && |s.name| == 8
    ensures StandsAt(b, at, SectionLayout(s, unread, End)) <==>
            at + 40 <= |b| && SectionAt(b, at) == s && HoldsAt(b, at + 24, unread)
  {
    var f := SectionLayout(s, unread, End);
    assert at + 40 <= |b| ==> StandsAt(b, at + 40, End);
    hide StandsAt, Value;
    RawIsRead(b, at, f);
    NumberIsRead(b, at + 8, f.rest);
    NumberIsRead(b, at + 12, f.rest.rest);
    NumberIsRead(b, at + 16, f.rest.rest.rest);
    f := f.rest.rest.rest.rest;
    NumberIsRead(b, at + 20, f);
    RawIsRead(b, at + 24, f.rest);
    NumberIsRead(b, at + 36, f.rest.rest);
  }

  /** What the parser reads of an accepted file is the image. */
  ghost predicate IsReadAs(b: seq<byte>, image: Image) {
    && |b| >= 0x40 && Value(b, 0, 2) == DOS_MAGIC
    && var pe := Value(b, 0x3C, 4);
       && HeadersAreAt(b, pe, image)
       && forall k | 0 <= k < |image.sections| :: SectionIsAt(b, pe, image, k)
  }

  predicate HeadersAreAt(b: seq<byte>, pe: nat, image: Image) {
    && pe + 96 <= |b| && Value(b, pe, 4) == PE_MAGIC
    && CoffAt(b, pe + 4) == image.coff && OptionalAt(b, pe + 24) == image.optional
  }

  predicate SectionIsAt(b: seq<byte>, pe: nat, image: Image, k: nat)
    requires k < |image.sections|
  {
    var at := pe + 24 + image.coff.sizeOfOptionalHeader + k * 40;
    at + 40 <= |b| && SectionAt(b, at) == image.sections[k]
  }

  lemma HeaderBytesAreRead(b: seq<byte>, pe: nat, image: Image, u: Unread)
    requires u.Valid()
    ensures HoldsAt(b, pe, HeaderBytes(image, u)) <==>
            && HeadersAreAt(b, pe, image)
            && HoldsAt(b, pe + 26, u.sizes) && HoldsAt(b, pe + 44, u.codeBase)
            && HoldsAt(b, pe + 64, u.versions) && HoldsAt(b, pe + 88, u.sum)
  {
    var optional := OptionalLayout(image.optional, u, End);
    var fields := Raw([0x50, 0x45, 0, 0], CoffLayout(image.coff, optional));
    StandsAtIsEncoded(b, pe, fields);
    RawIsRead(b, pe, fields);
    SignatureDigits();
    DigitsAreRead(b, pe, PE_MAGIC, 4);
    hide StandsAt, HoldsAt, Value, CoffLayout, OptionalLayout, Encoded, CoffAt, OptionalAt;
    CoffIsRead(b, pe + 4, image.coff, optional);
    OptionalIsRead(b, pe + 24, image.optional, u);
  }

  lemma SignatureDigits()
    ensures Digits(PE_MAGIC, 4) == [0x50, 0x45, 0, 0] && Digits(DOS_MAGIC, 2) == [0x4D, 0x5A]
  {
    assert Digits(0x45, 3) == [0x45, 0, 0] by { assert Digits(0, 2) == [0, 0]; }
  }

  lemma HeadersAreRead(b: seq<byte>, pe: nat, image: Image)
    ensures (exists u: Unread :: u.Valid() && HoldsAt(b, pe, HeaderBytes(image, u))) <==> HeadersAreAt(b, pe, image)
  {
    hide HeaderBytes, HeadersAreAt;
    if HeadersAreAt(b, pe, image) {
      HeadersLieInside(b, pe, image);
      var u := Unread(b[pe + 26..pe + 40], b[pe + 44..pe + 48], b[pe + 64..pe + 80], b[pe + 88..pe + 92]);
      HeaderBytesAreRead(b, pe, image, u);
      assert u.Valid() && HoldsAt(b, pe, HeaderBytes(image, u));
    }
    if u: Unread :| u.Valid() && HoldsAt(b, pe, HeaderBytes(image, u)) {
      HeaderBytesAreRead(b, pe, image, u);
    }
  }

  lemma HeadersLieInside(b: seq<byte>, pe: nat, image: Image)
    requires HeadersAreAt(b, pe, image)
    ensures pe + 96 <= |b|
  {
  }

  lemma SectionBytesAreRead(b: seq<byte>, pe: nat, image: Image, k: nat)
    requires k < |image.sections|
    ensures HasSection(b, pe, image, k) <==> SectionIsAt(b, pe, image, k)
  {
    hide SectionLayout, StandsAt, Encoded, HoldsAt, SectionAt;
    var at, s := pe + 24 + image.coff.sizeOfOptionalHeader + k * 40, image.sections[k];
    if SectionIsAt(b, pe, image, k) {
      NameOfEight(b, at);
      var unread: seq<nat> := b[at + 24..at + 36];
      SliceHolds(b, at + 24, 12);
      SectionIsRead(b, at, s, unread);
      StandsAtIsEncoded(b, at, SectionLayout(s, unread, End));
    }
    if HasSection(b, pe, image, k) {
      var unread: seq<nat> :| |unread| == 12 && HoldsAt(b, at, Encoded(SectionLayout(s, unread, End)));
      SectionIsRead(b, at, s, unread);
      StandsAtIsEncoded(b, at, SectionLayout(s, unread, End));
    }
  }

  lemma NameOfEight(b: seq<byte>, at: nat)
    requires at + 40 <= |b|
    ensures |SectionAt(b, at).name| == 8
  {
  }

  lemma SliceHolds(b: seq<byte>, at: nat, n: nat)
    requires at + n <= |b|
    ensures HoldsAt(b, at, b[at..at + n])
  {
  }

  /** A file lays out an image exactly when the parser, reading at its offsets, reads that image. */
  lemma LaidOutIsRead(b: seq<byte>, image: Image)
    ensures LaysOut(b, image) <==> IsReadAs(b, image)
  {
    SignatureDigits();
    DigitsAreRead(b, 0, DOS_MAGIC, 2);
    forall pe: nat
      ensures HoldsAt(b, 0x3C, Digits(pe, 4)) <==> 0x40 <= |b| && Value(b, 0x3C, 4) == pe
    {
      DigitsAreRead(b, 0x3C, pe, 4);
    }
    assert HoldsAt(b, 0, [0x4D, 0x5A]) <==> 2 <= |b| && Value(b, 0, 2) == DOS_MAGIC;
    hide Digits, HoldsAt, Value, HeaderBytes, HeadersAreAt, HasSection, SectionIsAt;
    if |b| >= 0x40 {
      var pe := Value(b, 0x3C, 4);
      assert HoldsAt(b, 0x3C, Digits(pe, 4));
      HeadersAreRead(b, pe, image);
      forall k | 0 <= k < |image.sections|
        ensures HasSection(b, pe, image, k) <==> SectionIsAt(b, pe, image, k)
      {
        SectionBytesAreRead(b, pe, image, k);
      }
    }
  }

  // ----- what is accepted ----------------------------------------------------------------

  lemma {:induction false} PowerIsPowerOfTwo(k: nat)
    ensures IsPowerOfTwo(Pow2(k))
  {
    if k > 0 { PowerIsPowerOfTwo(k - 1); }
  }

  lemma PowersOfTwoExactly(x: nat)
    ensures IsPowerOfTwo(x) <==> IsPow2(x)
    ensures IsPow2(x) ==> x > 0
  {
    if IsPowerOfTwo(x) {
      var k := PowerOfTwoIsPower(x);
    }
    hide IsPowerOfTwo, Pow2;
    if k: nat :| x == Pow2(k) { PowerIsPowerOfTwo(k); }
  }

  lemma TwoByteBound(b: seq<byte>, off: nat)
    requires off + 2 <= |b|
    ensures Value(b, off, 2) < 0x1_0000
  {
    ValueOfTwo(b, off);
  }

  /** The flags of the headers and of the sections, bit by bit. */
  lemma FlagsAreBits(b: seq<byte>, image: Image)
    requires IsReadAs(b, image)
    ensures HasFlag(image.optional.dllCharacteristics, DLL_DYNAMIC_BASE) <==> Bit(image.optional.dllCharacteristics, 6)
    ensures forall s | s in image.sections ::
              AsksWriteExecute(s) <==> Bit(s.characteristics, 31) && Bit(s.characteristics, 29)
    ensures image.optional.sectionAlignment <= MAX_U32
  {
    var pe := Value(b, 0x3C, 4);
    hide Value, HasFlag, Bit;
    TwoByteBound(b, pe + 24 + 70);
    ValueBound(b, pe + 24 + 32);
    assert Pow2(6) == 0x40 && Pow2(16) == 0x1_0000 by { assert Pow2(8) == 0x100; }
    FlagIsBit(image.optional.dllCharacteristics, 6, 16);
    forall s | s in image.sections
      ensures AsksWriteExecute(s) <==> Bit(s.characteristics, 31) && Bit(s.characteristics, 29)
    {
      var k :| 0 <= k < |image.sections| && image.sections[k] == s;
      assert SectionIsAt(b, pe, image, k);
      ValueBound(b, pe + 24 + image.coff.sizeOfOptionalHeader + k * 40 + 36);
      SectionFlags(s.characteristics);
    }
  }

  /** The headers the parser works with are those of the image. */
  lemma HeadersReadExactly(b: seq<byte>, image: Image)
    requires |b| >= 0x40 && Value(b, 0, 2) == DOS_MAGIC && HeadersAreAt(b, Value(b, 0x3C, 4), image)
    ensures HeadersOf(b) ==
              Ok(Headers(image.coff, image.optional, Value(b, 0x3C, 4) + 24 + image.coff.sizeOfOptionalHeader)) <==>
            HeadersAreSound(image)
  {
    hide Value, IsSane;
  }

  lemma AcceptedHeaders(b: seq<byte>, h: Headers)
    requires HeadersOf(b) == Ok(h)
    ensures |b| >= 0x40 && Value(b, 0, 2) == DOS_MAGIC
    ensures var pe := Value(b, 0x3C, 4);
            && pe + 96 <= |b| && Value(b, pe, 4) == PE_MAGIC
            && h == Headers(CoffAt(b, pe + 4), OptionalAt(b, pe + 24), pe + 24 + h.coff.sizeOfOptionalHeader)
  {
    hide Value, IsSane;
  }

  lemma ParsedIsRead(b: seq<byte>, image: Image)
    requires IsParsed(b, Ok(image))
    ensures IsReadAs(b, image) && |image.sections| == image.coff.numberOfSections
  {
    hide HeadersOf, SectionsOf, Value, HasFlag, NoOverlap, CoffAt, OptionalAt, SectionAt, Fits, SectionIsAt;
    var h := ParsedParts(b, image);
    hide IsParsed;
    AcceptedHeaders(b, h);
    AcceptedSections(b, h, image);
  }

  /** What an accepted image is put together from. */
  lemma ParsedParts(b: seq<byte>, image: Image) returns (h: Headers)
    requires IsParsed(b, Ok(image))
    ensures HeadersOf(b) == Ok(h) && h.coff == image.coff && h.optional == image.optional
    ensures SectionsOf(b, h, h.coff.numberOfSections) == Ok(image.sections)
  {
    hide HeadersOf, SectionsOf, HasFlag, NoOverlap;
    h := HeadersOf(b).value;
  }

  lemma AcceptedSections(b: seq<byte>, h: Headers, image: Image)
    requires h.coff == image.coff && |b| >= 0x40
    requires h.sectionTable == Value(b, 0x3C, 4) + 24 + image.coff.sizeOfOptionalHeader
    requires SectionsOf(b, h, h.coff.numberOfSections) == Ok(image.sections)
    ensures |image.sections| == image.coff.numberOfSections
    ensures forall k | 0 <= k < |image.sections| :: SectionIsAt(b, Value(b, 0x3C, 4), image, k)
  {
    SectionsExactly(b, h, h.coff.numberOfSections);
    hide SectionsOf, Value, SectionAt, Fits;
    forall k | 0 <= k < |image.sections|
      ensures SectionIsAt(b, Value(b, 0x3C, 4), image, k)
    {
      assert HasGoodSection(b, h, k);
    }
  }

  /** What the headers have to say, apart from where they stand. */
  predicate HeadersAreSound(image: Image) {
    && image.coff.machine == 0x8664 && image.coff.numberOfSections <= 96
    && image.coff.sizeOfOptionalHeader >= 112 && image.optional.magic == 0x20B && IsSane(image.optional)
  }

  ghost predicate AllFit(image: Image, fileLen: nat) {
    forall s | s in image.sections :: Fits(s, image.optional, fileLen)
  }

  /** What is checked, and noted, once all sections are read. */
  ghost predicate IsFinished(image: Image) {
    && 0 < image.optional.sectionAlignment <= MAX_U32
    && NoOverlap(image.sections, image.optional.sectionAlignment)
    && (image.aslrOptOut <==> !HasFlag(image.optional.dllCharacteristics, DLL_DYNAMIC_BASE))
    && (image.hadWxSection <==> exists k :: 0 <= k < |image.sections| && AsksWriteExecute(image.sections[k]))
  }

  /** Of an image that was read, the parser accepts exactly the sound ones. */
  lemma ReadIsParsedExactly(b: seq<byte>, image: Image)
    requires IsReadAs(b, image) && |image.sections| == image.coff.numberOfSections
    ensures IsParsed(b, Ok(image)) <==> IsSound(image, |b|)
  {
    hide SectionIsAt, HeadersAreAt, HeadersOf, SectionsOf, Value, HasFlag, Bit, AsksWriteExecute, HeadersAreSound,
         AllFit, IsFinished, IsParsed, IsSound;
    FlagsAreBits(b, image);
    var pe := Value(b, 0x3C, 4);
    var h := Headers(image.coff, image.optional, pe + 24 + image.coff.sizeOfOptionalHeader);
    HeadersReadExactly(b, image);
    SectionsReadExactly(b, pe, image, h);
    hide IsReadAs;
    SoundExactly(image, |b|);
    if IsParsed(b, Ok(image)) {
      var parts := ParsedParts(b, image);
      AcceptedHeaders(b, parts);
    }
    if HeadersOf(b) == Ok(h) && SectionsOf(b, h, |image.sections|) == Ok(image.sections) {
      FinishesExactly(b, image, h);
    }
  }

  lemma FinishesExactly(b: seq<byte>, image: Image, h: Headers)
    requires h.coff == image.coff && h.optional == image.optional
    requires |image.sections| == image.coff.numberOfSections
    requires HeadersOf(b) == Ok(h) && SectionsOf(b, h, |image.sections|) == Ok(image.sections)
    ensures IsParsed(b, Ok(image)) <==> IsFinished(image)
  {
    hide HeadersOf, SectionsOf, HasFlag, NoOverlap, AsksWriteExecute;
  }

  lemma SoundExactly(image: Image, fileLen: nat)
    requires |image.sections| == image.coff.numberOfSections && image.optional.sectionAlignment <= MAX_U32
    requires HasFlag(image.optional.dllCharacteristics, DLL_DYNAMIC_BASE) <==> Bit(image.optional.dllCharacteristics, 6)
    requires forall s | s in image.sections ::
               AsksWriteExecute(s) <==> Bit(s.characteristics, 31) && Bit(s.characteristics, 29)
    ensures IsSound(image, fileLen) <==> HeadersAreSound(image) && AllFit(image, fileLen) && IsFinished(image)
  {
    hide IsPowerOfTwo, IsPow2, Bit, HasFlag, AsksWriteExecute, NoOverlap, AllFit;
    PowersOfTwoExactly(image.optional.sectionAlignment);
    PowersOfTwoExactly(image.optional.fileAlignment);
    AllFitExactly(image, fileLen);
    SomeSectionAsks(image);
    if s :| s in image.sections && AsksWriteExecute(s) {
      assert Bit(s.characteristics, 31) && Bit(s.characteristics, 29);
    }
    if s :| s in image.sections && Bit(s.characteristics, 31) && Bit(s.characteristics, 29) {
      assert AsksWriteExecute(s);
    }
  }

  lemma AllFitExactly(image: Image, fileLen: nat)
    ensures AllFit(image, fileLen) <==>
            forall s | s in image.sections ::
              && s.pointerToRawData + s.sizeOfRawData <= fileLen && image.optional.sizeOfHeaders <= s.virtualAddress
              && s.virtualAddress + s.virtualSize <= image.optional.sizeOfImage
              && s.virtualAddress + s.sizeOfRawData <= image.optional.sizeOfImage
  {
  }

  lemma SomeSectionAsks(image: Image)
    ensures (exists k :: 0 <= k < |image.sections| && AsksWriteExecute(image.sections[k])) <==>
            exists s :: s in image.sections && AsksWriteExecute(s)
  {
    hide AsksWriteExecute;
    if s :| s in image.sections && AsksWriteExecute(s) {
      var k :| 0 <= k < |image.sections| && image.sections[k] == s;
    }
    if k :| 0 <= k < |image.sections| && AsksWriteExecute(image.sections[k]) {
      assert image.sections[k] in image.sections;
    }
  }

  lemma SectionsReadExactly(b: seq<byte>, pe: nat, image: Image, h: Headers)
    requires forall k | 0 <= k < |image.sections| :: SectionIsAt(b, pe, image, k)
    requires h == Headers(image.coff, image.optional, pe + 24 + image.coff.sizeOfOptionalHeader)
    ensures SectionsOf(b, h, |image.sections|) == Ok(image.sections) <==> AllFit(image, |b|)
  {
    SectionsExactly(b, h, |image.sections|);
    hide SectionsOf, SectionAt, Fits;
    forall k | 0 <= k < |image.sections|
      ensures HasGoodSection(b, h, k) <==> Fits(image.sections[k], image.optional, |b|)
      ensures h.sectionTable + k * 40 + 40 <= |b| && SectionAt(b, h.sectionTable + k * 40) == image.sections[k]
    {
      assert SectionIsAt(b, pe, image, k);
    }
    hide HasGoodSection;
    var read := SectionsOf(b, h, |image.sections|);
    if read.Ok? { assert read.value == image.sections; }
    if AllFit(image, |b|) {
      forall k | 0 <= k < |image.sections|
        ensures HasGoodSection(b, h, k)
      {
        assert image.sections[k] in image.sections;
      }
    }
  }

  /**
    Parsing is the inverse of the layout: a file parses to an image exactly when it lays that image
    out, field after field at their widths, and the image is sound.
    */
  lemma ParsesExactly(b: seq<byte>, image: Image)
    ensures IsParsed(b, Ok(image)) <==> LaysOut(b, image) && IsSound(image, |b|)
  {
    hide LaysOut, IsReadAs, IsSound, IsParsed;
    LaidOutIsRead(b, image);
    if IsParsed(b, Ok(image)) {
      ParsedIsRead(b, image);
      ReadIsParsedExactly(b, image);
    } else if IsReadAs(b, image) && IsSound(image, |b|) {
      SoundCounts(image, |b|);
      ReadIsParsedExactly(b, image);
    }
  }

  lemma SoundCounts(image: Image, fileLen: nat)
    requires IsSound(image, fileLen)
    ensures |image.sections| == image.coff.numberOfSections
  {
  }

  // ----- the file's own bytes ------------------------------------------------------------

  lemma {:induction false} LowBits(x: nat, low: nat, n: nat, k: nat)
    requires low < Pow2(n)
    ensures Bit(low + Pow2(n) * x, n + k) <==> Bit(x, k)
  {
    if n > 0 {
      assert (low + Pow2(n) * x) / 2 == low / 2 + Pow2(n - 1) * x by { HalfOf(low, Pow2(n - 1), x); }
      LowBits(x, low / 2, n - 1, k);
    }
  }

  lemma HalfOf(low: nat, p: nat, x: nat)
    ensures (low + 2 * p * x) / 2 == low / 2 + p * x
  {
    var px := p * x;
    assert 2 * p * x == 2 * px;
  }

  /** The flag says that the last byte of some entry of the section table has bits 5 and 7. */
  lemma WriteExecuteInFile(b: seq<byte>, image: Image)
    requires IsParsed(b, Ok(image))
    ensures |b| >= 0x40
    ensures var table := Value(b, 0x3C, 4) + 24 + image.coff.sizeOfOptionalHeader;
            && (forall k | 0 <= k < image.coff.numberOfSections :: table + k * 40 + 40 <= |b|)
            && (image.hadWxSection <==>
                 exists k: nat :: k < image.coff.numberOfSections && AsksBoth(b, table, k))
  {
    hide *;
    ParsedIsRead(b, image);
    SectionsStand(b, image);
    SoundSections(b, image);
    var pe := Value(b, 0x3C, 4);
    var table := pe + 24 + image.coff.sizeOfOptionalHeader;
    forall k: nat | k < |image.sections|
      ensures table + k * 40 + 40 <= |b|
      ensures AsksBoth(b, table, k) <==>
              Bit(image.sections[k].characteristics, 31) && Bit(image.sections[k].characteristics, 29)
    {
      LastByteOfSection(b, pe, image, k);
    }
    SomeEntryAsks(b, table, image);
  }

  lemma SectionsStand(b: seq<byte>, image: Image)
    requires IsReadAs(b, image)
    ensures |b| >= 0x40 && forall k: nat | k < |image.sections| :: SectionIsAt(b, Value(b, 0x3C, 4), image, k)
  {
    hide Value, SectionIsAt, HeadersAreAt;
  }

  lemma SomeEntryAsks(b: seq<byte>, table: nat, image: Image)
    requires forall k: nat | k < |image.sections| ::
               AsksBoth(b, table, k) <==>
               Bit(image.sections[k].characteristics, 31) && Bit(image.sections[k].characteristics, 29)
    ensures (exists k: nat :: k < |image.sections| && AsksBoth(b, table, k)) <==>
            exists s | s in image.sections :: Bit(s.characteristics, 31) && Bit(s.characteristics, 29)
  {
    hide AsksBoth, Bit;
    if s :| s in image.sections && Bit(s.characteristics, 31) && Bit(s.characteristics, 29) {
      var k: nat :| k < |image.sections| && image.sections[k] == s;
      assert AsksBoth(b, table, k);
    }
    if k: nat :| k < |image.sections| && AsksBoth(b, table, k) {
      assert image.sections[k] in image.sections;
    }
  }

  lemma SoundSections(b: seq<byte>, image: Image)
    requires IsParsed(b, Ok(image))
    ensures image.hadWxSection <==>
            exists s | s in image.sections :: Bit(s.characteristics, 31) && Bit(s.characteristics, 29)
  {
    hide IsParsed, LaysOut, Bit, NoOverlap;
    ParsesExactly(b, image);
  }

  lemma LastByteOfSection(b: seq<byte>, pe: nat, image: Image, k: nat)
    requires k < |image.sections| && SectionIsAt(b, pe, image, k)
    ensures pe + 24 + image.coff.sizeOfOptionalHeader + k * 40 + 40 <= |b|
    ensures AsksBoth(b, pe + 24 + image.coff.sizeOfOptionalHeader, k) <==>
            Bit(image.sections[k].characteristics, 31) && Bit(image.sections[k].characteristics, 29)
  {
    LastByteOfFour(b, pe + 24 + image.coff.sizeOfOptionalHeader + k * 40 + 36);
    hide Bit, Value;
  }

  /** The last byte of entry `k` has bit 7, to write, and bit 5, to execute. */
  predicate AsksBoth(b: seq<byte>, table: nat, k: nat) {
    var last := table + k * 40 + 39;
    last < |b| && b[last] / 128 % 2 == 1 && b[last] / 32 % 2 == 1
  }

  lemma LastByteOfFour(b: seq<byte>, off: nat)
    requires off + 4 <= |b|
    ensures Bit(Value(b, off, 4), 31) <==> b[off + 3] / 128 % 2 == 1
    ensures Bit(Value(b, off, 4), 29) <==> b[off + 3] / 32 % 2 == 1
  {
    ValueOfFour(b, off);
    var high: nat := b[off + 3];
    var low := b[off] + 0x100 * (b[off + 1] as nat) + 0x1_0000 * (b[off + 2] as nat);
    assert Pow2(24) == 0x100_0000 by { assert Pow2(8) == 0x100; assert Pow2(16) == 0x1_0000; }
    LowBits(high, low, 24, 7);
    LowBits(high, low, 24, 5);
    HighBits(high);
    hide Bit, Value, Pow2;
  }

  lemma HighBits(x: nat)
    ensures (Bit(x, 7) <==> x / 128 % 2 == 1) && (Bit(x, 5) <==> x / 32 % 2 == 1)
  {
    assert Pow2(5) == 32 && Pow2(7) == 128;
    BitIsQuotient(x, 5);
    BitIsQuotient(x, 7);
    hide Bit;
  }

  lemma {:induction false} BitIsQuotient(x: nat, k: nat)
    ensures Bit(x, k) <==> x / Pow2(k) % 2 == 1
  {
    if k > 0 {
      BitIsQuotient(x / 2, k - 1);
      Arith.DivDiv(x, 2, Pow2(k - 1));
    }
  }
}
