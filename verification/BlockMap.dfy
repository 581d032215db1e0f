/**
  Where the block of a file lies in its pointer tree (`layout.rs`, `locate_block`), for any
  fan-out: a bijection that keeps order.
  */
module BlockMap {
  import Arith

  const DIRECT: nat := 12
  const BLOCK_SIZE: nat := 4096
  const POINTERS_PER_BLOCK: nat := BLOCK_SIZE / 16

  datatype BlockLocation =
    | Direct(slot: nat)
    | Indirect(l0: nat)
    | DoubleIndirect(l1: nat, l0: nat)
    | TripleIndirect(l2: nat, l1: nat, l0: nat)
    | QuadIndirect(l3: nat, l2: nat, l1: nat, l0: nat)
    | OutOfRange

  /** `locate_block` at fan-out `single`. */
  function Locate(single: nat, block: nat): BlockLocation
    requires single > 0
  {
    PositiveProducts(single);
    LocateWith(single, single * single, single * single * single, block)
  }

  function LocateWith(single: nat, double: nat, triple: nat, block: nat): BlockLocation
    requires single > 0 && double > 0 && triple > 0
  {
    if block < DIRECT then Direct(block)
    else
      var i := block - DIRECT;
      if i < single then Indirect(i)
      else
        var i := i - single;
        if i < double then DoubleIndirect(i / single, i % single)
        else
          var i := i - double;
          if i < triple then TripleIndirect(i / double, i / single % single, i % single)
          else
            var i := i - triple;
            if i < triple * single then QuadIndirect(i / triple, i / double % single, i / single % single, i % single)
            else OutOfRange
  }

  lemma PositiveProducts(p: nat)
    requires p > 0
    ensures p * p > 0 && p * p * p > 0
  {
    Arith.MulGap(0, p, p);
    Arith.MulGap(0, p * p, p);
  }

  /** How many blocks a file can have. */
  function MaxBlocks(p: nat): nat {
    DIRECT + p + p * p + p * p * p + p * p * p * p
  }

  function MaxFileSize(): nat {
    MaxBlocks(POINTERS_PER_BLOCK) * BLOCK_SIZE
  }

  /** A position that exists in a tree of fan-out `p`. */
  predicate Exists(p: nat, loc: BlockLocation) {
    match loc
    case Direct(slot) => slot < DIRECT
    case Indirect(l0) => l0 < p
    case DoubleIndirect(l1, l0) => l1 < p && l0 < p
    case TripleIndirect(l2, l1, l0) => l2 < p && l1 < p && l0 < p
    case QuadIndirect(l3, l2, l1, l0) => l3 < p && l2 < p && l1 < p && l0 < p
    case OutOfRange => false
  }

  /** The block at a position: all blocks of lower levels come first, then the position read as a number to base `p`. */
  function BlockAt(p: nat, loc: BlockLocation): nat
    requires !loc.OutOfRange?
  {
    match loc
    case Direct(slot) => slot
    case Indirect(l0) => DIRECT + l0
    case DoubleIndirect(l1, l0) => DIRECT + p + Number(p, [l1, l0])
    case TripleIndirect(l2, l1, l0) => DIRECT + p + p * p + Number(p, [l2, l1, l0])
    case QuadIndirect(l3, l2, l1, l0) => DIRECT + p + p * p + p * p * p + Number(p, [l3, l2, l1, l0])
  }

  /** Digits to base `p`, the most significant first. */
  function Number(p: nat, digits: seq<nat>): nat {
    if digits == [] then 0 else Number(p, digits[..|digits| - 1]) * p + digits[|digits| - 1]
  }

  function Power(p: nat, n: nat): nat {
    if n == 0 then 1 else Power(p, n - 1) * p
  }

  /** The `n` lowest digits of a number. */
  function Digits(p: nat, x: nat, n: nat): seq<nat>
    requires p > 0
    decreases n
  {
    if n == 0 then [] else Digits(p, x / p, n - 1) + [x % p]
  }

  lemma {:induction false} DigitsOfNumber(p: nat, digits: seq<nat>)
    requires p > 0 && forall k | 0 <= k < |digits| :: digits[k] < p
    ensures Digits(p, Number(p, digits), |digits|) == digits && Number(p, digits) < Power(p, |digits|)
  {
    if digits != [] {
      var front, last := digits[..|digits| - 1], digits[|digits| - 1];
      DigitsOfNumber(p, front);
      Arith.UniqueDivision(Number(p, digits), p, Number(p, front), last);
      Arith.MulGap(Number(p, front), Power(p, |front|), p);
    }
  }

  lemma {:induction false} NumberOfDigits(p: nat, x: nat, n: nat)
    requires p > 0 && x < Power(p, n)
    ensures Number(p, Digits(p, x, n)) == x
    ensures |Digits(p, x, n)| == n && forall k | 0 <= k < n :: Digits(p, x, n)[k] < p
    decreases n
  {
    if n > 0 {
      var q := x / p;
      Arith.FloorMultiple(x, p);
      Arith.QuotientBounds(x, p, 0, Power(p, n - 1));
      NumberOfDigits(p, q, n - 1);
      assert Digits(p, x, n)[..n - 1] == Digits(p, q, n - 1);
    }
  }

  lemma Powers(p: nat)
    ensures Power(p, 1) == p && Power(p, 2) == p * p && Power(p, 3) == p * p * p && Power(p, 4) == p * p * p * p
  {
    assert Power(p, 1) == Power(p, 0) * p && Power(p, 2) == Power(p, 1) * p;
  }

  /** The divisions in the source are these digits. */
  lemma DigitsByDivision(p: nat, x: nat)
    requires p > 0
    ensures p * p > 0 && p * p * p > 0
    ensures x < p * p ==> Digits(p, x, 2) == [x / p, x % p]
    ensures x < p * p * p ==> Digits(p, x, 3) == [x / (p * p), x / p % p, x % p]
    ensures x < p * p * p * p ==> Digits(p, x, 4) == [x / (p * p * p), x / (p * p) % p, x / p % p, x % p]
  {
    Arith.DivDiv(x, p, p);
    Arith.DivDiv(x, p * p, p);
    Powers(p);
    var a := x / p;
    var b := a / p;
    var c := b / p;
    assert Digits(p, x, 4) == [c % p, b % p, a % p, x % p];
    assert Digits(p, x, 3) == [b % p, a % p, x % p];
    assert Digits(p, x, 2) == [a % p, x % p];
    if x < p * p { QuotientBelow(x, p, p); }
    if x < p * p * p { QuotientBelow(x, p * p, p); }
    if x < p * p * p * p { QuotientBelow(x, p * p * p, p); }
  }

  lemma QuotientBelow(x: nat, d: nat, q: nat)
    requires d > 0 && x < d * q
    ensures x / d < q && (x / d) % q == x / d
  {
    Arith.QuotientBounds(x, d, 0, q);
    Arith.UniqueDivision(x / d, q, 0, x / d);
  }

  // ----- a bijection ---------------------------------------------------------------------

  /** `Locate` picks the level by how many blocks come before it, and then takes digits. */
  lemma LocateTakesDigits(p: nat, d: nat, t: nat, x: nat)
    requires p > 0 && d == p * p > 0 && t == p * p * p > 0
    ensures x < p ==> Locate(p, DIRECT + x) == Indirect(x)
    ensures x < d ==> var g := Digits(p, x, 2); |g| == 2 && Locate(p, DIRECT + p + x) == DoubleIndirect(g[0], g[1])
    ensures x < t ==>
            var g := Digits(p, x, 3); |g| == 3 && Locate(p, DIRECT + p + d + x) == TripleIndirect(g[0], g[1], g[2])
    ensures x < t * p ==> var g := Digits(p, x, 4);
              |g| == 4 && Locate(p, DIRECT + p + d + t + x) == QuadIndirect(g[0], g[1], g[2], g[3])
    ensures x >= t * p ==> Locate(p, DIRECT + p + d + t + x) == OutOfRange
  {
    hide Digits;
    DigitsByDivision(p, x);
    LocateShallow(p, d, t, x);
    if x < t { LocateTriple(p, d, t, x); }
    LocateQuad(p, d, t, x);
    assert forall b: nat :: Locate(p, b) == LocateWith(p, d, t, b);
    hide Locate, LocateWith;
  }

  lemma LocateShallow(p: nat, d: nat, t: nat, x: nat)
    requires p > 0 && d > 0 && t > 0
    ensures x < p ==> LocateWith(p, d, t, DIRECT + x) == Indirect(x)
    ensures x < d ==> LocateWith(p, d, t, DIRECT + p + x) == DoubleIndirect(x / p, x % p)
  {
  }

  lemma LocateTriple(p: nat, d: nat, t: nat, x: nat)
    requires p > 0 && d > 0 && t > 0 && x < t
    ensures LocateWith(p, d, t, DIRECT + p + d + x) == TripleIndirect(x / d, x / p % p, x % p)
  {
  }

  lemma LocateQuad(p: nat, d: nat, t: nat, x: nat)
    requires p > 0 && d > 0 && t > 0
    ensures LocateWith(p, d, t, DIRECT + p + d + t + x) ==
            if x < t * p then QuadIndirect(x / t, x / d % p, x / p % p, x % p) else OutOfRange
  {
  }

  /** Every block below the limit has a place that exists, and it is the block of that place. */
  lemma LocateFinds(p: nat, block: nat)
    requires p > 0 && block < MaxBlocks(p)
    ensures Exists(p, Locate(p, block)) && BlockAt(p, Locate(p, block)) == block
  {
    PositiveProducts(p);
    Powers(p);
    var d, t := p * p, p * p * p;
    hide Digits, Number, Power, Locate;
    if block < DIRECT {
      DirectBlock(p, block);
    } else if block < DIRECT + p {
      LocateTakesDigits(p, d, t, block - DIRECT);
    } else if block < DIRECT + p + d {
      var x := block - DIRECT - p;
      LocateTakesDigits(p, d, t, x);
      NumberOfDigits(p, x, 2);
      assert [Digits(p, x, 2)[0], Digits(p, x, 2)[1]] == Digits(p, x, 2);
    } else if block < DIRECT + p + d + t {
      TripleFinds(p, d, t, block - DIRECT - p - d);
    } else {
      QuadFinds(p, d, t, block - DIRECT - p - d - t);
    }
  }

  lemma TripleFinds(p: nat, d: nat, t: nat, x: nat)
    requires p > 0 && d == p * p > 0 && t == p * p * p > 0 && x < t
    ensures var loc := Locate(p, DIRECT + p + d + x); Exists(p, loc) && BlockAt(p, loc) == DIRECT + p + d + x
  {
    Powers(p);
    hide Digits, Number, Power, Locate;
    LocateTakesDigits(p, d, t, x);
    NumberOfDigits(p, x, 3);
    assert [Digits(p, x, 3)[0], Digits(p, x, 3)[1], Digits(p, x, 3)[2]] == Digits(p, x, 3);
  }

  lemma QuadFinds(p: nat, d: nat, t: nat, x: nat)
    requires p > 0 && d == p * p > 0 && t == p * p * p > 0 && x < t * p
    ensures var loc := Locate(p, DIRECT + p + d + t + x); Exists(p, loc) && BlockAt(p, loc) == DIRECT + p + d + t + x
  {
    Powers(p);
    hide Digits, Number, Power, Locate;
    LocateTakesDigits(p, d, t, x);
    NumberOfDigits(p, x, 4);
    assert [Digits(p, x, 4)[0], Digits(p, x, 4)[1], Digits(p, x, 4)[2], Digits(p, x, 4)[3]] == Digits(p, x, 4);
  }

  lemma DirectBlock(p: nat, block: nat)
    requires p > 0
    ensures block < DIRECT <==> Locate(p, block).Direct?
    ensures block < DIRECT ==> Locate(p, block) == Direct(block)
  {
  }

  /** Every place that exists is the place of its block, which is below the limit. */
  lemma BlockAtFinds(p: nat, loc: BlockLocation)
    requires p > 0 && Exists(p, loc)
    ensures BlockAt(p, loc) < MaxBlocks(p) && Locate(p, BlockAt(p, loc)) == loc
  {
    PositiveProducts(p);
    Powers(p);
    var d, t := p * p, p * p * p;
    hide Digits, Number, Power, Locate;
    match loc {
      case Direct(slot) =>
        DirectBlock(p, slot);
      case Indirect(l0) =>
        LocateTakesDigits(p, d, t, l0);
      case DoubleIndirect(l1, l0) =>
        DigitsOfNumber(p, [l1, l0]);
        LocateTakesDigits(p, d, t, Number(p, [l1, l0]));
      case TripleIndirect(_, _, _) => TripleFound(p, d, t, loc);
      case QuadIndirect(_, _, _, _) => QuadFound(p, d, t, loc);
    }
  }

  lemma TripleFound(p: nat, d: nat, t: nat, loc: BlockLocation)
    requires p > 0 && d == p * p > 0 && t == p * p * p > 0 && loc.TripleIndirect? && Exists(p, loc)
    ensures BlockAt(p, loc) < DIRECT + p + d + t && Locate(p, BlockAt(p, loc)) == loc
  {
    Powers(p);
    hide Digits, Number, Power, Locate;
    DigitsOfNumber(p, Path(loc));
    LocateTakesDigits(p, d, t, Number(p, Path(loc)));
  }

  lemma QuadFound(p: nat, d: nat, t: nat, loc: BlockLocation)
    requires p > 0 && d == p * p > 0 && t == p * p * p > 0 && loc.QuadIndirect? && Exists(p, loc)
    ensures BlockAt(p, loc) < DIRECT + p + d + t + t * p && Locate(p, BlockAt(p, loc)) == loc
  {
    Powers(p);
    hide Digits, Number, Power, Locate;
    DigitsOfNumber(p, Path(loc));
    LocateTakesDigits(p, d, t, Number(p, Path(loc)));
  }

  /** Out of range is answered for exactly the blocks past the limit. */
  lemma OutOfRangeExactly(p: nat, block: nat)
    requires p > 0
    ensures Locate(p, block) == OutOfRange <==> block >= MaxBlocks(p)
  {
    if block < MaxBlocks(p) {
      LocateFinds(p, block);
    } else {
      PositiveProducts(p);
      var d, t := p * p, p * p * p;
      hide Locate;
      LocateTakesDigits(p, d, t, block - DIRECT - p - d - t);
    }
  }

  // ----- order ---------------------------------------------------------------------------

  function Level(loc: BlockLocation): nat {
    match loc
    case Direct(_) => 0
    case Indirect(_) => 1
    case DoubleIndirect(_, _) => 2
    case TripleIndirect(_, _, _) => 3
    case QuadIndirect(_, _, _, _) => 4
    case OutOfRange => 5
  }

  function Path(loc: BlockLocation): seq<nat> {
    match loc
    case Direct(slot) => [slot]
    case Indirect(l0) => [l0]
    case DoubleIndirect(l1, l0) => [l1, l0]
    case TripleIndirect(l2, l1, l0) => [l2, l1, l0]
    case QuadIndirect(l3, l2, l1, l0) => [l3, l2, l1, l0]
    case OutOfRange => []
  }

  /** Shallower first, then by the first index that differs. */
  predicate Precedes(a: BlockLocation, b: BlockLocation) {
    Level(a) < Level(b) || (Level(a) == Level(b) && |Path(a)| == |Path(b)| && LessLexicographic(Path(a), Path(b)))
  }

  predicate LessLexicographic(a: seq<nat>, b: seq<nat>)
    requires |a| == |b|
  {
    a != [] &&
    (LessLexicographic(a[..|a| - 1], b[..|b| - 1]) || (a[..|a| - 1] == b[..|b| - 1] && a[|a| - 1] < b[|b| - 1]))
  }

  lemma {:induction false} NumberKeepsOrder(p: nat, a: seq<nat>, b: seq<nat>)
    requires |a| == |b| && forall k | 0 <= k < |a| :: a[k] < p && b[k] < p
    requires LessLexicographic(a, b)
    ensures Number(p, a) < Number(p, b)
  {
    var n := |a| - 1;
    if LessLexicographic(a[..n], b[..n]) {
      NumberKeepsOrder(p, a[..n], b[..n]);
      Arith.MulGap(Number(p, a[..n]), Number(p, b[..n]), p);
    }
  }

  lemma {:induction false} LexicographicIsTotal(a: seq<nat>, b: seq<nat>)
    requires |a| == |b| && a != b
    ensures LessLexicographic(a, b) || LessLexicographic(b, a)
  {
    var n := |a| - 1;
    if a[..n] != b[..n] {
      LexicographicIsTotal(a[..n], b[..n]);
    } else {
      assert a == a[..n] + [a[n]] && b == b[..n] + [b[n]];
    }
  }

  lemma PrecedesKeepsOrder(p: nat, a: BlockLocation, b: BlockLocation)
    requires p > 0 && Exists(p, a) && Exists(p, b) && Precedes(a, b)
    ensures BlockAt(p, a) < BlockAt(p, b)
  {
    PositiveProducts(p);
    Powers(p);
    if a.Direct? && b.Direct? {
      assert !LessLexicographic(Path(a)[..0], Path(b)[..0]);
      assert Path(a)[0] == a.slot && Path(b)[0] == b.slot;
    } else if Level(a) == Level(b) {
      NumberKeepsOrder(p, Path(a), Path(b));
      SingleDigit(p, a);
      SingleDigit(p, b);
      hide Number, LessLexicographic;
    } else {
      BelowLevel(p, a);
      AboveLevel(p, b);
      hide BlockAt;
    }
  }

  lemma SingleDigit(p: nat, loc: BlockLocation)
    ensures loc.Indirect? ==> Number(p, Path(loc)) == loc.l0
  {
    if loc.Indirect? {
      var path := Path(loc);
      assert path[..0] == [] && Number(p, path[..0]) * p == 0;
    }
  }

  /** How many blocks lie at shallower levels. */
  function Before(p: nat, level: nat): nat {
    if level == 0 then 0
    else if level == 1 then DIRECT
    else if level == 2 then DIRECT + p
    else if level == 3 then DIRECT + p + p * p
    else if level == 4 then DIRECT + p + p * p + p * p * p
    else MaxBlocks(p)
  }

  lemma AboveLevel(p: nat, loc: BlockLocation)
    requires Exists(p, loc)
    ensures forall level | 0 <= level <= Level(loc) :: Before(p, level) <= BlockAt(p, loc)
  {
    hide Number;
  }

  lemma BelowLevel(p: nat, loc: BlockLocation)
    requires p > 0 && Exists(p, loc)
    ensures BlockAt(p, loc) < Before(p, Level(loc) + 1)
  {
    Powers(p);
    if !loc.Direct? { DigitsOfNumber(p, Path(loc)); }
    SingleDigit(p, loc);
    hide Number, Power;
  }

  /** Earlier blocks lie at earlier places, and only they do. */
  lemma LocateKeepsOrder(p: nat, i: nat, j: nat)
    requires p > 0 && i < MaxBlocks(p) && j < MaxBlocks(p)
    ensures i < j <==> Precedes(Locate(p, i), Locate(p, j))
  {
    hide Locate, BlockAt, Exists, LessLexicographic;
    LocateFinds(p, i);
    LocateFinds(p, j);
    var a, b := Locate(p, i), Locate(p, j);
    if Precedes(a, b) { PrecedesKeepsOrder(p, a, b); }
    if i < j {
      if Precedes(b, a) { PrecedesKeepsOrder(p, b, a); }
      PrecedesIsTotal(a, b);
    }
  }

  lemma PrecedesIsTotal(a: BlockLocation, b: BlockLocation)
    requires a != b
    ensures Precedes(a, b) || Precedes(b, a)
  {
    if Level(a) == Level(b) && Path(a) != Path(b) { LexicographicIsTotal(Path(a), Path(b)); }
    hide LessLexicographic;
    if Level(a) == Level(b) && Path(a) == Path(b) { PathDetermines(a, b); }
  }

  lemma PathDetermines(a: BlockLocation, b: BlockLocation)
    requires Level(a) == Level(b) && Path(a) == Path(b)
    ensures a == b
  {
    var path := Path(a);
    match a {
      case Direct(s) => assert path[0] == s;
      case Indirect(l0) => assert path[0] == l0;
      case DoubleIndirect(l1, l0) => assert path[0] == l1 && path[1] == l0;
      case TripleIndirect(l2, l1, l0) => assert path[0] == l2 && path[1] == l1 && path[2] == l0;
      case QuadIndirect(l3, l2, l1, l0) => assert path[0] == l3 && path[1] == l2 && path[2] == l1 && path[3] == l0;
      case OutOfRange =>
    }
  }

  /**
    At the fan-out of the source, files reach past 16 TiB, and a block is located exactly when its
    first byte can exist.
    */
  lemma SourceFanOut(block: nat)
    ensures MaxFileSize() > 16 * 0x100_0000_0000
    ensures Locate(POINTERS_PER_BLOCK, block) == OutOfRange <==> block * BLOCK_SIZE >= MaxFileSize()
  {
    BlocksAtSourceFanOut();
    hide Locate, MaxBlocks;
    OutOfRangeExactly(POINTERS_PER_BLOCK, block);
  }

  lemma BlocksAtSourceFanOut()
    ensures MaxBlocks(POINTERS_PER_BLOCK) == 0x1_0101_010C
  {
    assert POINTERS_PER_BLOCK == 256;
    assert 256 * 256 == 65536 && 65536 * 256 == 16777216 && 16777216 * 256 == 4294967296;
  }
}
