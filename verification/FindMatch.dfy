/**
 AddressTranslator::find_match: the address in a destination image that corresponds to an address in the source image,
 found by widening a window around it until exactly one place matches.
 */
module FindMatch {
  import opened Bytes

  type Memory = seq<byte>

  datatype Section = Section(base: u32, bytes: Memory)

  datatype ExpandMethod =
    | PPC_TEXT_FORWARD | PPC_TEXT_FORWARD_WITH_BARRIER | PPC_TEXT_BACKWARD | PPC_TEXT_BACKWARD_WITH_BARRIER
    | PPC_TEXT_BOTH | PPC_TEXT_BOTH_WITH_BARRIER | PPC_TEXT_BOTH_IGNORE_ORIGIN
    | PPC_DATA_FORWARD | PPC_DATA_BACKWARD | PPC_DATA_BOTH
    | RAW_FORWARD | RAW_BACKWARD | RAW_BOTH

  predicate IsRaw(m: ExpandMethod) { m == RAW_FORWARD || m == RAW_BACKWARD || m == RAW_BOTH }

  predicate IsPPCData(m: ExpandMethod) { m == PPC_DATA_FORWARD || m == PPC_DATA_BACKWARD || m == PPC_DATA_BOTH }

  /** The unit of comparison and of expansion. */
  function Unit(m: ExpandMethod): nat { if IsRaw(m) then 1 else 4 }

  // ---- comparing PowerPC words ----

  function Upper(w: nat): nat { w / 0x1_0000 }

  /** The primary opcode, which is what the mask 0xFC000000 selects. */
  function Opcode(w: nat): nat { Upper(w) / 0x400 }

  /** Opcode 18 is a branch; its two lowest bits (absolute, link) count and its distance does not. */
  const BRANCH: nat := 0x12

  /**
   A load or store relative to r2 or r13: under the mask 0xAC1F0000 the word is 0x80020000 or 0x800D0000, so bits 15, 13, 11
   and 10 of the upper half are 1, 0, 0 and 0, and its lowest five bits are the register.
   */
  predicate SmallDataAccess(w: nat) {
    var h := Upper(w);
    h / 0x8000 == 1 && h / 0x2000 % 2 == 0 && h / 0x400 % 4 == 0 && (h % 0x20 == 2 || h % 0x20 == 13)
  }

  /** The comparison of text words as the scan makes it: which bits count is decided by the source word. */
  predicate SameText(src: nat, dest: nat) {
    if Opcode(src) != Opcode(dest) then false
    else if Opcode(src) == BRANCH then src % 4 == dest % 4
    else if SmallDataAccess(src) then Upper(src) == Upper(dest)
    else src == dest
  }

  /** A word without the parts that relocation changes. */
  datatype Canonical = Branch(flags: nat) | Access(upper: nat) | Pointer(flags: nat) | Exact(w: nat)

  function CanonicalText(w: nat): Canonical {
    if Opcode(w) == BRANCH then Branch(w % 4) else if SmallDataAccess(w) then Access(Upper(w)) else Exact(w)
  }

  /** The comparison is equality of canonical forms, hence an equivalence. */
  lemma TextIsCanonical(src: nat, dest: nat)
    ensures SameText(src, dest) <==> CanonicalText(src) == CanonicalText(dest)
  {
  }

  lemma TextIsEquivalence(a: nat, b: nat, c: nat)
    ensures SameText(a, a)
    ensures SameText(a, b) ==> SameText(b, a)
    ensures SameText(a, b) && SameText(b, c) ==> SameText(a, c)
  {
    TextIsCanonical(a, b);
    TextIsCanonical(b, c);
    TextIsCanonical(a, c);
  }

  /** Data words: under the mask 0xFE000000 a pointer is 0x80000000, and then only its two lowest bits count. */
  function CanonicalData(w: nat): Canonical { if w / 0x200_0000 == 0x40 then Pointer(w % 4) else Exact(w) }

  function Word(m: Memory, at: nat): nat
    requires at + 4 <= |m|
  {
    FromBe(m[at..at + 4])
  }

  const BLR: nat := 0x4E80_0020

  // ---- windows ----

  /** `same(i, anchor, r)`: the unit r bytes from the source address agrees with the one r bytes from an anchor in section i. */
  datatype Problem = Problem(src: Memory, offset: nat, dest: seq<Section>, how: ExpandMethod,
                             same: (nat, nat, int) -> bool)

  function MakeProblem(src: Memory, offset: nat, dest: seq<Section>, how: ExpandMethod): Problem {
    Problem(src, offset, dest, how,
            (i: nat, anchor: nat, r: int) => i < |dest| && UnitMatches(src, offset, dest[i].bytes, anchor, how, r))
  }

  /** The source bytes from `before` before the address to `after + 4` behind it exist. */
  predicate InSource(p: Problem, before: nat, after: nat) {
    before <= p.offset && p.offset + after + 4 <= |p.src|
  }

  predicate Inside(m: Memory, at: int, size: nat) { 0 <= at && at + size <= |m| }

  predicate UnitMatches(src: Memory, offset: nat, dest: Memory, anchor: nat, how: ExpandMethod, r: int) {
    if !Inside(src, offset + r, Unit(how)) || !Inside(dest, anchor + r, Unit(how)) then false
    else if IsRaw(how) then src[offset + r] == dest[anchor + r]
    else if how == PPC_TEXT_BOTH_IGNORE_ORIGIN && r == 0 then true
    else if IsPPCData(how) then CanonicalData(Word(src, offset + r)) == CanonicalData(Word(dest, anchor + r))
    else SameText(Word(src, offset + r), Word(dest, anchor + r))
  }

  /** The scan visits this place: the strict bound means that a window ending at the section's end is not tried. */
  predicate Scanned(p: Problem, dest: Memory, anchor: nat, before: nat, after: nat) {
    before <= anchor && anchor + after + 4 < |dest| && Aligned(anchor - before, Unit(p.how))
  }

  predicate Aligned(x: int, unit: nat) { unit == 4 ==> x % 4 == 0 }

  predicate Window(p: Problem, before: nat, after: nat) {
    InSource(p, before, after) && Aligned(before, Unit(p.how)) && Aligned(after, Unit(p.how))
  }

  ghost predicate MatchesAt(p: Problem, place: (nat, nat), before: nat, after: nat)
    requires Window(p, before, after)
  {
    && place.0 < |p.dest|
    && var dest := p.dest[place.0].bytes;
       && Scanned(p, dest, place.1, before, after)
       && Agrees(UnitsAt(p, place), Unit(p.how), 0 - before, after + 4)
  }

  function UnitsAt(p: Problem, place: (nat, nat)): int -> bool {
    (r: int) => p.same(place.0, place.1, r)
  }

  /** All units from one distance to another agree. */
  predicate Agrees(same: int -> bool, unit: nat, from: int, bound: int)
    requires unit > 0
    decreases bound - from
  {
    from >= bound || (same(from) && Agrees(same, unit, from + unit, bound))
  }

  lemma {:induction false} AgreesWithin(same: int -> bool, unit: nat, from: int, from': int, bound: int, bound': int)
    requires unit == 1 || unit == 4
    requires Agrees(same, unit, from, bound)
    requires from <= from' && bound' <= bound && Aligned(from' - from, unit)
    ensures Agrees(same, unit, from', bound')
    decreases bound - from
  {
    if from' < bound' {
      var next := from + unit;
      if from < from' {
        AgreesWithin(same, unit, next, from', bound, bound');
      } else {
        AgreesWithin(same, unit, next, next, bound, bound');
      }
    }
  }

  /** A wider window matches in fewer places. */
  lemma MatchesShrink(p: Problem, place: (nat, nat), before: nat, after: nat, before': nat, after': nat)
    requires Window(p, before, after) && Window(p, before', after') && before <= before' && after <= after'
    requires MatchesAt(p, place, before', after')
    ensures MatchesAt(p, place, before, after)
  {
    AlignedParts(place.1, before, before', Unit(p.how));
    AgreesWithin(UnitsAt(p, place), Unit(p.how), 0 - before', 0 - before, after' + 4, after + 4);
  }

  lemma AlignedParts(anchor: nat, before: nat, before': nat, unit: nat)
    requires Aligned(before, unit) && Aligned(before', unit) && Aligned(anchor - before', unit)
    ensures Aligned(anchor - before, unit) && Aligned((0 - before) - (0 - before'), unit)
  {
  }

  lemma {:induction false} AllAgree(same: int -> bool, unit: nat, from: int, bound: int)
    requires unit == 1 || (unit == 4 && (bound - from) % 4 == 0)
    requires forall r: int | from <= r && r + unit <= bound :: same(r)
    ensures Agrees(same, unit, from, bound)
    decreases bound - from
  {
    if from < bound {
      AllAgree(same, unit, from + unit, bound);
    }
  }

  /**
   An unchanged section. The window around the source address is found at the same offset unless it ends exactly at the
   section's end, which the scan never tries, or the offset is one that the scan steps over.
   */
  lemma SelfMatch(src: Memory, offset: nat, dest: seq<Section>, how: ExpandMethod, i: nat, before: nat, after: nat)
    requires i < |dest| && dest[i].bytes == src
    requires Window(MakeProblem(src, offset, dest, how), before, after)
    ensures MatchesAt(MakeProblem(src, offset, dest, how), (i, offset), before, after) <==>
      offset + after + 4 < |src| && Aligned(offset - before, Unit(how))
  {
    var p := MakeProblem(src, offset, dest, how);
    var same := UnitsAt(p, (i, offset));
    forall r: int | 0 - before <= r && r + Unit(how) <= after + 4
      ensures same(r)
    {
      assert UnitMatches(src, offset, src, offset, how, r);
    }
    AllAgree(same, Unit(how), 0 - before, after + 4);
  }

  // ---- the search ----

  datatype Failure = NoSection | OutOfSource | NoMatch | NoExpansion | TooLong

  const MAX_WINDOW: nat := 0x100

  function RoomBefore(p: Problem, before: nat): bool {
    if IsRaw(p.how) then p.offset > before else p.offset >= before + 4
  }

  function RoomAfter(p: Problem, after: nat): bool
    requires p.offset + 4 <= |p.src|
  {
    var available := |p.src| - p.offset - 4;
    if IsRaw(p.how) then available > after else available >= after + 4
  }

  /** Which sides of the window may grow. */
  function Expansion(p: Problem, before: nat, after: nat): (bool, bool)
    requires Window(p, before, after)
  {
    var back, forth := RoomBefore(p, before), RoomAfter(p, after);
    var openBack := IsRaw(p.how) || Word(p.src, p.offset - before) != BLR;
    var openForth := IsRaw(p.how) || Word(p.src, p.offset + after) != BLR;
    match p.how
    case PPC_TEXT_BACKWARD_WITH_BARRIER => (openBack && back, false)
    case PPC_TEXT_BACKWARD => (back, false)
    case PPC_DATA_BACKWARD => (back, false)
    case PPC_TEXT_FORWARD_WITH_BARRIER => (false, openForth && forth)
    case PPC_TEXT_FORWARD => (false, forth)
    case PPC_DATA_FORWARD => (false, forth)
    case PPC_TEXT_BOTH_WITH_BARRIER => (openBack && back, openForth && forth)
    case PPC_TEXT_BOTH_IGNORE_ORIGIN => (openBack && back, openForth && forth)
    case PPC_TEXT_BOTH => (back, forth)
    case PPC_DATA_BOTH => (back, forth)
    case RAW_BACKWARD => (back, false)
    case RAW_FORWARD => (false, forth)
    case RAW_BOTH => (back, forth)
  }

  ghost predicate Unique(p: Problem, place: (nat, nat), before: nat, after: nat)
    requires Window(p, before, after)
  {
    MatchesAt(p, place, before, after) && forall q | MatchesAt(p, q, before, after) :: q == place
  }

  function AddressOf(p: Problem, place: (nat, nat)): u32
    requires place.0 < |p.dest|
  {
    (p.dest[place.0].base + place.1) % 0x1_0000_0000
  }

  function Grow(p: Problem, before: nat, after: nat): (r: Option<(nat, nat)>)
    requires Window(p, before, after)
    ensures r.Some? ==>
      Window(p, r.value.0, r.value.1) && before <= r.value.0 && after <= r.value.1
      && before + after < r.value.0 + r.value.1
  {
    var (back, forth) := Expansion(p, before, after);
    if !back && !forth then None
    else
      var before': nat := if back then before + Unit(p.how) else before;
      var after': nat := if forth then after + Unit(p.how) else after;
      WindowGrows(p, before, after);
      Some((before', after'))
  }

  /** A side that may grow stays inside the source, and aligned. */
  lemma WindowGrows(p: Problem, before: nat, after: nat)
    requires Window(p, before, after)
    ensures Expansion(p, before, after).0 ==> RoomBefore(p, before)
    ensures Expansion(p, before, after).1 ==> RoomAfter(p, after)
    ensures RoomBefore(p, before) ==> before + Unit(p.how) <= p.offset
    ensures RoomAfter(p, after) ==> p.offset + after + Unit(p.how) + 4 <= |p.src|
    ensures Aligned(before + Unit(p.how), Unit(p.how)) && Aligned(after + Unit(p.how), Unit(p.how))
  {
    AlignedStep(before, 0, Unit(p.how));
    AlignedStep(after, 0, Unit(p.how));
  }

  /** The search from a given window on. */
  ghost function Search(p: Problem, before: nat, after: nat): Result<u32, Failure>
    requires Window(p, before, after)
    decreases MAX_WINDOW - (before + after)
  {
    if before + after + 4 >= MAX_WINDOW then Err(TooLong)
    else if exists place :: Unique(p, place, before, after) then
      var place :| Unique(p, place, before, after);
      Ok(AddressOf(p, place))
    else if forall place :: !MatchesAt(p, place, before, after) then Err(NoMatch)
    else match Grow(p, before, after)
      case None => Err(NoExpansion)
      case Some((before', after')) => Search(p, before', after')
  }

  /** The windows the search goes through. */
  ghost predicate Reached(p: Problem, before: nat, after: nat, b: nat, a: nat)
    requires Window(p, before, after)
    decreases MAX_WINDOW - (before + after)
  {
    if b == before && a == after then true
    else if before + after + 4 >= MAX_WINDOW then false
    else match Grow(p, before, after)
      case None => false
      case Some((before', after')) => Reached(p, before', after', b, a)
  }

  /**
   What a result means. An address is that of the one scanned place where some window of the search matches;
   failing to find a match means that some window matches nowhere.
   */
  lemma {:induction false} SearchSound(p: Problem, before: nat, after: nat)
    requires Window(p, before, after)
    ensures match Search(p, before, after)
      case Ok(address) =>
        exists b: nat, a: nat, place ::
          Window(p, b, a) && Reached(p, before, after, b, a) && Unique(p, place, b, a) && address == AddressOf(p, place)
      case Err(NoMatch) =>
        exists b: nat, a: nat ::
          Window(p, b, a) && Reached(p, before, after, b, a) && forall place :: !MatchesAt(p, place, b, a)
      case Err(_) => true
    decreases MAX_WINDOW - (before + after)
  {
    if before + after + 4 < MAX_WINDOW {
      if exists place :: Unique(p, place, before, after) {
        var place :| Unique(p, place, before, after);
        assert Reached(p, before, after, before, after);
        assert Search(p, before, after) == Ok(AddressOf(p, place));
      } else if forall place :: !MatchesAt(p, place, before, after) {
        assert Reached(p, before, after, before, after);
      } else if Grow(p, before, after).Some? {
        var (b', a') := Grow(p, before, after).value;
        SearchSound(p, b', a');
        assert forall b: nat, a: nat | Reached(p, b', a', b, a) :: Window(p, b, a) ==> Reached(p, before, after, b, a);
      }
    }
  }

  /** A place that matches in every window the search goes through. */
  ghost predicate Counterpart(p: Problem, place: (nat, nat), before: nat, after: nat)
    requires Window(p, before, after)
  {
    forall b: nat, a: nat | Window(p, b, a) && Reached(p, before, after, b, a) && b + a + 4 < MAX_WINDOW ::
      MatchesAt(p, place, b, a)
  }

  lemma CounterpartNext(p: Problem, place: (nat, nat), before: nat, after: nat)
    requires Window(p, before, after) && Counterpart(p, place, before, after) && before + after + 4 < MAX_WINDOW
    ensures MatchesAt(p, place, before, after)
    ensures var r := Grow(p, before, after); r.Some? ==> Counterpart(p, place, r.value.0, r.value.1)
  {
    assert Reached(p, before, after, before, after);
    var r := Grow(p, before, after);
    if r.Some? {
      var (b', a') := r.value;
      assert forall b: nat, a: nat | Reached(p, b', a', b, a) :: Window(p, b, a) ==> Reached(p, before, after, b, a);
    }
  }

  /**
   If the destination holds a counterpart of the surroundings that the search looks at, the search never returns another
   address and never reports that there is no match: it returns the counterpart, or cannot tell it from other places.
   */
  lemma {:induction false} CounterpartFound(p: Problem, place: (nat, nat), before: nat, after: nat)
    requires Window(p, before, after) && Counterpart(p, place, before, after)
    ensures place.0 < |p.dest| || before + after + 4 >= MAX_WINDOW
    ensures match Search(p, before, after)
      case Ok(address) => place.0 < |p.dest| && address == AddressOf(p, place)
      case Err(e) => e == NoExpansion || e == TooLong
    decreases MAX_WINDOW - (before + after)
  {
    if before + after + 4 < MAX_WINDOW {
      CounterpartNext(p, place, before, after);
      if Grow(p, before, after).Some? {
        var (b', a') := Grow(p, before, after).value;
        CounterpartFound(p, place, b', a');
      }
    }
  }

  /** A window that ends at the section's end: a section of four zero bytes does not match itself. */
  lemma SectionEndMissed()
    ensures var p := MakeProblem(Zeros(4), 0, [Section(0, Zeros(4))], RAW_FORWARD);
      Window(p, 0, 0) && Search(p, 0, 0) == Err(NoMatch)
  {
    var p := MakeProblem(Zeros(4), 0, [Section(0, Zeros(4))], RAW_FORWARD);
    assert |p.dest| == 1 && |p.dest[0].bytes| == 4;
    assert forall place :: !MatchesAt(p, place, 0, 0);
  }

  // ---- the loops ----

  predicate Contains(sec: Section, address: u32, size: u32) {
    address >= sec.base && (address + size) % 0x1_0000_0000 <= (sec.base + |sec.bytes|) % 0x1_0000_0000
  }

  /** One comparison: unit by unit until the first difference. */
  method Compare(p: Problem, place: (nat, nat), before: nat, after: nat) returns (same: bool)
    ensures same <==> Agrees(UnitsAt(p, place), Unit(p.how), 0 - before, after + 4)
  {
    var z: nat := 0;
    var length := before + after + 4;
    var units := UnitsAt(p, place);
    while z < length
      invariant Agrees(units, Unit(p.how), 0 - before, after + 4) == Agrees(units, Unit(p.how), z - before, after + 4)
    {
      if !units(z - before) {
        return false;
      }
      z := z + Unit(p.how);
    }
    return true;
  }

  /** In the order of the scan: before offset `bound` of section i. */
  predicate Earlier(place: (nat, nat), i: nat, bound: nat) { place.0 < i || (place.0 == i && place.1 < bound) }

  /** A count of the matches met so far, with the last and, if there are several, another one. */
  ghost predicate Tally(p: Problem, before: nat, after: nat, i: nat, bound: nat, count: nat,
                        last: (nat, nat), other: (nat, nat))
    requires Window(p, before, after)
  {
    && (count > 0 ==> MatchesAt(p, last, before, after) && Earlier(last, i, bound))
    && (count > 1 ==> MatchesAt(p, other, before, after) && other != last)
    && (count <= 1 ==> forall q | MatchesAt(p, q, before, after) && Earlier(q, i, bound) :: count == 1 && q == last)
  }

  /** The scan moves on by one unit. */
  lemma TallyStep(p: Problem, before: nat, after: nat, i: nat, at: nat, count: nat, last: (nat, nat), other: (nat, nat))
    requires Window(p, before, after) && Tally(p, before, after, i, at, count, last, other)
    requires before <= at && Aligned(at - before, Unit(p.how))
    ensures if MatchesAt(p, (i, at), before, after)
      then Tally(p, before, after, i, at + Unit(p.how), count + 1, (i, at), last)
      else Tally(p, before, after, i, at + Unit(p.how), count, last, other)
  {
    var here: (nat, nat) := (i, at);
    forall q: (nat, nat) | MatchesAt(p, q, before, after) && Earlier(q, i, at + Unit(p.how))
      ensures q == here || Earlier(q, i, at)
    {
      assert q.0 == i && q.1 >= at ==> Aligned(q.1 - before, Unit(p.how));
    }
  }

  /** Nothing matches before the first offset of a section or after the last one tried. */
  lemma TallyEdges(p: Problem, before: nat, after: nat, i: nat, at: nat, count: nat, last: (nat, nat), other: (nat, nat))
    requires Window(p, before, after)
    ensures Tally(p, before, after, i, 0, count, last, other) ==> Tally(p, before, after, i, before, count, last, other)
    ensures i < |p.dest| && at + after + 4 >= |p.dest[i].bytes| && Tally(p, before, after, i, at, count, last, other) ==>
      Tally(p, before, after, i + 1, 0, count, last, other)
  {
  }

  lemma AlignedStep(offset: nat, before: nat, unit: nat)
    requires (unit == 1 || unit == 4) && Aligned(offset, unit)
    ensures Aligned(offset + unit, unit) && Aligned(offset + before - before, unit)
  {
  }

  method ScanSection(p: Problem, i: nat, before: nat, after: nat, count0: nat, address0: u32,
                     ghost last0: (nat, nat), ghost other0: (nat, nat))
    returns (count: nat, address: u32, ghost last: (nat, nat), ghost other: (nat, nat))
    requires Window(p, before, after) && i < |p.dest|
    requires Tally(p, before, after, i, 0, count0, last0, other0) && (count0 > 0 ==> address0 == AddressOf(p, last0))
    ensures Tally(p, before, after, i + 1, 0, count, last, other) && (count > 0 ==> address == AddressOf(p, last))
  {
    count, address, last, other := count0, address0, last0, other0;
    var sec := p.dest[i];
    var offset := 0;
    var length := before + after + 4;
    TallyEdges(p, before, after, i, 0, count, last, other);
    while offset + length < |sec.bytes|
      invariant Aligned(offset, Unit(p.how))
      invariant Tally(p, before, after, i, offset + before, count, last, other)
      invariant count > 0 ==> address == AddressOf(p, last)
      decreases |sec.bytes| - offset
    {
      var same := Compare(p, (i, offset + before), before, after);
      TallyStep(p, before, after, i, offset + before, count, last, other);
      AlignedStep(offset, before, Unit(p.how));
      if same {
        count, address := count + 1, AddressOf(p, (i, offset + before));
        last, other := (i, offset + before), last;
      }
      offset := offset + Unit(p.how);
    }
    TallyEdges(p, before, after, i, offset + before, count, last, other);
  }

  lemma CountMeans(p: Problem, before: nat, after: nat, count: nat, last: (nat, nat), other: (nat, nat))
    requires Window(p, before, after) && Tally(p, before, after, |p.dest|, 0, count, last, other)
    ensures count == 0 <==> forall place :: !MatchesAt(p, place, before, after)
    ensures count == 1 ==> Unique(p, last, before, after)
    ensures count > 1 ==> !exists place :: Unique(p, place, before, after)
  {
    assert forall q | MatchesAt(p, q, before, after) :: Earlier(q, |p.dest|, 0);
  }

  /** The loops over all sections: a count, and the address of the last match, which is the only one if the count is 1. */
  method Scan(p: Problem, before: nat, after: nat) returns (count: nat, address: u32)
    requires Window(p, before, after)
    ensures count == 0 <==> forall place :: !MatchesAt(p, place, before, after)
    ensures count == 1 <==> exists place :: Unique(p, place, before, after)
    ensures count == 1 ==> forall place | Unique(p, place, before, after) :: address == AddressOf(p, place)
  {
    count, address := 0, 0;
    ghost var last: (nat, nat), other: (nat, nat) := (0, 0), (0, 0);
    for i := 0 to |p.dest|
      invariant Tally(p, before, after, i, 0, count, last, other)
      invariant count > 0 ==> address == AddressOf(p, last)
    {
      count, address, last, other := ScanSection(p, i, before, after, count, address, last, other);
    }
    CountMeans(p, before, after, count, last, other);
  }

  /** The first section that holds the address; the search takes place there and not in a later one. */
  ghost predicate FirstSection(srcMem: seq<Section>, address: u32, wanted: u32, i: nat) {
    i < |srcMem| && Contains(srcMem[i], address, wanted) && forall j | 0 <= j < i :: !Contains(srcMem[j], address, wanted)
  }

  /** find_match: the first section that holds the address, then scans with growing windows. */
  method Find(srcMem: seq<Section>, dest: seq<Section>, address: u32, size: u32, how: ExpandMethod)
    returns (r: Result<u32, Failure>, ghost p: Problem)
    ensures r == Err(NoSection) || r == if InSource(p, 0, 0) then Search(p, 0, 0) else Err(OutOfSource)
    ensures r == Err(NoSection) <==>
      forall i: nat | FirstSection(srcMem, address, if size == 0 then Unit(how) else size, i) :: srcMem[i].bytes == []
    ensures r != Err(NoSection) ==>
      exists i: nat :: FirstSection(srcMem, address, if size == 0 then Unit(how) else size, i)
        && p == MakeProblem(srcMem[i].bytes, address - srcMem[i].base, dest, how)
  {
    var wanted := if size == 0 then Unit(how) else size;
    var i := 0;
    while i < |srcMem| && !Contains(srcMem[i], address, wanted)
      invariant i <= |srcMem|
      invariant forall j | 0 <= j < i :: !Contains(srcMem[j], address, wanted)
    {
      i := i + 1;
    }
    p := MakeProblem([], 0, dest, how);
    if i == |srcMem| || srcMem[i].bytes == [] {
      return Err(NoSection), p;
    }
    assert FirstSection(srcMem, address, wanted, i);
    var q := MakeProblem(srcMem[i].bytes, address - srcMem[i].base, dest, how);
    p := q;
    if !InSource(q, 0, 0) {
      return Err(OutOfSource), p;
    }
    var before: nat, after: nat := 0, 0;
    while before + after + 4 < MAX_WINDOW
      invariant Window(q, before, after) && Search(q, before, after) == Search(q, 0, 0)
      decreases MAX_WINDOW - (before + after)
    {
      var count, match_ := Scan(q, before, after);
      if count == 1 {
        return Ok(match_), p;
      } else if count == 0 {
        return Err(NoMatch), p;
      }
      var grown := Grow(q, before, after);
      if grown.None? {
        return Err(NoExpansion), p;
      }
      before, after := grown.value.0, grown.value.1;
    }
    return Err(TooLong), p;
  }
}
