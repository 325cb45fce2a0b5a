/**
 diff_dol_files and diff_xbe_files: the differences between two loaded images, as a list of patches.
 The first compares aligned words of four bytes, the second single bytes; they are otherwise the same loop.
 */
module DiffImages {
  import opened Bytes

  /** What the loader leaves in memory. */
  type Memory = map<nat, byte>

  datatype Extent = Extent(address: u32, size: nat)

  datatype Image = Image(sections: seq<Extent>, memory: Memory)

  datatype DiffEntry = DiffEntry(address: nat, aData: seq<byte>, bData: seq<byte>)

  const LIMIT: nat := 0x1_0000_0000

  predicate Mapped(m: Memory, at: nat, n: nat) { forall x: nat | at <= x < at + n :: x in m }

  function Read(m: Memory, at: nat, n: nat): (s: seq<byte>)
    requires Mapped(m, at, n)
    ensures |s| == n && forall x: nat | at <= x < at + n :: s[x - at] == m[x]
  {
    seq(n, k requires 0 <= k < n => m[at + k])
  }

  predicate OnGrid(x: int, step: nat) { step == 4 ==> x % 4 == 0 }

  /** Both images hold this word. */
  predicate Common(a: Memory, b: Memory, w: nat, step: nat) { Mapped(a, w, step) && Mapped(b, w, step) }

  predicate Differs(a: Memory, b: Memory, w: nat, step: nat) {
    Common(a, b, w, step) && exists x: nat | w <= x < w + step :: a[x] != b[x]
  }

  predicate Holds(e: DiffEntry, x: nat) { e.address <= x < e.address + |e.bData| }

  /** An entry records what the two images hold from its address on. */
  ghost predicate Records(e: DiffEntry, a: Memory, b: Memory) {
    && |e.aData| == |e.bData| > 0
    && Common(a, b, e.address, |e.bData|)
    && forall x: nat | Holds(e, x) :: e.aData[x - e.address] == a[x] && e.bData[x - e.address] == b[x]
  }

  /** Ascending, disjoint, and with a gap between neighbours: a run of differing words is one entry. */
  predicate Separate(es: seq<DiffEntry>) {
    forall i, j | 0 <= i < j < |es| :: es[i].address + |es[i].bData| < es[j].address
  }

  ghost predicate Held(es: seq<DiffEntry>, x: nat) { exists i | 0 <= i < |es| :: Holds(es[i], x) }

  ghost predicate HeldWord(es: seq<DiffEntry>, w: nat, step: nat) {
    exists i | 0 <= i < |es| :: es[i].address <= w && w + step <= es[i].address + |es[i].bData|
  }

  predicate GridPoint(w: nat, lo: nat, hi: nat, step: nat) { lo <= w < hi && OnGrid(w - lo, step) }

  /** The byte belongs to a scanned word in which the images differ. */
  ghost predicate InDifference(x: nat, a: Memory, b: Memory, lo: nat, hi: nat, step: nat) {
    exists w: nat :: GridPoint(w, lo, hi, step) && w <= x < w + step && Differs(a, b, w, step)
  }

  /** The entries hold the differing words from lo up to hi, and nothing else. */
  ghost predicate IsDiff(es: seq<DiffEntry>, a: Memory, b: Memory, lo: nat, hi: nat, step: nat) {
    && (forall i | 0 <= i < |es| :: Records(es[i], a, b))
    && Separate(es)
    && (forall x: nat | Held(es, x) :: InDifference(x, a, b, lo, hi, step))
    && (forall w: nat | GridPoint(w, lo, hi, step) && Differs(a, b, w, step) :: HeldWord(es, w, step))
  }

  // ---- patching ----

  /** Bytes written over a loaded image. */
  function Write(m: Memory, at: nat, data: seq<byte>): (r: Memory)
    ensures r.Keys == m.Keys
  {
    map x | x in m :: if x in m && at <= x < at + |data| then data[x - at] else m[x]
  }

  function Patch(m: Memory, es: seq<DiffEntry>, toB: bool): (r: Memory)
    ensures r.Keys == m.Keys
  {
    if es == [] then m else Patch(Write(m, es[0].address, if toB then es[0].bData else es[0].aData), es[1..], toB)
  }

  lemma {:induction false} PatchedByte(m: Memory, es: seq<DiffEntry>, a: Memory, b: Memory, toB: bool, x: nat)
    requires forall i | 0 <= i < |es| :: Records(es[i], a, b)
    requires x in m
    ensures Held(es, x) ==> x in a && x in b
    ensures Patch(m, es, toB)[x] == if Held(es, x) then (if toB then b[x] else a[x]) else m[x]
  {
    if es != [] {
      var e := es[0];
      var next := Write(m, e.address, if toB then e.bData else e.aData);
      PatchedByte(next, es[1..], a, b, toB, x);
      assert forall i | 0 <= i < |es[1..]| :: es[1..][i] == es[i + 1];
      assert Held(es, x) <==> Holds(e, x) || Held(es[1..], x) by {
        if Held(es, x) && !Holds(e, x) {
          var i :| 0 <= i < |es| && Holds(es[i], x);
          assert Holds(es[1..][i - 1], x);
        }
      }
      if Holds(e, x) {
        assert x in a && e.aData[x - e.address] == a[x];
        assert x in b && e.bData[x - e.address] == b[x];
      }
    }
  }

  lemma PatchedWord(a: Memory, b: Memory, es: seq<DiffEntry>, lo: nat, hi: nat, step: nat, w: nat, x: nat)
    requires IsDiff(es, a, b, lo, hi, step)
    requires GridPoint(w, lo, hi, step) && Common(a, b, w, step) && w <= x < w + step
    ensures Patch(a, es, true)[x] == b[x]
  {
    PatchedByte(a, es, a, b, true, x);
    if a[x] != b[x] {
      assert Differs(a, b, w, step);
      assert HeldWord(es, w, step);
      var i :| 0 <= i < |es| && es[i].address <= w && w + step <= es[i].address + |es[i].bData|;
      assert Holds(es[i], x);
    }
  }

  /** The b data turn A into B wherever both hold a scanned word, and change nothing in words that are equal. */
  lemma PatchReachesB(a: Memory, b: Memory, es: seq<DiffEntry>, lo: nat, hi: nat, step: nat)
    requires IsDiff(es, a, b, lo, hi, step)
    ensures forall w: nat, x: nat | GridPoint(w, lo, hi, step) && Common(a, b, w, step) && w <= x < w + step ::
      Patch(a, es, true)[x] == b[x]
    ensures forall x | x in a && !Held(es, x) :: Patch(a, es, true)[x] == a[x]
  {
    forall w: nat, x: nat | GridPoint(w, lo, hi, step) && Common(a, b, w, step) && w <= x < w + step
      ensures Patch(a, es, true)[x] == b[x]
    {
      PatchedWord(a, b, es, lo, hi, step, w, x);
    }
    forall x | x in a && !Held(es, x)
      ensures Patch(a, es, true)[x] == a[x]
    {
      PatchedByte(a, es, a, b, true, x);
    }
  }

  /** Writing the a data back restores A. */
  lemma PatchRestoresA(a: Memory, b: Memory, es: seq<DiffEntry>, lo: nat, hi: nat, step: nat)
    requires IsDiff(es, a, b, lo, hi, step)
    ensures Patch(Patch(a, es, true), es, false) == a
  {
    var m := Patch(a, es, true);
    forall x | x in a
      ensures Patch(m, es, false)[x] == a[x]
    {
      PatchedByte(a, es, a, b, true, x);
      PatchedByte(m, es, a, b, false, x);
    }
  }

  // ---- the loops ----

  /** What the scan has found below addr. */
  ghost predicate Scanned(es: seq<DiffEntry>, a: Memory, b: Memory, lo: nat, addr: nat, step: nat) {
    IsDiff(es, a, b, lo, addr, step) && forall i | 0 <= i < |es| :: es[i].address + |es[i].bData| <= addr
  }

  /** A word that is absent from an image or equal in both adds nothing. */
  lemma ScanSkips(es: seq<DiffEntry>, a: Memory, b: Memory, lo: nat, addr: nat, step: nat)
    requires (step == 1 || step == 4) && lo <= addr && OnGrid(addr - lo, step)
    requires Scanned(es, a, b, lo, addr, step) && !Differs(a, b, addr, step)
    ensures Scanned(es, a, b, lo, addr + step, step)
  {
    GridEnds(lo, addr, step);
    MoreWords(es, a, b, lo, addr, step);
  }

  lemma GridEnds(lo: nat, addr: nat, step: nat)
    requires (step == 1 || step == 4) && lo <= addr && OnGrid(addr - lo, step)
    ensures OnGrid(addr + step - lo, step)
    ensures forall w: nat | GridPoint(w, lo, addr, step) :: w + step <= addr
    ensures forall w: nat | GridPoint(w, lo, addr + step, step) :: w == addr || GridPoint(w, lo, addr, step)
  {
  }

  /** A difference is appended to the last entry if it continues it, and becomes a new entry otherwise. */
  function Added(es: seq<DiffEntry>, addr: nat, aValue: seq<byte>, bValue: seq<byte>): seq<DiffEntry> {
    if es != [] && es[|es| - 1].address + |es[|es| - 1].bData| == addr then
      es[|es| - 1 := Longer(es[|es| - 1], aValue, bValue)]
    else
      es + [DiffEntry(addr, aValue, bValue)]
  }

  function Longer(e: DiffEntry, aValue: seq<byte>, bValue: seq<byte>): DiffEntry {
    DiffEntry(e.address, e.aData + aValue, e.bData + bValue)
  }

  lemma RecordsLonger(e: DiffEntry, a: Memory, b: Memory, aValue: seq<byte>, bValue: seq<byte>)
    requires |aValue| == |bValue| > 0 && Records(e, a, b)
    requires Records(DiffEntry(e.address + |e.bData|, aValue, bValue), a, b)
    ensures Records(Longer(e, aValue, bValue), a, b)
  {
    var next := DiffEntry(e.address + |e.bData|, aValue, bValue);
    forall x: nat | Holds(Longer(e, aValue, bValue), x)
      ensures x in a && x in b
      ensures (e.aData + aValue)[x - e.address] == a[x] && (e.bData + bValue)[x - e.address] == b[x]
    {
      if Holds(e, x) {
      } else {
        assert Holds(next, x);
      }
    }
  }

  lemma AddedHolds(es: seq<DiffEntry>, addr: nat, aValue: seq<byte>, bValue: seq<byte>)
    requires |bValue| > 0
    ensures HeldWord(Added(es, addr, aValue, bValue), addr, |bValue|)
    ensures forall w: nat, n: nat | HeldWord(es, w, n) :: HeldWord(Added(es, addr, aValue, bValue), w, n)
    ensures forall x: nat | Held(Added(es, addr, aValue, bValue), x) :: Held(es, x) || addr <= x < addr + |bValue|
  {
    var added := Added(es, addr, aValue, bValue);
    var last := added[|added| - 1];
    assert last.address <= addr && addr + |bValue| <= last.address + |last.bData|;
    forall w: nat, n: nat | HeldWord(es, w, n)
      ensures HeldWord(added, w, n)
    {
      var i :| 0 <= i < |es| && es[i].address <= w && w + n <= es[i].address + |es[i].bData|;
      assert added[i].address <= w && w + n <= added[i].address + |added[i].bData|;
    }
    forall x: nat | Held(added, x)
      ensures Held(es, x) || addr <= x < addr + |bValue|
    {
      var i :| 0 <= i < |added| && Holds(added[i], x);
      assert i < |es| && x < addr ==> Holds(es[i], x);
    }
  }

  lemma AddedRecords(es: seq<DiffEntry>, a: Memory, b: Memory, addr: nat, aValue: seq<byte>, bValue: seq<byte>)
    requires forall i | 0 <= i < |es| :: Records(es[i], a, b) && es[i].address + |es[i].bData| <= addr
    requires Separate(es) && Records(DiffEntry(addr, aValue, bValue), a, b)
    ensures var added := Added(es, addr, aValue, bValue);
      && Separate(added)
      && forall i | 0 <= i < |added| :: Records(added[i], a, b) && added[i].address + |added[i].bData| <= addr + |bValue|
  {
    if es != [] && es[|es| - 1].address + |es[|es| - 1].bData| == addr {
      RecordsLonger(es[|es| - 1], a, b, aValue, bValue);
    }
  }

  lemma ReadRecords(a: Memory, b: Memory, addr: nat, step: nat)
    requires step > 0 && Common(a, b, addr, step)
    ensures Records(DiffEntry(addr, Read(a, addr, step), Read(b, addr, step)), a, b)
  {
  }

  lemma WordsAdded(es: seq<DiffEntry>, a: Memory, b: Memory, lo: nat, addr: nat, step: nat, added: seq<DiffEntry>)
    requires (step == 1 || step == 4) && lo <= addr && OnGrid(addr - lo, step)
    requires IsDiff(es, a, b, lo, addr, step) && Differs(a, b, addr, step)
    requires HeldWord(added, addr, step)
    requires forall w: nat, n: nat | HeldWord(es, w, n) :: HeldWord(added, w, n)
    requires forall x: nat | Held(added, x) :: Held(es, x) || addr <= x < addr + step
    ensures forall x: nat | Held(added, x) :: InDifference(x, a, b, lo, addr + step, step)
    ensures forall w: nat | GridPoint(w, lo, addr + step, step) && Differs(a, b, w, step) :: HeldWord(added, w, step)
  {
    GridEnds(lo, addr, step);
    MoreWords(es, a, b, lo, addr, step);
    assert GridPoint(addr, lo, addr + step, step);
  }

  lemma MoreWords(es: seq<DiffEntry>, a: Memory, b: Memory, lo: nat, addr: nat, step: nat)
    requires forall x: nat | Held(es, x) :: InDifference(x, a, b, lo, addr, step)
    ensures forall x: nat | Held(es, x) :: InDifference(x, a, b, lo, addr + step, step)
  {
    forall x: nat | Held(es, x)
      ensures InDifference(x, a, b, lo, addr + step, step)
    {
      var w: nat :| GridPoint(w, lo, addr, step) && w <= x < w + step && Differs(a, b, w, step);
      assert GridPoint(w, lo, addr + step, step);
    }
  }

  lemma ScanAdds(es: seq<DiffEntry>, a: Memory, b: Memory, lo: nat, addr: nat, step: nat,
                 aValue: seq<byte>, bValue: seq<byte>)
    requires (step == 1 || step == 4) && lo <= addr && OnGrid(addr - lo, step)
    requires Scanned(es, a, b, lo, addr, step) && Differs(a, b, addr, step)
    requires |aValue| == |bValue| == step && Records(DiffEntry(addr, aValue, bValue), a, b)
    ensures Scanned(Added(es, addr, aValue, bValue), a, b, lo, addr + step, step)
  {
    AddedRecords(es, a, b, addr, aValue, bValue);
    AddedHolds(es, addr, aValue, bValue);
    WordsAdded(es, a, b, lo, addr, step, Added(es, addr, aValue, bValue));
  }

  /** The next address does not wrap around. */
  lemma NextAddress(lo: nat, hi: nat, addr: nat, step: nat)
    requires (step == 1 || step == 4) && lo <= addr < hi && OnGrid(addr - lo, step)
    ensures addr + step <= lo + RoundUp(hi - lo, step) && OnGrid(addr + step - lo, step)
  {
    RoundUpExact(hi - lo, step);
    GridEnds(lo, addr, step);
  }

  lemma NothingScanned(a: Memory, b: Memory, lo: nat, step: nat)
    ensures Scanned([], a, b, lo, lo, step)
  {
  }

  lemma ReadingTells(a: Memory, b: Memory, w: nat, step: nat)
    requires Common(a, b, w, step)
    ensures Differs(a, b, w, step) <==> Read(a, w, step) != Read(b, w, step)
  {
    if Read(a, w, step) != Read(b, w, step) {
      var k :| 0 <= k < step && Read(a, w, step)[k] != Read(b, w, step)[k];
      assert a[w + k] != b[w + k];
    }
  }

  /** One address of the loop that both functions share. */
  method Visit(a: Memory, b: Memory, es0: seq<DiffEntry>, addr: nat, step: nat, ghost lo: nat)
    returns (es: seq<DiffEntry>)
    requires (step == 1 || step == 4) && lo <= addr && OnGrid(addr - lo, step)
    requires Scanned(es0, a, b, lo, addr, step)
    ensures Scanned(es, a, b, lo, addr + step, step)
  {
    es := es0;
    if !Mapped(a, addr, step) || !Mapped(b, addr, step) {
      ScanSkips(es, a, b, lo, addr, step);
      return;
    }
    var aValue, bValue := Read(a, addr, step), Read(b, addr, step);
    ReadingTells(a, b, addr, step);
    if aValue == bValue {
      ScanSkips(es, a, b, lo, addr, step);
      return;
    }
    ReadRecords(a, b, addr, step);
    ScanAdds(es, a, b, lo, addr, step, aValue, bValue);
    es := Added(es, addr, aValue, bValue);
  }

  /** The 32-bit address after n rounds. */
  function AddressAfter(lo: u32, step: nat, n: nat): u32 {
    if n == 0 then lo else (AddressAfter(lo, step, n - 1) + step) % LIMIT
  }

  lemma {:induction false} StaysOnGrid(lo: u32, step: nat, n: nat)
    requires step == 1 || step == 4
    ensures OnGrid(AddressAfter(lo, step, n) - lo, step)
  {
    if n > 0 {
      StaysOnGrid(lo, step, n - 1);
    }
  }

  /** If the first grid point at or above the bound is beyond 32 bits, the counter never gets there: the loop never ends. */
  lemma NeverEnds(lo: u32, hi: u32, step: nat, n: nat)
    requires step == 1 || step == 4
    requires lo < hi && lo + RoundUp(hi - lo, step) >= LIMIT
    ensures AddressAfter(lo, step, n) < hi
  {
    StaysOnGrid(lo, step, n);
    RoundUpExact(hi - lo, step);
    GridPointReached(lo, hi, AddressAfter(lo, step, n), RoundUp(hi - lo, step), step);
  }

  lemma GridPointReached(lo: nat, hi: nat, at: nat, size: nat, step: nat)
    requires (step == 1 || step == 4) && hi <= lo + size < hi + step
    requires OnGrid(at - lo, step) && OnGrid(size, step)
    ensures at >= hi ==> at >= lo + size
  {
  }

  /**
   The loop, with step 4 for DOL files and 1 for XBE files. The address is a 32-bit counter, so the source's loop ends only
   if the first grid point at or above the bound fits into 32 bits (see NeverEnds), and then it ends.
   */
  method Compare(a: Memory, b: Memory, lo: u32, hi: u32, step: nat) returns (es: seq<DiffEntry>)
    requires step == 1 || step == 4
    requires lo < hi ==> lo + RoundUp(hi - lo, step) < LIMIT
    ensures IsDiff(es, a, b, lo, hi, step)
  {
    es := [];
    var addr: u32 := lo;
    NothingScanned(a, b, lo, step);
    while addr < hi
      invariant lo <= addr && OnGrid(addr - lo, step)
      invariant addr == lo || addr < hi + step
      invariant Scanned(es, a, b, lo, addr, step)
    {
      NextAddress(lo, hi, addr, step);
      es := Visit(a, b, es, addr, step, lo);
      addr := addr + step;
    }
    ScannedEnough(es, a, b, lo, addr, hi, step);
  }

  lemma ScannedEnough(es: seq<DiffEntry>, a: Memory, b: Memory, lo: nat, addr: nat, hi: nat, step: nat)
    requires (step == 1 || step == 4) && lo <= addr && OnGrid(addr - lo, step)
    requires Scanned(es, a, b, lo, addr, step) && hi <= addr && (addr == lo || addr < hi + step)
    ensures IsDiff(es, a, b, lo, hi, step)
  {
    GridEnds(lo, addr, step);
    assert forall w: nat :: GridPoint(w, lo, hi, step) <==> GridPoint(w, lo, addr, step);
    forall x: nat | Held(es, x)
      ensures InDifference(x, a, b, lo, hi, step)
    {
      var w: nat :| GridPoint(w, lo, addr, step) && w <= x < w + step && Differs(a, b, w, step);
      assert GridPoint(w, lo, hi, step);
    }
  }

  // ---- the range ----

  function End(e: Extent): u32 { (e.address + e.size) % LIMIT }

  /** The least of lo0 and the addresses, and the greatest of hi0 and the ends. */
  ghost predicate Bounds(sections: seq<Extent>, lo0: u32, hi0: u32, lo: u32, hi: u32) {
    && lo <= lo0 && hi0 <= hi
    && (forall e | e in sections :: lo <= e.address && End(e) <= hi)
    && (lo == lo0 || exists e :: e in sections && e.address == lo)
    && (hi == hi0 || exists e :: e in sections && End(e) == hi)
  }

  lemma BoundsOfBoth(s: seq<Extent>, t: seq<Extent>, lo0: u32, hi0: u32, lo: u32, hi: u32, lo': u32, hi': u32)
    requires Bounds(s, lo0, hi0, lo, hi) && Bounds(t, lo, hi, lo', hi')
    ensures Bounds(s + t, lo0, hi0, lo', hi')
  {
    assert lo' == lo0 || exists e :: e in s + t && e.address == lo' by {
      if lo' != lo0 {
        var e :| (e in s || e in t) && e.address == lo';
        assert e in s + t;
      }
    }
    assert hi' == hi0 || exists e :: e in s + t && End(e) == hi' by {
      if hi' != hi0 {
        var e :| (e in s || e in t) && End(e) == hi';
        assert e in s + t;
      }
    }
  }

  method Range(sections: seq<Extent>, lo0: u32, hi0: u32) returns (lo: u32, hi: u32)
    ensures Bounds(sections, lo0, hi0, lo, hi)
  {
    lo, hi := lo0, hi0;
    for i := 0 to |sections|
      invariant Bounds(sections[..i], lo0, hi0, lo, hi)
    {
      var e := sections[i];
      ghost var lo1, hi1 := lo, hi;
      if e.address < lo {
        lo := e.address;
      }
      if End(e) > hi {
        hi := End(e);
      }
      assert e in [e];
      BoundsOfBoth(sections[..i], [e], lo0, hi0, lo1, hi1, lo, hi);
      assert sections[..i] + [e] == sections[..i + 1];
    }
    assert sections[..|sections|] == sections;
  }

  /** No section reaches past the 32-bit address space, and every byte in memory is a section's. */
  ghost predicate Loaded(m: Image) {
    && (forall e | e in m.sections :: e.address + e.size < LIMIT)
    && forall x | x in m.memory :: exists e :: e in m.sections && e.address <= x < e.address + e.size
  }

  ghost predicate IsRange(a: Image, b: Image, lo: u32, hi: u32) {
    Bounds(a.sections + b.sections, LIMIT - 1, 0, lo, hi)
  }

  /** diff_dol_files and diff_xbe_files from the two loaded images on. */
  method Diff(a: Image, b: Image, step: nat) returns (es: seq<DiffEntry>, lo: u32, hi: u32)
    requires step == 1 || step == 4
    requires forall l: u32, h: u32 | IsRange(a, b, l, h) && l < h :: l + RoundUp(h - l, step) < LIMIT
    ensures IsRange(a, b, lo, hi) && IsDiff(es, a.memory, b.memory, lo, hi, step)
  {
    var lo0, hi0 := Range(a.sections, LIMIT - 1, 0);
    lo, hi := Range(b.sections, lo0, hi0);
    BoundsOfBoth(a.sections, b.sections, LIMIT - 1, 0, lo0, hi0, lo, hi);
    assert IsRange(a, b, lo, hi);
    es := Compare(a.memory, b.memory, lo, hi, step);
  }

  lemma EndExact(e: Extent)
    requires e.address + e.size < LIMIT
    ensures End(e) == e.address + e.size
  {
  }

  lemma InRange(a: Image, b: Image, lo: u32, hi: u32, x: nat)
    requires Loaded(a) && IsRange(a, b, lo, hi) && x in a.memory
    ensures lo <= x < hi
  {
    var e :| e in a.sections && e.address <= x < e.address + e.size;
    EndExact(e);
    assert e in a.sections + b.sections;
  }

  /** Byte by byte, the range covers every byte of the sections: patching makes A agree with B wherever both hold anything. */
  lemma BytewiseIsComplete(a: Image, b: Image, es: seq<DiffEntry>, lo: u32, hi: u32)
    requires Loaded(a) && Loaded(b) && IsRange(a, b, lo, hi)
    requires IsDiff(es, a.memory, b.memory, lo, hi, 1)
    ensures forall x | x in a.memory && x in b.memory :: Patch(a.memory, es, true)[x] == b.memory[x]
  {
    forall x | x in a.memory && x in b.memory
      ensures Patch(a.memory, es, true)[x] == b.memory[x]
    {
      InRange(a, b, lo, hi, x);
      PatchedWord(a.memory, b.memory, es, lo, hi, 1, x, x);
    }
  }
}
