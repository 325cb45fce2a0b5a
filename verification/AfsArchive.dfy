/**
 AFS archives: the writer, little-endian, and the reader. The writer computes the table of offsets in one loop and places
 the files in another; the archive can be read because the two agree.
 */
module AfsArchives {
  import opened Bytes

  datatype Entry = Entry(offset: u64, size: u32)

  datatype Archive = Archive(data: seq<byte>, entries: seq<Entry>)

  datatype ParseError = NotAnArchive | Truncated

  datatype GetError = NoSuchEntry | BeginsBeyondEnd | ExtendsBeyondEnd

  type Files = seq<seq<byte>>

  const MAGIC: u32 := 0x4146_5300

  /** The size of the header, which the writer fills up with zeros if the table leaves room. */
  const DATA_START: nat := 0x8_0000

  const WORD: nat := 0x1_0000_0000

  /** As many table entries as there is room for. */
  const MAX_FILES: nat := 65535

  /** Files start on multiples of 0x800. */
  function Up(n: nat): (r: nat)
    ensures n <= r < n + 0x800
  {
    RoundUp(n, 0x800)
  }

  lemma UpAligned(n: nat)
    ensures Up(n) % 0x800 == 0
    ensures n % 0x800 == 0 ==> Up(n) == n
  {
    RoundUpExact(n, 0x800);
  }

  /** What a 32-bit field keeps. */
  function Low32(n: nat): u32 { n % WORD }

  lemma Low32Exact(n: nat)
    ensures Low32(n) == n <==> n < WORD
  {
  }

  // ---- what the writer leaves ----

  /** The 32-bit offset that the writer predicts for the file after this one. */
  function NextOffset(offset: u32, size: nat): u32 { Low32(Up(offset + size)) }

  function Table(files: Files, offset: u32): (t: seq<byte>)
    ensures |t| == 8 * |files|
  {
    if files == [] then []
    else Le(offset, 4) + Le(Low32(|files[0]|), 4) + Table(files[1..], NextOffset(offset, |files[0]|))
  }

  function Bodies(files: Files, at: nat): seq<byte> {
    if files == [] then []
    else
      var end := at + |files[0]|;
      files[0] + Zeros(Up(end) - end) + Bodies(files[1..], Up(end))
  }

  function ExtendTo(w: seq<byte>, size: nat): seq<byte> { if |w| < size then w + Zeros(size - |w|) else w }

  function Header(files: Files): seq<byte> {
    ExtendTo(Be(MAGIC, 4) + Le(Low32(|files|), 4) + Table(files, DATA_START), DATA_START)
  }

  function Image(files: Files): seq<byte> { Header(files) + Bodies(files, |Header(files)|) }

  /** Where file i is written if the first one is written at `at`. */
  function Position(files: Files, at: nat, i: nat): nat
    requires i <= |files|
  {
    if i == 0 then at else Position(files[1..], Up(at + |files[0]|), i - 1)
  }

  /** What the table says. */
  function Predicted(files: Files, offset: u32, i: nat): u32
    requires i <= |files|
  {
    if i == 0 then offset else Predicted(files[1..], NextOffset(offset, |files[0]|), i - 1)
  }

  function Start(files: Files): nat { |Header(files)| }

  lemma StartAt(files: Files)
    ensures Start(files) == if |files| <= MAX_FILES then DATA_START else 8 + 8 * |files|
    ensures Start(files) >= 8 + 8 * |files|
  {
  }

  lemma {:induction false} PositionsAscend(files: Files, at: nat, i: nat)
    requires i <= |files|
    ensures at <= Position(files, at, i)
    ensures i > 0 ==> Up(at + |files[0]|) <= Position(files, at, i)
  {
    if i > 0 {
      PositionsAscend(files[1..], Up(at + |files[0]|), i - 1);
    }
  }

  lemma {:induction false} PredictionFollows(files: Files, at: u32, i: nat)
    requires i <= |files| && Position(files, at, i) < WORD
    ensures Predicted(files, at, i) == Position(files, at, i)
  {
    if i > 0 {
      PositionsAscend(files, at, i);
      Low32Exact(Up(at + |files[0]|));
      PredictionFollows(files[1..], Up(at + |files[0]|), i - 1);
    }
  }

  lemma {:induction false} PositionOrder(files: Files, at: nat, i: nat, j: nat)
    requires i <= j <= |files|
    ensures Position(files, at, i) <= Position(files, at, j)
    ensures i < j ==> Position(files, at, i) + |files[i]| <= Position(files, at, j)
  {
    if i == 0 {
      PositionsAscend(files, at, j);
    } else {
      PositionOrder(files[1..], Up(at + |files[0]|), i - 1, j - 1);
    }
  }

  ghost predicate TableRight(files: Files) {
    forall i: nat | i < |files| :: Predicted(files, DATA_START, i) == Position(files, Start(files), i)
  }

  /** The table fits into the header and the last file starts within 4 GB. */
  predicate Fits(files: Files) {
    files == [] || (|files| <= MAX_FILES && Position(files, Start(files), |files| - 1) < WORD)
  }

  lemma FittingTable(files: Files)
    requires files != [] && Fits(files)
    ensures TableRight(files)
  {
    StartAt(files);
    forall i: nat | i < |files|
      ensures Predicted(files, DATA_START, i) == Position(files, Start(files), i)
    {
      PositionOrder(files, Start(files), i, |files| - 1);
      PredictionFollows(files, DATA_START, i);
    }
  }

  lemma RightTable(files: Files)
    requires files != [] && TableRight(files)
    ensures Fits(files)
  {
    StartAt(files);
    var last: nat := |files| - 1;
    assert Predicted(files, DATA_START, last) == Position(files, Start(files), last);
    FirstPrediction(files);
  }

  lemma FirstPrediction(files: Files)
    ensures Predicted(files, DATA_START, 0) == DATA_START && Position(files, Start(files), 0) == Start(files)
  {
  }

  /** The table gives every file's position exactly when it fits and no file starts beyond 4 GB. */
  lemma TableIsRight(files: Files)
    ensures TableRight(files) <==> Fits(files)
  {
    if files != [] {
      if Fits(files) {
        FittingTable(files);
      }
      if TableRight(files) {
        RightTable(files);
      }
    }
  }

  /** One file too many, all of them empty: the table overruns the header and is wrong. */
  lemma TableTooLong()
    ensures !TableRight(seq(65536, _ => []))
  {
    TableIsRight(seq(65536, _ => []));
  }

  lemma {:induction false} PositionsAligned(files: Files, at: nat, i: nat)
    requires i <= |files| && at % 0x800 == 0
    ensures Position(files, at, i) % 0x800 == 0
  {
    if i > 0 {
      UpAligned(at + |files[0]|);
      PositionsAligned(files[1..], Up(at + |files[0]|), i - 1);
    }
  }

  // ---- reading ----

  function Word(data: seq<byte>, at: nat): (r: u32)
    requires at + 4 <= |data|
  {
    FromLeRange(data[at..at + 4]);
    PowersOf256();
    FromLe(data[at..at + 4])
  }

  function EntryAt(data: seq<byte>, at: nat): Entry
    requires at + 8 <= |data|
  {
    Entry(Word(data, at), Word(data, at + 4))
  }

  function Parsed(data: seq<byte>): Result<Archive, ParseError> {
    if |data| < 8 then Err(Truncated)
    else if FromBe(data[..4]) != MAGIC then Err(NotAnArchive)
    else
      var count := Word(data, 4);
      if 8 + 8 * count > |data| then Err(Truncated)
      else Ok(Archive(data, seq(count, i requires 0 <= i < count => EntryAt(data, 8 + 8 * i))))
  }

  /** AFSArchive::get and get_copy. */
  function GetCopy(ar: Archive, index: nat): Result<seq<byte>, GetError> {
    if index >= |ar.entries| then Err(NoSuchEntry)
    else
      var entry := ar.entries[index];
      if entry.offset > |ar.data| then Err(BeginsBeyondEnd)
      else if entry.offset + entry.size > |ar.data| then Err(ExtendsBeyondEnd)
      else Ok(ar.data[entry.offset..entry.offset + entry.size])
  }

  // ---- the round trip ----

  predicate Holds(data: seq<byte>, at: nat, part: seq<byte>) { at + |part| <= |data| && data[at..at + |part|] == part }

  lemma HoldsSplit(data: seq<byte>, at: nat, a: seq<byte>, b: seq<byte>)
    requires Holds(data, at, a + b)
    ensures Holds(data, at, a) && Holds(data, at + |a|, b)
  {
    assert a == (a + b)[..|a|];
    assert b == (a + b)[|a|..];
  }

  lemma ReadsWord(data: seq<byte>, at: nat, v: u32)
    requires Holds(data, at, Le(v, 4))
    ensures Word(data, at) == v
  {
    PowersOf256();
    LeRoundTrip(v, 4);
  }

  lemma {:induction false} ReadsTable(data: seq<byte>, at: nat, files: Files, offset: u32, i: nat)
    requires i < |files| && Holds(data, at, Table(files, offset))
    ensures at + 8 * i + 8 <= |data|
    ensures EntryAt(data, at + 8 * i) == Entry(Predicted(files, offset, i), Low32(|files[i]|))
    decreases i
  {
    var o, z := Le(offset, 4), Le(Low32(|files[0]|), 4);
    var rest := Table(files[1..], NextOffset(offset, |files[0]|));
    HoldsSplit(data, at, o + z, rest);
    if i == 0 {
      HoldsSplit(data, at, o, z);
      ReadsWord(data, at, offset);
      ReadsWord(data, at + 4, Low32(|files[0]|));
    } else {
      ReadsTable(data, at + 8, files[1..], NextOffset(offset, |files[0]|), i - 1);
    }
  }

  lemma {:induction false} ReadsBodies(data: seq<byte>, at: nat, files: Files, i: nat)
    requires i < |files| && Holds(data, at, Bodies(files, at))
    ensures Holds(data, Position(files, at, i), files[i])
    decreases i
  {
    var end := at + |files[0]|;
    HoldsSplit(data, at, files[0] + Zeros(Up(end) - end), Bodies(files[1..], Up(end)));
    if i == 0 {
      HoldsSplit(data, at, files[0], Zeros(Up(end) - end));
    } else {
      ReadsBodies(data, Up(end), files[1..], i - 1);
    }
  }

  lemma HoldsParts(magic: seq<byte>, count: seq<byte>, table: seq<byte>, size: nat, bodies: seq<byte>)
    ensures var header := ExtendTo(magic + count + table, size);
      && var data := header + bodies;
      && Holds(data, 0, magic) && Holds(data, |magic|, count) && Holds(data, |magic| + |count|, table)
      && Holds(data, |header|, bodies)
  {
    var header := ExtendTo(magic + count + table, size);
    var data := header + bodies;
    assert Holds(data, 0, header + bodies);
    HoldsSplit(data, 0, header, bodies);
    if |magic + count + table| < size {
      HoldsSplit(data, 0, magic + count + table, Zeros(size - |magic + count + table|));
    }
    HoldsSplit(data, 0, magic + count, table);
    HoldsSplit(data, 0, magic, count);
  }

  /** The parts of an archive that the reader looks at. */
  lemma Layout(files: Files)
    ensures var data := Image(files);
      && Holds(data, 0, Be(MAGIC, 4)) && Holds(data, 4, Le(Low32(|files|), 4)) && Holds(data, 8, Table(files, DATA_START))
      && Holds(data, Start(files), Bodies(files, Start(files)))
  {
    HoldsParts(Be(MAGIC, 4), Le(Low32(|files|), 4), Table(files, DATA_START), DATA_START, Bodies(files, Start(files)));
  }

  lemma TableEntry(files: Files, i: nat)
    requires Fits(files) && i < |files|
    ensures 8 + 8 * i + 8 <= |Image(files)| && Position(files, Start(files), i) < WORD
    ensures EntryAt(Image(files), 8 + 8 * i) == Entry(Position(files, Start(files), i), Low32(|files[i]|))
  {
    Layout(files);
    ReadsTable(Image(files), 8, files, DATA_START, i);
    FittingTable(files);
    assert Predicted(files, DATA_START, i) == Position(files, Start(files), i);
  }

  lemma BodyAt(files: Files, i: nat)
    requires i < |files|
    ensures Holds(Image(files), Position(files, Start(files), i), files[i])
  {
    Layout(files);
    ReadsBodies(Image(files), Start(files), files, i);
  }

  lemma HeaderReads(files: Files)
    requires |files| < WORD
    ensures |Image(files)| >= 8 + 8 * |files|
    ensures FromBe(Image(files)[..4]) == MAGIC && Word(Image(files), 4) == |files|
  {
    Layout(files);
    Low32Exact(|files|);
    PowersOf256();
    BeRoundTrip(MAGIC, 4);
    ReadsWord(Image(files), 4, |files|);
  }

  /** Every list of files that the count can hold gives an archive that parses. */
  lemma ImageParses(files: Files)
    requires |files| < WORD
    ensures Parsed(Image(files)).Ok?
    ensures var ar := Parsed(Image(files)).value;
      && ar.data == Image(files) && |ar.entries| == |files|
      && forall i: nat | i < |files| :: 8 + 8 * i + 8 <= |ar.data| && ar.entries[i] == EntryAt(ar.data, 8 + 8 * i)
  {
    HeaderReads(files);
  }

  lemma GetCopyHeld(ar: Archive, i: nat, file: seq<byte>)
    requires i < |ar.entries| && ar.entries[i].size == |file| && Holds(ar.data, ar.entries[i].offset, file)
    ensures GetCopy(ar, i) == Ok(file)
  {
  }

  lemma EntryReads(files: Files, ar: Archive, i: nat)
    requires Fits(files) && i < |files| && |files[i]| < WORD
    requires ar.data == Image(files) && i < |ar.entries|
    requires 8 + 8 * i + 8 <= |ar.data| && ar.entries[i] == EntryAt(ar.data, 8 + 8 * i)
    ensures ar.entries[i].offset == Position(files, Start(files), i) && ar.entries[i].size == |files[i]|
    ensures GetCopy(ar, i) == Ok(files[i])
  {
    TableEntry(files, i);
    BodyAt(files, i);
    Low32Exact(|files[i]|);
    GetCopyHeld(ar, i, files[i]);
  }

  /** The round trip, for files below 4 GB whose table fits: the archive parses, and each file is read back as it was. */
  lemma RoundTrip(files: Files)
    requires Fits(files) && forall i: nat | i < |files| :: |files[i]| < WORD
    ensures Parsed(Image(files)).Ok?
    ensures var ar := Parsed(Image(files)).value;
      && |ar.entries| == |files|
      && forall i: nat | i < |files| ::
           && ar.entries[i].offset == Position(files, Start(files), i) && ar.entries[i].size == |files[i]|
           && GetCopy(ar, i) == Ok(files[i])
  {
    ImageParses(files);
    var ar := Parsed(Image(files)).value;
    forall i: nat | i < |files|
      ensures ar.entries[i].offset == Position(files, Start(files), i) && ar.entries[i].size == |files[i]|
      ensures GetCopy(ar, i) == Ok(files[i])
    {
      EntryReads(files, ar, i);
    }
  }

  /** Every extent starts on a multiple of 0x800 behind the header, and ends before any later one starts. */
  lemma Extents(files: Files, i: nat)
    requires |files| <= MAX_FILES && i < |files|
    ensures DATA_START <= Position(files, Start(files), i) && Position(files, Start(files), i) % 0x800 == 0
    ensures forall j: nat | i < j < |files| ::
      Position(files, Start(files), i) + |files[i]| <= Position(files, Start(files), j)
  {
    StartAt(files);
    PositionsAscend(files, Start(files), i);
    PositionsAligned(files, Start(files), i);
    forall j: nat | i < j < |files|
      ensures Position(files, Start(files), i) + |files[i]| <= Position(files, Start(files), j)
    {
      PositionOrder(files, Start(files), i, j);
    }
  }

  // ---- the loops ----

  /** generate_t<false>. */
  method Generate(files: Files) returns (w: seq<byte>)
    ensures w == Image(files)
  {
    w := Be(MAGIC, 4) + Le(Low32(|files|), 4);
    var dataOffset: u32 := DATA_START;
    ghost var magic := w;
    for i := 0 to |files|
      invariant w + Table(files[i..], dataOffset) == magic + Table(files, DATA_START)
    {
      ghost var rest := Table(files[i + 1..], NextOffset(dataOffset, |files[i]|));
      assert files[i..][1..] == files[i + 1..];
      Associative(w, Le(dataOffset, 4) + Le(Low32(|files[i]|), 4), rest);
      Associative(w, Le(dataOffset, 4), Le(Low32(|files[i]|), 4));
      w := w + Le(dataOffset, 4);
      w := w + Le(Low32(|files[i]|), 4);
      dataOffset := NextOffset(dataOffset, |files[i]|);
    }
    assert files[|files|..] == [];
    w := ExtendTo(w, DATA_START);
    assert w == Header(files);
    w := WriteBodies(files, w);
  }

  method WriteBodies(files: Files, header: seq<byte>) returns (w: seq<byte>)
    ensures w == header + Bodies(files, |header|)
  {
    w := header;
    for i := 0 to |files|
      invariant w + Bodies(files[i..], |w|) == header + Bodies(files, |header|)
    {
      ghost var end := |w| + |files[i]|;
      assert files[i..][1..] == files[i + 1..];
      Associative(w, files[i] + Zeros(Up(end) - end), Bodies(files[i + 1..], Up(end)));
      Associative(w, files[i], Zeros(Up(end) - end));
      w := w + files[i];
      w := ExtendTo(w, Up(|w|));
    }
    assert files[|files|..] == [];
  }

  /** The constructor of AFSArchive. */
  method Parse(data: seq<byte>) returns (r: Result<Archive, ParseError>)
    ensures r == Parsed(data)
  {
    if |data| < 8 {
      return Err(Truncated);
    }
    if FromBe(data[..4]) != MAGIC {
      return Err(NotAnArchive);
    }
    var count := Word(data, 4);
    var entries: seq<Entry> := [];
    var at := 8;
    while |entries| < count
      invariant |entries| <= count && at == 8 + 8 * |entries| <= |data|
      invariant forall i | 0 <= i < |entries| :: entries[i] == EntryAt(data, 8 + 8 * i)
    {
      if at + 8 > |data| {
        return Err(Truncated);
      }
      entries := entries + [EntryAt(data, at)];
      at := at + 8;
    }
    assert entries == seq(count, i requires 0 <= i < count => EntryAt(data, 8 + 8 * i));
    return Ok(Archive(data, entries));
  }
}
