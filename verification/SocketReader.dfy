/**
 AsyncSocketReader: lines and counted reads over a socket that delivers its bytes in arbitrary chunks. The specification
 speaks of one unsplit stream, the bytes already pending followed by everything the socket has yet to deliver.
 */
module SocketReaders {
  import opened Bytes

  // ---- searching ----

  predicate Occurs(s: seq<byte>, d: seq<byte>, i: nat) {
    i + |d| <= |s| && s[i..i + |d|] == d
  }

  /** string::find from a position. */
  function Find(s: seq<byte>, d: seq<byte>, from: nat): (r: Option<nat>)
    requires d != []
    ensures match r
      case Some(i) => from <= i && Occurs(s, d, i) && forall k: nat | from <= k < i :: !Occurs(s, d, k)
      case None => forall k: nat | from <= k :: !Occurs(s, d, k)
    decreases |s| - from
  {
    if from + |d| > |s| then None
    else if s[from..from + |d|] == d then Some(from)
    else Find(s, d, from + 1)
  }

  /** Occurrences inside a prefix are those of the prefix alone. */
  lemma OccursInPrefix(s: seq<byte>, t: seq<byte>, d: seq<byte>, i: nat)
    requires i + |d| <= |s|
    ensures Occurs(s + t, d, i) <==> Occurs(s, d, i)
  {
    assert (s + t)[i..i + |d|] == s[i..i + |d|];
  }

  /** Where the search resumes after more bytes have arrived: far enough back for a delimiter split by the boundary. */
  function ResumeAt(pre: nat, delimiter: nat): nat
    requires delimiter > 0
  {
    if delimiter - 1 > pre then 0 else pre - (delimiter - 1)
  }

  /** Resuming there finds the same first occurrence as searching again from the start. */
  lemma BackedUpSearch(s: seq<byte>, more: seq<byte>, d: seq<byte>)
    requires d != [] && Find(s, d, 0) == None
    ensures Find(s + more, d, ResumeAt(|s|, |d|)) == Find(s + more, d, 0)
  {
    var z, a := Find(s + more, d, 0), Find(s + more, d, ResumeAt(|s|, |d|));
    if z.Some? {
      if z.value + |d| <= |s| {
        OccursInPrefix(s, more, d, z.value);
      }
      assert a.Some? && a.value == z.value;
    }
  }

  /** A first occurrence in a prefix is the first occurrence in the whole. */
  lemma FoundInPrefix(s: seq<byte>, more: seq<byte>, d: seq<byte>)
    requires d != []
    ensures Find(s, d, 0).Some? ==> Find(s + more, d, 0) == Find(s, d, 0)
    ensures Find(s, d, 0) == None && Find(s + more, d, 0).Some? ==> Find(s + more, d, 0).value + |d| > |s|
  {
    var first, whole := Find(s, d, 0), Find(s + more, d, 0);
    if first.Some? {
      OccursInPrefix(s, more, d, first.value);
      assert whole.Some? && whole.value <= first.value;
      OccursInPrefix(s, more, d, whole.value);
      assert whole.value >= first.value;
    } else if whole.Some? && whole.value + |d| <= |s| {
      OccursInPrefix(s, more, d, whole.value);
    }
  }

  // ---- reads on an unsplit stream ----

  /** `NoRoom`: the call asked the socket for no bytes, or for a negative number; the source does not come back from this. */
  datatype ReadError = EmptyDelimiter | EndOfStream | LineTooLong | NoRoom

  /** A call of read_line, read_data or read_data_into. */
  datatype Read = Line(delimiter: seq<byte>, maxLength: nat) | Data(size: nat) | Into(size: nat)

  datatype Got = Got(bytes: seq<byte>, rest: seq<byte>)

  function Taken(s: seq<byte>, n: nat): Option<Got> {
    if n <= |s| then Some(Got(s[..n], s[n..])) else None
  }

  /** What a read returns when that does not depend on how the stream was cut into chunks. */
  function Expect(s: seq<byte>, r: Read): Option<Got> {
    match r
    case Data(n) => Taken(s, n)
    case Into(n) => Taken(s, n)
    case Line(d, maxLength) =>
      if d == [] then None
      else match Find(s, d, 0)
        case Some(i) => if i + |d| <= maxLength then Some(Got(s[..i], s[i + |d|..])) else None
        case None => None
  }

  function ExpectAll(s: seq<byte>, rs: seq<Read>): Option<(seq<seq<byte>>, seq<byte>)> {
    if rs == [] then Some(([], s))
    else match Expect(s, rs[0])
      case None => None
      case Some(g) =>
        match ExpectAll(g.rest, rs[1..])
        case None => None
        case Some((lines, rest)) => Some(([g.bytes] + lines, rest))
  }

  /** The stretch of stream that a read used up: what it returned and, for a line, the delimiter. */
  function Used(bytes: seq<byte>, r: Read): seq<byte> {
    bytes + if r.Line? then r.delimiter else []
  }

  function UsedAll(got: seq<seq<byte>>, rs: seq<Read>): seq<byte>
    requires |got| == |rs|
  {
    if rs == [] then [] else Used(got[0], rs[0]) + UsedAll(got[1..], rs[1..])
  }

  /** A returned line is delimited and holds no earlier delimiter. */
  lemma LineExact(s: seq<byte>, d: seq<byte>, maxLength: nat)
    requires Expect(s, Line(d, maxLength)).Some?
    ensures var g := Expect(s, Line(d, maxLength)).value;
      && s == g.bytes + d + g.rest
      && Find(g.bytes + d, d, 0) == Some(|g.bytes|)
  {
    var i := Find(s, d, 0).value;
    assert s == s[..i] + d + s[i + |d|..];
    var head, tail := s[..i] + d, s[i + |d|..];
    FoundInPrefix(head, tail, d);
    OccursInPrefix(head, tail, d, i);
    assert head + tail == s;
  }

  /** Over any mix of reads, nothing is lost, repeated or reordered. */
  lemma {:induction false} ReadsConserve(s: seq<byte>, rs: seq<Read>)
    requires ExpectAll(s, rs).Some?
    ensures var (got, rest) := ExpectAll(s, rs).value;
      |got| == |rs| && s == UsedAll(got, rs) + rest
    decreases |rs|
  {
    if rs != [] {
      var g := Expect(s, rs[0]).value;
      ReadsConserve(g.rest, rs[1..]);
      if rs[0].Line? {
        LineExact(s, rs[0].delimiter, rs[0].maxLength);
      }
      var (got, rest) := ExpectAll(s, rs).value;
      assert got[1..] == ExpectAll(g.rest, rs[1..]).value.0;
      assert s == Used(g.bytes, rs[0]) + g.rest;
    }
  }

  // ---- every run of reads ----

  /** A call that comes back: with bytes, or with a refusal that leaves everything where it was. */
  datatype Outcome = Took(bytes: seq<byte>) | Refused(error: ReadError)

  /** The outcomes that a call may have on a stream; which one can depend on what is pending only for an overlong line. */
  predicate Served(s: seq<byte>, r: Read, o: Outcome) {
    match o
    case Took(bytes) =>
      && Used(bytes, r) <= s
      && (match r
          case Line(d, _) => d != [] && Find(s, d, 0) == Some(|bytes|)
          case Data(n) => |bytes| == n
          case Into(n) => |bytes| == n)
    case Refused(e) =>
      && r.Line?
      && (if r.delimiter == [] then e == EmptyDelimiter
          else
            && e == LineTooLong && 0 < r.maxLength <= |s|
            && (Find(s, r.delimiter, 0) == None || Find(s, r.delimiter, 0).value + |r.delimiter| > r.maxLength))
  }

  /** Why a call fails for good. */
  predicate Stops(s: seq<byte>, r: Read, e: ReadError) {
    match r
    case Line(d, maxLength) =>
      d != [] && if maxLength == 0 then e == NoRoom else e == EndOfStream && Find(s, d, 0) == None && |s| < maxLength
    case Data(n) => e == EndOfStream && |s| < n
    case Into(n) => e == EndOfStream && |s| < n
  }

  function Consumed(r: Read, o: Outcome): seq<byte> { if o.Took? then Used(o.bytes, r) else [] }

  function ConsumedAll(rs: seq<Read>, os: seq<Outcome>): seq<byte>
    requires |os| <= |rs|
  {
    if os == [] then [] else Consumed(rs[0], os[0]) + ConsumedAll(rs[1..], os[1..])
  }

  /** What is left of the stream. */
  function Left(s: seq<byte>, r: Read, o: Outcome): seq<byte>
    requires Served(s, r, o)
  {
    s[|Consumed(r, o)|..]
  }

  predicate ServedAll(s: seq<byte>, rs: seq<Read>, os: seq<Outcome>)
    requires |os| <= |rs|
  {
    os == [] || (Served(s, rs[0], os[0]) && ServedAll(Left(s, rs[0], os[0]), rs[1..], os[1..]))
  }

  function LeftAll(s: seq<byte>, rs: seq<Read>, os: seq<Outcome>): seq<byte>
    requires |os| <= |rs| && ServedAll(s, rs, os)
  {
    if os == [] then s else LeftAll(Left(s, rs[0], os[0]), rs[1..], os[1..])
  }

  lemma CutPrefix(s: seq<byte>, a: seq<byte>)
    requires a <= s
    ensures s == a + s[|a|..]
  {
  }

  /** Over any run, refusals included, nothing is lost, repeated or reordered. */
  lemma {:induction false} RunConserves(s: seq<byte>, rs: seq<Read>, os: seq<Outcome>)
    requires |os| <= |rs| && ServedAll(s, rs, os)
    ensures s == ConsumedAll(rs, os) + LeftAll(s, rs, os)
    decreases |os|
  {
    if os != [] {
      var first, left := Consumed(rs[0], os[0]), Left(s, rs[0], os[0]);
      var later, end := ConsumedAll(rs[1..], os[1..]), LeftAll(left, rs[1..], os[1..]);
      RunConserves(left, rs[1..], os[1..]);
      CutPrefix(s, first);
      Associative(first, later, end);
    }
  }

  /** A line that ends within its limit, and data that are there, are returned exactly, whatever is pending. */
  lemma ServedAsExpected(s: seq<byte>, r: Read, o: Outcome)
    requires Served(s, r, o) && Expect(s, r).Some?
    ensures o == Took(Expect(s, r).value.bytes) && Left(s, r, o) == Expect(s, r).value.rest
  {
    var g := Expect(s, r).value;
    assert o.Took?;
    assert o.bytes == s[..|o.bytes|];
    assert o.bytes == g.bytes;
  }

  /** Such a call is not one that fails for good. */
  lemma ExpectedGoesOn(s: seq<byte>, r: Read, e: ReadError)
    requires Expect(s, r).Some?
    ensures !Stops(s, r, e)
  {
  }

  // ---- the class ----

  lemma CutLine(s: seq<byte>, t: seq<byte>, i: nat, j: nat)
    requires i <= j <= |s|
    ensures (s + t)[..i] == s[..i] && (s + t)[j..] == s[j..] + t
  {
  }

  function Min(a: nat, b: nat): nat { if a <= b then a else b }

  function Max(a: nat, b: nat): nat { if a >= b then a else b }

  /** How the search for a line ends: with a place or without one in a full buffer, or with a failure. */
  datatype Search = Finds(at: Option<nat>) | AtEnd | Stuck

  /** The loop of read_line reads on while no delimiter has been found; a limit of 0 is documented as none. */
  predicate Continues(pending: nat, maxLength: nat) { maxLength == 0 || pending < maxLength }

  /** How many bytes it then asks for. */
  function Request(pending: nat, maxLength: nat): int { Min(maxLength, pending + 0x400) - pending }

  /** It asks for some bytes exactly if the limit is not 0. */
  lemma RequestUsable(pending: nat, maxLength: nat)
    requires Continues(pending, maxLength)
    ensures Request(pending, maxLength) > 0 <==> maxLength > 0
  {
  }

  class AsyncSocketReader {
    var pending: seq<byte>
    var chunks: seq<seq<byte>>     // what the socket will deliver, cut as it will arrive

    ghost predicate Valid()
      reads this
    {
      forall i | 0 <= i < |chunks| :: chunks[i] != []
    }

    ghost function Stream(): seq<byte>
      reads this
    {
      pending + Flatten(chunks)
    }

    constructor (chunks: seq<seq<byte>>)
      requires forall i | 0 <= i < |chunks| :: chunks[i] != []
      ensures Valid() && Stream() == Flatten(chunks) && pending == []
    {
      this.pending, this.chunks := [], chunks;
    }

    /** async_read_some into a buffer of n bytes; None at the end of the stream. */
    method ReadSome(n: nat) returns (got: Option<seq<byte>>)
      requires Valid() && n > 0
      modifies this`chunks
      ensures Valid()
      ensures old(chunks) == [] ==> got == None && chunks == []
      ensures old(chunks) != [] ==> got.Some? && 0 < |got.value| <= n
                                    && Flatten(old(chunks)) == got.value + Flatten(chunks)
    {
      if chunks == [] {
        return None;
      }
      var front, tail := chunks[0], chunks[1..];
      if |front| <= n {
        chunks := tail;
        return Some(front);
      }
      chunks := [front[n..]] + tail;
      assert chunks[1..] == tail;
      assert front[..n] + (front[n..] + Flatten(tail)) == front + Flatten(tail);
      return Some(front[..n]);
    }

    /** async_read: reads until n bytes have arrived. */
    method ReadExactly(n: nat) returns (got: seq<byte>, complete: bool)
      requires Valid()
      modifies this`chunks
      ensures Valid() && |got| <= n && Flatten(old(chunks)) == got + Flatten(chunks)
      ensures complete <==> |Flatten(old(chunks))| >= n
      ensures if complete then |got| == n else chunks == []
    {
      got, complete := [], true;
      ghost var all := Flatten(chunks);
      while |got| < n
        invariant Valid() && |got| <= n && all == got + Flatten(chunks)
        decreases n - |got|
      {
        var more := ReadSome(n - |got|);
        if more == None {
          return got, false;
        }
        assert got + (more.value + Flatten(chunks)) == got + more.value + Flatten(chunks);
        got := got + more.value;
      }
    }

    /**
     A line whose delimiter ends within the limit, or within what was pending already, is returned and used up. Otherwise
     the read fails: with nothing lost if the line is too long; at the end of the stream with everything left in
     `pending`, followed by the zeros of the buffer that was being filled; and with a limit of 0 by losing what was pending.
     */
    method ReadLine(delimiter: seq<byte>, maxLength: nat) returns (r: Result<seq<byte>, ReadError>)
      requires Valid()
      modifies this
      ensures Valid()
      ensures delimiter == [] ==> r == Err(EmptyDelimiter) && Stream() == old(Stream())
      ensures delimiter != [] && maxLength == 0 && Find(old(pending), delimiter, 0) == None ==>
        r == Err(NoRoom) && pending == [] && chunks == old(chunks)
      ensures delimiter != [] && (maxLength > 0 || Find(old(pending), delimiter, 0).Some?) ==>
        var s := old(Stream());
        var limit := Max(maxLength, |old(pending)|);
        var first := Find(s, delimiter, 0);
        if first.Some? && first.value + |delimiter| <= limit then
          r == Ok(s[..first.value]) && Stream() == s[first.value + |delimiter|..]
        else if |s| >= maxLength then
          r == Err(LineTooLong) && Stream() == s
        else
          r == Err(EndOfStream) && chunks == [] && pending == s + Zeros(Min(maxLength - |s|, 0x400))
    {
      if delimiter == [] {
        return Err(EmptyDelimiter);
      }
      ghost var s := Stream();
      var found := SearchLine(delimiter, maxLength);
      match found {
        case AtEnd =>
          return Err(EndOfStream);
        case Stuck =>
          return Err(NoRoom);
        case Finds(at) =>
          FoundInPrefix(pending, Flatten(chunks), delimiter);
          if at == None {
            return Err(LineTooLong);
          }
          var line := pending[..at.value];
          CutLine(pending, Flatten(chunks), at.value, at.value + |delimiter|);
          pending := pending[at.value + |delimiter|..];
          return Ok(line);
      }
    }

    /** The loop of read_line. */
    method SearchLine(delimiter: seq<byte>, maxLength: nat) returns (found: Search)
      requires Valid() && delimiter != []
      modifies this
      ensures Valid()
      ensures found == Stuck <==> maxLength == 0 && Find(old(pending), delimiter, 0) == None
      ensures match found
        case Finds(at) =>
          && Stream() == old(Stream()) && at == Find(pending, delimiter, 0)
          && (at.Some? ==> at.value + |delimiter| <= Max(maxLength, |old(pending)|))
          && (at == None ==> |pending| == Max(maxLength, |old(pending)|))
        case Stuck => pending == [] && chunks == old(chunks)
        case AtEnd =>
          var s := old(Stream());
          Find(s, delimiter, 0) == None && |s| < maxLength && chunks == []
          && pending == s + Zeros(Min(maxLength - |s|, 0x400))
    {
      ghost var s := Stream();
      var at := Find(pending, delimiter, 0);
      while at == None && Continues(|pending|, maxLength)
        invariant Valid() && Stream() == s
        invariant at == Find(pending, delimiter, 0)
        invariant maxLength == 0 ==> pending == old(pending) && chunks == old(chunks)
        invariant |old(pending)| <= |pending| <= Max(maxLength, |old(pending)|)
        decreases |Flatten(chunks)|
      {
        var pre := pending;
        var wanted := Request(|pre|, maxLength);
        RequestUsable(|pre|, maxLength);
        if wanted <= 0 {
          pending := pre[..maxLength];
          return Stuck;
        }
        var ended := Extend(wanted);
        if ended {
          return AtEnd;
        }
        at := Find(pending, delimiter, ResumeAt(|pre|, |delimiter|));
        BackedUpSearch(pre, pending[|pre|..], delimiter);
        assert pending == pre + pending[|pre|..];
      }
      return Finds(at);
    }

    /** One pass of the loop: the buffer is grown by n bytes, filled as far as the socket goes, and cut back. */
    method Extend(n: nat) returns (ended: bool)
      requires Valid() && n > 0
      modifies this
      ensures Valid()
      ensures ended ==> chunks == [] && old(Stream()) == old(pending) && pending == old(pending) + Zeros(n)
      ensures !ended ==> Stream() == old(Stream()) && old(pending) <= pending && 0 < |pending| - |old(pending)| <= n
    {
      var pre := pending;
      pending := pre + Zeros(n);
      var more := ReadSome(n);
      if more == None {
        assert pre + Flatten([]) == pre;
        return true;
      }
      pending := pre + more.value;
      assert pre + (more.value + Flatten(chunks)) == pending + Flatten(chunks);
      return false;
    }

    /** At the end of the stream what was pending is gone with the rest. */
    method ReadData(size: nat) returns (r: Result<seq<byte>, ReadError>)
      requires Valid()
      modifies this
      ensures Valid()
      ensures match Expect(old(Stream()), Data(size))
        case Some(g) => r == Ok(g.bytes) && Stream() == g.rest
        case None => r == Err(EndOfStream) && Stream() == []
    {
      ghost var s := Stream();
      if |pending| == size {
        var data := pending;
        pending := [];
        assert s[..size] == data && s[size..] == Flatten(chunks);
        return Ok(data);
      } else if |pending| > size {
        var data := pending[..size];
        assert s[..size] == data && s[size..] == pending[size..] + Flatten(chunks);
        pending := pending[size..];
        return Ok(data);
      }
      var data := pending;
      pending := [];
      var more, complete := ReadExactly(size - |data|);
      if !complete {
        return Err(EndOfStream);
      }
      assert s == data + (more + Flatten(chunks));
      assert s[..size] == data + more && s[size..] == Flatten(chunks);
      return Ok(data + more);
    }

    /** The same, into the caller's buffer. */
    method ReadDataInto(buffer: array<byte>, size: nat) returns (r: Result<(), ReadError>)
      requires Valid() && size <= buffer.Length
      modifies this, buffer
      ensures Valid()
      ensures buffer[size..] == old(buffer[size..])
      ensures match Expect(old(Stream()), Data(size))
        case Some(g) => r.Ok? && buffer[..size] == g.bytes && Stream() == g.rest
        case None => r == Err(EndOfStream) && Stream() == []
    {
      ghost var s := Stream();
      var here := Min(size, |pending|);
      forall i | 0 <= i < here {
        buffer[i] := pending[i];
      }
      if |pending| >= size {
        assert buffer[..size] == s[..size] && s[size..] == pending[size..] + Flatten(chunks);
        pending := pending[size..];
        return Ok(());
      }
      ghost var first := pending;
      pending := [];
      var more, complete := ReadExactly(size - here);
      forall i | 0 <= i < |more| {
        buffer[here + i] := more[i];
      }
      if !complete {
        return Err(EndOfStream);
      }
      assert s == first + (more + Flatten(chunks));
      assert buffer[..size] == first + more;
      assert s[..size] == first + more && s[size..] == Flatten(chunks);
      return Ok(());
    }
  }

  predicate Accommodates(length: nat, rs: seq<Read>) { forall r | r in rs :: r.Into? ==> r.size <= length }

  /** One call; the outcome is that of the unsplit stream, up to a line that was pending already. */
  method Serve(reader: AsyncSocketReader, read: Read, buffer: array<byte>) returns (r: Result<Outcome, ReadError>)
    requires reader.Valid() && (read.Into? ==> read.size <= buffer.Length)
    modifies reader, buffer
    ensures reader.Valid()
    ensures match r
      case Ok(o) => Served(old(reader.Stream()), read, o) && reader.Stream() == Left(old(reader.Stream()), read, o)
      case Err(e) => Stops(old(reader.Stream()), read, e)
  {
    match read {
      case Data(size) =>
        var data := reader.ReadData(size);
        return if data.Ok? then Ok(Took(data.value)) else Err(data.error);
      case Into(size) =>
        var done := reader.ReadDataInto(buffer, size);
        return if done.Ok? then Ok(Took(buffer[..size])) else Err(done.error);
      case Line(delimiter, maxLength) =>
        r := ServeLine(reader, delimiter, maxLength);
    }
  }

  lemma LinePrefix(s: seq<byte>, d: seq<byte>, i: nat)
    requires Occurs(s, d, i)
    ensures s[..i] + d <= s && s[..i] + d == s[..i + |d|]
  {
    assert s[..i + |d|] == s[..i] + s[i..i + |d|];
  }

  method ServeLine(reader: AsyncSocketReader, delimiter: seq<byte>, maxLength: nat)
    returns (r: Result<Outcome, ReadError>)
    requires reader.Valid()
    modifies reader
    ensures reader.Valid()
    ensures match r
      case Ok(o) =>
        Served(old(reader.Stream()), Line(delimiter, maxLength), o)
        && reader.Stream() == Left(old(reader.Stream()), Line(delimiter, maxLength), o)
      case Err(e) => Stops(old(reader.Stream()), Line(delimiter, maxLength), e)
  {
    ghost var s := reader.Stream();
    if delimiter != [] {
      FoundInPrefix(reader.pending, Flatten(reader.chunks), delimiter);
    }
    var line := reader.ReadLine(delimiter, maxLength);
    if line.Ok? {
      LinePrefix(s, delimiter, |line.value|);
      return Ok(Took(line.value));
    }
    return if line.error.EndOfStream? || line.error.NoRoom? then Err(line.error) else Ok(Refused(line.error));
  }

  /**
   Any run of calls, refused ones included, up to the first that fails for good: what was returned, the delimiters and what
   the reader still holds or will be sent make up the stream, for every chunking.
   */
  method ServeAll(reader: AsyncSocketReader, rs: seq<Read>, buffer: array<byte>)
    returns (os: seq<Outcome>, stop: Option<ReadError>)
    requires reader.Valid() && Accommodates(buffer.Length, rs)
    modifies reader, buffer
    ensures reader.Valid()
    ensures |os| <= |rs| && ServedAll(old(reader.Stream()), rs, os)
    ensures match stop
      case None => |os| == |rs| && reader.Stream() == LeftAll(old(reader.Stream()), rs, os)
                   && old(reader.Stream()) == ConsumedAll(rs, os) + reader.Stream()
      case Some(e) => |os| < |rs| && Stops(LeftAll(old(reader.Stream()), rs, os), rs[|os|], e)
    decreases |rs|
  {
    if rs == [] {
      return [], None;
    }
    ghost var s := reader.Stream();
    var first := Serve(reader, rs[0], buffer);
    if first.Err? {
      return [], Some(first.error);
    }
    ghost var left := reader.Stream();
    var others, end := ServeAll(reader, rs[1..], buffer);
    os, stop := [first.value] + others, end;
    assert os[1..] == others;
    RunConserves(s, rs, os);
  }

  function BytesOf(os: seq<Outcome>): seq<seq<byte>> {
    if os == [] then [] else [if os[0].Took? then os[0].bytes else []] + BytesOf(os[1..])
  }

  /** Calls whose outcome is fixed by the stream have that outcome. */
  lemma {:induction false} ServedAllAsExpected(s: seq<byte>, rs: seq<Read>, os: seq<Outcome>)
    requires ExpectAll(s, rs).Some? && |os| == |rs| && ServedAll(s, rs, os)
    ensures ExpectAll(s, rs) == Some((BytesOf(os), LeftAll(s, rs, os)))
    decreases |os|
  {
    if rs != [] {
      ServedAsExpected(s, rs[0], os[0]);
      var left := Left(s, rs[0], os[0]);
      ServedAllAsExpected(left, rs[1..], os[1..]);
    }
  }

  /** Each call of the run has an outcome fixed by the stream that it finds. */
  predicate Fixed(s: seq<byte>, rs: seq<Read>)
    decreases |rs|
  {
    rs == [] || (Expect(s, rs[0]).Some? && Fixed(Expect(s, rs[0]).value.rest, rs[1..]))
  }

  lemma {:induction false} ExpectedIsFixed(s: seq<byte>, rs: seq<Read>)
    requires ExpectAll(s, rs).Some?
    ensures Fixed(s, rs)
    decreases |rs|
  {
    if rs != [] {
      ExpectedIsFixed(Expect(s, rs[0]).value.rest, rs[1..]);
    }
  }

  /** After any part of such a run the next call is one of them too, and so does not fail for good. */
  lemma {:induction false} FixedNext(s: seq<byte>, rs: seq<Read>, os: seq<Outcome>)
    requires Fixed(s, rs) && |os| < |rs| && ServedAll(s, rs, os)
    ensures Expect(LeftAll(s, rs, os), rs[|os|]).Some?
    decreases |os|
  {
    if os != [] {
      var left, rest := Left(s, rs[0], os[0]), rs[1..];
      ServedAsExpected(s, rs[0], os[0]);
      FixedNext(left, rest, os[1..]);
      assert rest[|os[1..]|] == rs[|os|];
      assert LeftAll(left, rest, os[1..]) == LeftAll(s, rs, os);
    }
  }

  /** Any mix of calls whose outcome is fixed by the stream has that outcome, however the stream was cut into chunks. */
  method PerformAll(reader: AsyncSocketReader, rs: seq<Read>, buffer: array<byte>) returns (got: seq<seq<byte>>)
    requires reader.Valid() && Accommodates(buffer.Length, rs) && ExpectAll(reader.Stream(), rs).Some?
    modifies reader, buffer
    ensures reader.Valid()
    ensures ExpectAll(old(reader.Stream()), rs) == Some((got, reader.Stream()))
  {
    ghost var s := reader.Stream();
    var os, stop := ServeAll(reader, rs, buffer);
    if stop.Some? {
      ExpectedIsFixed(s, rs);
      FixedNext(s, rs, os);
      ExpectedGoesOn(LeftAll(s, rs, os), rs[|os|], stop.value);
      assert false;
    }
    ServedAllAsExpected(s, rs, os);
    got := BytesOf(os);
  }
}
