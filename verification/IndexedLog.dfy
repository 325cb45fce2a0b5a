/**
 PRSCompressor's WrappedLog and IndexedLog: a ring of bytes addressed by ever-growing offsets, with, for every byte value,
 a deque of the live offsets that hold it.
 */
module IndexedLogs {
  import opened Bytes

  /** The offsets of v in a log whose first byte has offset `start`, in increasing order. */
  function Positions(s: seq<byte>, start: nat, v: byte): seq<nat> {
    if s == [] then []
    else
      var last := |s| - 1;
      Positions(s[..last], start, v) + if s[last] == v then [start + last] else []
  }

  /** Positions lists exactly the offsets holding v, each once and in increasing order. */
  lemma PositionsExact(s: seq<byte>, start: nat, v: byte)
    ensures var p := Positions(s, start, v);
      && (forall k: nat :: k in p <==> start <= k < start + |s| && s[k - start] == v)
      && (forall i, j | 0 <= i < j < |p| :: p[i] < p[j])
  {
    PositionsIncrease(s, start, v);
    forall k: nat ensures k in Positions(s, start, v) <==> start <= k < start + |s| && s[k - start] == v {
      PositionsMember(s, start, v, k);
    }
  }

  lemma {:induction false} PositionsMember(s: seq<byte>, start: nat, v: byte, k: nat)
    ensures k in Positions(s, start, v) <==> start <= k < start + |s| && s[k - start] == v
    decreases |s|
  {
    if s != [] {
      PositionsMember(s[..|s| - 1], start, v, k);
    }
  }

  lemma {:induction false} PositionsIncrease(s: seq<byte>, start: nat, v: byte)
    ensures var p := Positions(s, start, v);
      forall i, j | 0 <= i < j < |p| :: p[i] < p[j]
    decreases |s|
  {
    if s != [] {
      var last := |s| - 1;
      var p, q := Positions(s, start, v), Positions(s[..last], start, v);
      PositionsIncrease(s[..last], start, v);
      forall i, j | 0 <= i < j < |p| ensures p[i] < p[j] {
        assert p[i] == q[i] && q[i] in q;
        PositionsMember(s[..last], start, v, q[i]);
        if j < |q| {
          assert p[j] == q[j];
        }
      }
    }
  }

  /** The first byte's offset is at the front of its deque and of no other. */
  lemma {:induction false} PositionsOfTail(s: seq<byte>, start: nat, v: byte)
    requires s != []
    ensures Positions(s, start, v) == (if s[0] == v then [start] else []) + Positions(s[1..], start + 1, v)
    decreases |s|
  {
    var last := |s| - 1;
    if last == 0 {
      assert s[..0] == [] && s[1..] == [];
    } else {
      PositionsOfTail(s[..last], start, v);
      var tail := s[1..];
      assert s[..last][1..] == tail[..last - 1] && tail[last - 1] == s[last];
      var added := if s[last] == v then [start + last] else [];
      assert Positions(s, start, v) == Positions(s[..last], start, v) + added;
      assert Positions(tail, start + 1, v) == Positions(tail[..last - 1], start + 1, v) + added;
    }
  }

  /** The window after one more byte. */
  function Pushed(size: nat, s: seq<byte>, v: byte): seq<byte>
    requires size > 0
  {
    (if |s| == size then s[1..] else s) + [v]
  }

  function PushedAll(size: nat, t: seq<byte>): seq<byte>
    requires size > 0
  {
    if t == [] then [] else Pushed(size, PushedAll(size, t[..|t| - 1]), t[|t| - 1])
  }

  /** After any number of pushes the log holds the most recent bytes, as many as fit. */
  lemma {:induction false} HoldsMostRecent(size: nat, t: seq<byte>)
    requires size > 0
    ensures PushedAll(size, t) == if |t| <= size then t else t[|t| - size..]
    decreases |t|
  {
    if t != [] {
      var init, v := t[..|t| - 1], t[|t| - 1];
      HoldsMostRecent(size, init);
      assert t == init + [v];
      if |init| >= size {
        var w := init[|init| - size..];
        assert PushedAll(size, init) == w && PushedAll(size, t) == w[1..] + [v];
        assert t[|t| - size..] == w[1..] + [v];
      }
    }
  }

  // ---- runs of all three operations ----

  datatype Op = PushesBack(v: byte) | PopsBack | PopsFront

  /** The window after one operation; a pop from an empty log changes nothing. */
  function NextWindow(size: nat, w: seq<byte>, op: Op): seq<byte>
    requires size > 0
  {
    match op
    case PushesBack(v) => Pushed(size, w, v)
    case PopsBack => if w == [] then [] else w[..|w| - 1]
    case PopsFront => if w == [] then [] else w[1..]
  }

  /** Everything pushed and not taken back, however long ago. */
  function NextHistory(w: seq<byte>, h: seq<byte>, op: Op): seq<byte> {
    match op
    case PushesBack(v) => h + [v]
    case PopsBack => if w == [] || h == [] then h else h[..|h| - 1]
    case PopsFront => h
  }

  /** Window and history after a run. */
  function After(size: nat, ops: seq<Op>): (seq<byte>, seq<byte>)
    requires size > 0
  {
    if ops == [] then ([], [])
    else
      var (w, h) := After(size, ops[..|ops| - 1]);
      (NextWindow(size, w, ops[|ops| - 1]), NextHistory(w, h, ops[|ops| - 1]))
  }

  predicate Suffix(w: seq<byte>, h: seq<byte>) { |w| <= |h| && w == h[|h| - |w|..] }

  lemma SuffixKept(size: nat, w: seq<byte>, h: seq<byte>, op: Op)
    requires size > 0 && |w| <= size && Suffix(w, h)
    ensures |NextWindow(size, w, op)| <= size && Suffix(NextWindow(size, w, op), NextHistory(w, h, op))
  {
  }

  /** The log is always a suffix of the history, and fits. */
  lemma {:induction false} WindowOfHistory(size: nat, ops: seq<Op>)
    requires size > 0
    ensures |After(size, ops).0| <= size && Suffix(After(size, ops).0, After(size, ops).1)
    decreases |ops|
  {
    if ops != [] {
      WindowOfHistory(size, ops[..|ops| - 1]);
      var (w, h) := After(size, ops[..|ops| - 1]);
      SuffixKept(size, w, h, ops[|ops| - 1]);
    }
  }

  /** Offsets are places in the history: these positions are the live places that hold v. */
  ghost predicate LivePlaces(w: seq<byte>, h: seq<byte>, v: byte)
    requires Suffix(w, h)
  {
    forall k: nat :: k in Positions(w, |h| - |w|, v) <==> |h| - |w| <= k < |h| && h[k] == v
  }

  lemma PositionsInHistory(w: seq<byte>, h: seq<byte>, v: byte)
    requires Suffix(w, h)
    ensures LivePlaces(w, h, v)
  {
    PositionsExact(w, |h| - |w|, v);
  }

  /** After a run, find gives the places in the history, among the live ones, that hold a byte. */
  lemma FindAfterRun(size: nat, ops: seq<Op>, v: byte)
    requires size > 0
    ensures Suffix(After(size, ops).0, After(size, ops).1) && LivePlaces(After(size, ops).0, After(size, ops).1, v)
  {
    WindowOfHistory(size, ops);
    PositionsInHistory(After(size, ops).0, After(size, ops).1, v);
  }

  /** Where WrappedLog keeps the byte at an offset. */
  function Slot(at: nat, size: nat): (slot: nat)
    requires size > 0
    ensures slot < size
  {
    at % size
  }

  class IndexedLog {
    const size: nat                   // the template parameter Size
    const data: array<byte>
    const index: array<seq<nat>>      // one deque per byte value
    var offset: nat
    var count: nat
    ghost var contents: seq<byte>

    ghost predicate Valid()
      reads this, data, index
    {
      && 0 < size == data.Length && index.Length == 256
      && count == |contents| <= size
      && (forall i | 0 <= i < count :: data[Slot(offset + i, size)] == contents[i])
      && (forall v: byte :: index[v] == Positions(contents, offset, v))
    }

    constructor (size: nat)
      requires size > 0
      ensures Valid() && contents == [] && offset == 0 && this.size == size
      ensures fresh(data) && fresh(index)
    {
      this.size, offset, count, contents := size, 0, 0, [];
      data := new byte[size](_ => 0);
      index := new seq<nat>[256](_ => []);
    }

    function EndOffset(): nat
      reads this
    {
      offset + count
    }

    /** The oldest byte goes; its offset is the front of its deque. */
    method PopFront() returns (v: byte)
      requires Valid() && count > 0
      modifies this, index
      ensures Valid() && v == old(contents)[0] && contents == old(contents)[1..] && offset == old(offset) + 1
      ensures old(index[v]) == [old(offset)] + index[v]
    {
      v := data[Slot(offset, size)];
      forall w: byte {
        PositionsOfTail(contents, offset, w);
      }
      assert data[Slot(offset + 0, size)] == contents[0];
      index[v] := index[v][1..];
      offset, count, contents := offset + 1, count - 1, contents[1..];
    }

    /** The newest byte goes; its offset is the back of its deque. */
    method PopBack() returns (r: Option<byte>)
      requires Valid()
      modifies this, index
      ensures Valid() && offset == old(offset)
      ensures old(count) == 0 ==> r == None && contents == []
      ensures old(count) > 0 ==>
        var last := |old(contents)| - 1;
        r == Some(old(contents)[last]) && contents == old(contents)[..last]
        && old(index[r.value]) == index[r.value] + [old(EndOffset()) - 1]
    {
      if count == 0 {
        return None;
      }
      count := count - 1;
      var v := data[Slot(offset + count, size)];
      assert v == contents[count];
      index[v] := index[v][..|index[v]| - 1];
      contents := contents[..count];
      return Some(v);
    }

    /** A byte is appended; a full log first loses its oldest byte. */
    method PushBack(v: byte)
      requires Valid()
      modifies this, data, index
      ensures Valid()
      ensures contents == Pushed(size, old(contents), v)
      ensures EndOffset() == old(EndOffset()) + 1
    {
      if count == size {
        var _ := PopFront();
      }
      Append(v);
    }

    /** The ring's slots hold a window that starts at the log's offset. */
    ghost predicate RingHolds(w: seq<byte>)
      reads this, data
    {
      0 < size == data.Length && |w| <= size && forall i | 0 <= i < |w| :: data[Slot(offset + i, size)] == w[i]
    }

    /** Writes the byte behind a window that leaves a slot free. */
    method Store(ghost w: seq<byte>, at: nat, v: byte)
      requires RingHolds(w) && |w| < size && at == offset + |w|
      modifies data
      ensures RingHolds(w + [v])
    {
      forall k: nat | offset <= k < at ensures Slot(k, size) != Slot(at, size) {
        Distinct(k, at, size);
      }
      data[Slot(at, size)] := v;
    }

    method Append(v: byte)
      requires Valid() && count < size
      modifies this, data, index
      ensures Valid() && contents == old(contents) + [v] && offset == old(offset) && count == old(count) + 1
    {
      var at := offset + count;
      ghost var w := contents;
      assert RingHolds(w);
      Store(w, at, v);
      index[v] := index[v] + [at];
      assert (w + [v])[..count] == w;
      count, contents := count + 1, w + [v];
      assert RingHolds(contents);
    }

    method Find(v: byte) returns (p: seq<nat>)
      requires Valid()
      ensures p == Positions(contents, offset, v)
    {
      p := index[v];
    }
  }

  /** Two offsets less than the ring's size apart never share a slot. */
  lemma Distinct(a: nat, b: nat, size: nat)
    requires a < b < a + size
    ensures Slot(a, size) != Slot(b, size)
  {
    if a % size == b % size {
      assert size * (b / size - a / size) == b - a;
      NonzeroMultiple(size, b / size - a / size);
    }
  }

  /** One operation; a caller that would pop from an empty log is left alone. */
  method Operate(log: IndexedLog, op: Op)
    requires log.Valid()
    modifies log, log.data, log.index
    ensures log.Valid() && log.contents == NextWindow(log.size, old(log.contents), op)
    ensures log.EndOffset() == old(log.EndOffset()) +
      match op case PushesBack(_) => 1 case PopsBack => (if old(log.count) > 0 then -1 else 0) case PopsFront => 0
  {
    match op {
      case PushesBack(b) =>
        log.PushBack(b);
      case PopsBack =>
        if log.count > 0 {
          var _ := log.PopBack();
        }
      case PopsFront =>
        if log.count > 0 {
          var _ := log.PopFront();
        }
    }
  }

  lemma AfterStep(size: nat, ops: seq<Op>, i: nat)
    requires size > 0 && i < |ops|
    ensures var (w, h) := After(size, ops[..i]);
      && After(size, ops[..i + 1]) == (NextWindow(size, w, ops[i]), NextHistory(w, h, ops[i]))
      && |w| <= |h|
  {
    assert ops[..i + 1][..i] == ops[..i];
    WindowOfHistory(size, ops[..i]);
  }

  /** A whole run on one log: the ring is the window of the run's history, and its end is where the history ends. */
  method OperateAll(log: IndexedLog, ops: seq<Op>)
    requires log.Valid() && log.contents == [] && log.offset == 0
    modifies log, log.data, log.index
    ensures log.Valid()
    ensures log.contents == After(log.size, ops).0 && log.EndOffset() == |After(log.size, ops).1|
  {
    ghost var w, h := [], [];
    for i := 0 to |ops|
      invariant log.Valid() && (w, h) == After(log.size, ops[..i])
      invariant log.contents == w && log.EndOffset() == |h|
    {
      AfterStep(log.size, ops, i);
      Operate(log, ops[i]);
      w, h := NextWindow(log.size, w, ops[i]), NextHistory(w, h, ops[i]);
    }
    assert ops[..|ops|] == ops;
  }
}
