/**
 url_decode_inplace: percent-decoding (section 2.1 of RFC 3986) in place, with a writing offset that trails the reading one.
 The code looks for '+' at the writing offset, so it meets its purpose only under a condition, which is given exactly.
 */
module UrlDecoding {
  import opened Bytes

  /** `PastEnd`: the text "%", for which the code looks at characters behind the end. */
  datatype DecodeError = BadHexDigit | PastEnd

  type Decoded = Result<seq<byte>, DecodeError>

  const PERCENT: byte := 0x25
  const PLUS: byte := 0x2B
  const SPACE: byte := 0x20

  function Digit(c: byte): Option<nat> {
    if 0x30 <= c <= 0x39 then Some(c - 0x30)
    else if 0x41 <= c <= 0x46 then Some(c - 0x41 + 10)
    else if 0x61 <= c <= 0x66 then Some(c - 0x61 + 10)
    else None
  }

  predicate EscapeAt(s: seq<byte>, p: nat) { p + 2 < |s| && s[p] == PERCENT }

  /** The byte that an escape stands for. */
  function Escaped(s: seq<byte>, p: nat): (r: Result<byte, DecodeError>)
    requires EscapeAt(s, p)
  {
    match (Digit(s[p + 1]), Digit(s[p + 2]))
    case (Some(hi), Some(lo)) => Ok(16 * hi + lo)
    case _ => Err(BadHexDigit)
  }

  function Prepend(prefix: seq<byte>, rest: Decoded): Decoded {
    match rest
    case Ok(tail) => Ok(prefix + tail)
    case Err(e) => Err(e)
  }

  /** The intended meaning: escapes decoded from left to right, '+' a space. */
  function Intended(s: seq<byte>, read: nat): Decoded
    requires read <= |s|
    decreases |s| - read
  {
    if read == |s| then Ok([])
    else if EscapeAt(s, read) then
      match Escaped(s, read)
      case Ok(b) => Prepend([b], Intended(s, read + 3))
      case Err(e) => Err(e)
    else Prepend([if s[read] == PLUS then SPACE else s[read]], Intended(s, read + 1))
  }

  /**
   What the code computes from given offsets on. The text at and behind the writing offset is as yet unchanged, so that
   the byte tested for '+' is the one that stood there from the start.
   */
  function Actual(s: seq<byte>, read: nat, write: nat): Decoded
    requires write <= read <= |s|
    decreases |s| - read
  {
    if read == |s| then Ok([])
    else if EscapeAt(s, read) then
      match Escaped(s, read)
      case Ok(b) => Prepend([b], Actual(s, read + 3, write + 1))
      case Err(e) => Err(e)
    else Prepend([if s[write] == PLUS then SPACE else s[read]], Actual(s, read + 1, write + 1))
  }

  predicate NoPlus(s: seq<byte>, from: nat, bound: nat) { forall q | from <= q < bound && q < |s| :: s[q] != PLUS }

  lemma DigitsAreNotPlus(s: seq<byte>, p: nat)
    requires EscapeAt(s, p) && Escaped(s, p).Ok?
    ensures NoPlus(s, p, p + 3)
  {
  }

  lemma {:induction false} SameErrors(s: seq<byte>, read: nat, write: nat)
    requires write <= read <= |s|
    ensures Actual(s, read, write).Err? <==> Intended(s, read).Err?
    decreases |s| - read
  {
    if read < |s| {
      if EscapeAt(s, read) {
        SameErrors(s, read + 3, write + 1);
      } else {
        SameErrors(s, read + 1, write + 1);
      }
    }
  }

  /** With no '+' ahead, the two offsets make no difference. */
  lemma {:induction false} WithoutPlus(s: seq<byte>, read: nat, write: nat)
    requires write <= read <= |s| && NoPlus(s, write, |s|)
    ensures Actual(s, read, write) == Intended(s, read)
    decreases |s| - read
  {
    if read < |s| {
      if EscapeAt(s, read) {
        WithoutPlus(s, read + 3, write + 1);
      } else {
        WithoutPlus(s, read + 1, write + 1);
      }
    }
  }

  /** A '+' behind an escape is left as it is. */
  lemma {:induction false} PlusMissed(s: seq<byte>, read: nat, write: nat)
    requires write < read <= |s| && NoPlus(s, write, read) && !NoPlus(s, read, |s|)
    requires Intended(s, read).Ok?
    ensures Actual(s, read, write) != Intended(s, read)
    decreases |s| - read
  {
    if Actual(s, read, write) == Intended(s, read) {
      Heads(s, read, write);
      if EscapeAt(s, read) {
        DigitsAreNotPlus(s, read);
        PlusMissed(s, read + 3, write + 1);
      } else {
        PlusMissed(s, read + 1, write + 1);
      }
    }
  }

  lemma PrependInjective(b: byte, x: Decoded, c: byte, y: Decoded)
    requires x.Ok? && Prepend([b], x) == Prepend([c], y)
    ensures b == c && x == y
  {
    assert ([b] + x.value)[0] == b && ([c] + y.value)[0] == c;
    assert ([b] + x.value)[1..] == x.value && ([c] + y.value)[1..] == y.value;
  }

  /** Equal results have equal heads and equal rests. */
  lemma Heads(s: seq<byte>, read: nat, write: nat)
    requires write <= read < |s| && Intended(s, read).Ok? && Actual(s, read, write) == Intended(s, read)
    ensures EscapeAt(s, read) ==> Actual(s, read + 3, write + 1) == Intended(s, read + 3)
    ensures !EscapeAt(s, read) ==> Actual(s, read + 1, write + 1) == Intended(s, read + 1)
    ensures !EscapeAt(s, read) && s[read] == PLUS ==> s[write] == PLUS
  {
    if EscapeAt(s, read) {
      var b := Escaped(s, read).value;
      PrependInjective(b, Actual(s, read + 3, write + 1), b, Intended(s, read + 3));
    } else {
      PrependInjective(if s[write] == PLUS then SPACE else s[read], Actual(s, read + 1, write + 1),
                       if s[read] == PLUS then SPACE else s[read], Intended(s, read + 1));
    }
  }

  /** Some '+' stands behind the start of an escape. */
  ghost predicate PlusAfterEscape(s: seq<byte>, from: nat) {
    exists p: nat :: from <= p && EscapeAt(s, p) && !NoPlus(s, p, |s|)
  }

  lemma {:induction false} UntilFirstEscape(s: seq<byte>, read: nat)
    requires read <= |s| && Intended(s, read).Ok?
    ensures Actual(s, read, read) == Intended(s, read) <==> !PlusAfterEscape(s, read)
    decreases |s| - read
  {
    if read < |s| {
      if EscapeAt(s, read) {
        DigitsAreNotPlus(s, read);
        if NoPlus(s, read, |s|) {
          WithoutPlus(s, read, read);
          assert forall p: nat | read <= p :: NoPlus(s, p, |s|);
        } else {
          assert PlusAfterEscape(s, read);
          if Actual(s, read, read) == Intended(s, read) {
            Heads(s, read, read);
            PlusMissed(s, read + 3, read + 1);
          }
        }
      } else {
        UntilFirstEscape(s, read + 1);
        assert PlusAfterEscape(s, read) <==> PlusAfterEscape(s, read + 1);
        if Actual(s, read, read) == Intended(s, read) {
          Heads(s, read, read);
        }
      }
    }
  }

  /** The code decodes as intended exactly when no '+' comes after an escape; errors are always the intended ones. */
  lemma DecodesAsIntended(s: seq<byte>)
    ensures Actual(s, 0, 0).Err? <==> Intended(s, 0).Err?
    ensures Intended(s, 0).Ok? ==> (Actual(s, 0, 0) == Intended(s, 0) <==> !PlusAfterEscape(s, 0))
  {
    SameErrors(s, 0, 0);
    if Intended(s, 0).Ok? {
      UntilFirstEscape(s, 0);
    }
  }

  /** An input on which it fails: "%20+" gives two characters, a space and a '+'. */
  lemma PlusKept()
    ensures var s: seq<byte> := [PERCENT, 0x32, 0x30, PLUS];
      Actual(s, 0, 0) == Ok([SPACE, PLUS]) && Intended(s, 0) == Ok([SPACE, SPACE])
  {
    var s: seq<byte> := [PERCENT, 0x32, 0x30, PLUS];
    assert EscapeAt(s, 0) && Escaped(s, 0) == Ok(SPACE) && !EscapeAt(s, 3);
    assert Actual(s, 4, 2) == Ok([]) && Intended(s, 4) == Ok([]);
    assert [PLUS] + [] == [PLUS] && [SPACE] + [] == [SPACE];
    assert Actual(s, 3, 1) == Ok([PLUS]) && Intended(s, 3) == Ok([SPACE]);
    assert [SPACE] + [PLUS] == [SPACE, PLUS] && [SPACE] + [SPACE] == [SPACE, SPACE];
  }

  // ---- encoding ----

  function HexDigit(v: nat): byte
    requires v < 16
  {
    if v < 10 then 0x30 + v else 0x41 + v - 10
  }

  /** A percent-encoding that leaves some of the bytes as they are, never '%' or '+'. */
  function Encode(t: seq<byte>, keep: byte -> bool): seq<byte> {
    if t == [] then []
    else
      (if keep(t[0]) && t[0] != PERCENT && t[0] != PLUS then [t[0]]
       else [PERCENT, HexDigit(t[0] / 16), HexDigit(t[0] % 16)]) + Encode(t[1..], keep)
  }

  lemma {:induction false} EncodedHasNoPlus(t: seq<byte>, keep: byte -> bool)
    ensures NoPlus(Encode(t, keep), 0, |Encode(t, keep)|)
  {
    if t != [] {
      EncodedHasNoPlus(t[1..], keep);
    }
  }

  lemma {:induction false} IntendedDecodes(s: seq<byte>, read: nat, t: seq<byte>, keep: byte -> bool)
    requires read <= |s| && s[read..] == Encode(t, keep)
    ensures Intended(s, read) == Ok(t)
    decreases |t|
  {
    if t != [] {
      var rest := Encode(t[1..], keep);
      assert [t[0]] + t[1..] == t;
      if keep(t[0]) && t[0] != PERCENT && t[0] != PLUS {
        assert s[read + 1..] == rest;
        assert s[read] == s[read..][0];
        IntendedDecodes(s, read + 1, t[1..], keep);
      } else {
        assert s[read + 3..] == rest;
        assert s[read] == s[read..][0] && s[read + 1] == s[read..][1] && s[read + 2] == s[read..][2];
        IntendedDecodes(s, read + 3, t[1..], keep);
      }
    }
  }

  /** Decoding any percent-encoding of a byte string gives the byte string. */
  lemma RoundTrip(t: seq<byte>, keep: byte -> bool)
    ensures Actual(Encode(t, keep), 0, 0) == Ok(t)
  {
    var s := Encode(t, keep);
    EncodedHasNoPlus(t, keep);
    WithoutPlus(s, 0, 0);
    assert s[0..] == s;
    IntendedDecodes(s, 0, t, keep);
  }

  // ---- in place ----

  lemma PrependTwice(prefix: seq<byte>, b: byte, rest: Decoded)
    ensures Prepend(prefix, Prepend([b], rest)) == Prepend(prefix + [b], rest)
  {
    if rest.Ok? {
      Associative(prefix, [b], rest.value);
    }
  }

  lemma PrependNothing(rest: Decoded)
    ensures Prepend([], rest) == rest
  {
    if rest.Ok? {
      assert [] + rest.value == rest.value;
    }
  }

  /** One step of the loop, on values: the byte that is written, and how far the reading offset moves. */
  lemma StepDecodes(s: seq<byte>, read: nat, write: nat, done: seq<byte>)
    requires write <= read < |s|
    requires EscapeAt(s, read) ==> Escaped(s, read).Ok?
    ensures var (b, next) :=
        if EscapeAt(s, read) then (Escaped(s, read).value, read + 3)
        else (if s[write] == PLUS then SPACE else s[read], read + 1);
      Prepend(done, Actual(s, read, write)) == Prepend(done + [b], Actual(s, next, write + 1))
  {
    if EscapeAt(s, read) {
      PrependTwice(done, Escaped(s, read).value, Actual(s, read + 3, write + 1));
    } else {
      PrependTwice(done, if s[write] == PLUS then SPACE else s[read], Actual(s, read + 1, write + 1));
    }
  }

  predicate LonePercent(s: seq<byte>) { s == [PERCENT] }

  lemma Unchanged(a: seq<byte>, s: seq<byte>, write: nat, k: nat)
    requires |a| == |s| && write <= k < |s| && a[write..] == s[write..]
    ensures a[k] == s[k] && a[write] == s[write] && a[write + 1..] == s[write + 1..]
  {
    assert a[k] == a[write..][k - write] && s[k] == s[write..][k - write];
    assert a[write] == a[write..][0] && s[write] == s[write..][0];
    assert a[write + 1..] == a[write..][1..] && s[write + 1..] == s[write..][1..];
  }

  lemma PrependEnd(done: seq<byte>)
    ensures Prepend(done, Ok([])) == Ok(done)
  {
    assert done + [] == done;
  }

  /**
   One round of the loop: where it reads on. The source compares the reading offset with the size less two in unsigned
   numbers, so that a text of one character passes the comparison.
   */
  method DecodeOne(a: array<byte>, read: nat, write: nat, ghost s: seq<byte>) returns (next: Result<nat, DecodeError>)
    requires write <= read < a.Length == |s| && a[write..] == s[write..]
    modifies a
    ensures LonePercent(s) ==> next == Err(PastEnd)
    ensures !LonePercent(s) ==>
      match next
      case Ok(n) =>
        && read < n <= a.Length && a[write + 1..] == s[write + 1..]
        && Prepend(old(a[..write]), Actual(s, read, write)) == Prepend(a[..write + 1], Actual(s, n, write + 1))
      case Err(e) => Actual(s, read, write) == Err(e)
  {
    ghost var done := a[..write];
    Unchanged(a[..], s, write, read);
    var b: byte, n: nat := 0, read + 1;
    if a[read] == PERCENT && (a.Length < 2 || read < a.Length - 2) {
      if read + 2 >= a.Length {
        assert s == [s[read]];
        return Err(PastEnd);
      }
      Unchanged(a[..], s, write, read + 1);
      Unchanged(a[..], s, write, read + 2);
      match (Digit(a[read + 1]), Digit(a[read + 2])) {
        case (Some(hi), Some(lo)) =>
          b, n := 16 * hi + lo, read + 3;
        case _ =>
          return Err(BadHexDigit);
      }
    } else if a[write] == PLUS {
      b := SPACE;
    } else {
      b := a[read];
    }
    StepDecodes(s, read, write, done);
    ghost var rest := a[write + 1..];
    a[write] := b;
    assert a[write + 1..] == rest;
    assert a[..write + 1] == done + [b];
    return Ok(n);
  }

  /** url_decode_inplace: the text ends where the writing offset does. */
  method DecodeInPlace(a: array<byte>) returns (r: Result<nat, DecodeError>)
    modifies a
    ensures if LonePercent(old(a[..])) then r == Err(PastEnd)
      else match Actual(old(a[..]), 0, 0)
        case Ok(text) => r == Ok(|text|) && |text| <= a.Length && a[..|text|] == text
        case Err(e) => r == Err(e)
  {
    ghost var s := a[..];
    var read, write := 0, 0;
    PrependNothing(Actual(s, 0, 0));
    while read < a.Length
      invariant write <= read <= a.Length
      invariant a[write..] == s[write..]
      invariant LonePercent(s) ==> read == 0
      invariant Actual(s, 0, 0) == Prepend(a[..write], Actual(s, read, write))
      decreases a.Length - read
    {
      var next := DecodeOne(a, read, write, s);
      if next.Err? {
        return next;
      }
      read, write := next.value, write + 1;
    }
    PrependEnd(a[..write]);
    r := Ok(write);
  }
}
