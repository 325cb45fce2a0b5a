/**
 The Blue Burst ciphers. The standard one (and MOCB1, which differs only in its keys) and TFS1 are rounds of exclusive ors
 with the initial keys and a mixture of table entries; JSD1 is a keystream whose table every plaintext byte changes. All of
 them meet the law that the command channel relies on.
 */
module BlueBurstCiphers {
  import opened Bytes
  import opened Ciphers

  const WORD: nat := 0x1_0000_0000

  datatype Keys = Keys(initial: seq<u32>, tables: seq<u32>)

  predicate Complete(k: Keys) { |k.initial| >= 6 && |k.tables| == 0x400 }

  // ---- exclusive or of words ----

  lemma {:induction false} XorBitsRegroup(n: nat, a: nat, b: nat, c: nat)
    ensures XorBits(n, a, b) == XorBits(n, b, a)
    ensures XorBits(n, XorBits(n, a, b), c) == XorBits(n, a, XorBits(n, b, c))
  {
    if n > 0 {
      XorBitsRegroup(n - 1, a / 2, b / 2, c / 2);
      assert XorBits(n, a, b) / 2 == XorBits(n - 1, a / 2, b / 2);
      assert XorBits(n, b, c) / 2 == XorBits(n - 1, b / 2, c / 2);
    }
  }

  lemma Pow2Of32()
    ensures Pow2(32) == WORD
  {
    assert Pow2(8) == 0x100;
    assert Pow2(16) == 0x1_0000;
    assert Pow2(24) == 0x100_0000;
  }

  function XorWords(a: u32, b: u32): u32 {
    XorBitsRange(32, a, b);
    Pow2Of32();
    XorBits(32, a, b)
  }

  lemma Cancel(a: u32, b: u32)
    ensures XorWords(XorWords(a, b), b) == a && XorWords(XorWords(b, a), b) == a && XorWords(b, XorWords(a, b)) == a
  {
    Pow2Of32();
    XorBitsTwice(32, a, b);
    XorBitsRegroup(32, a, b, b);
    XorBitsRegroup(32, b, XorBits(32, a, b), 0);
  }

  lemma Regroup(a: u32, b: u32, c: u32)
    ensures XorWords(a, b) == XorWords(b, a)
    ensures XorWords(XorWords(a, b), c) == XorWords(a, XorWords(b, c))
  {
    XorBitsRegroup(32, a, b, c);
  }

  /** What lies between two equal words stays. */
  lemma CancelAround(a: u32, b: u32, c: u32)
    ensures XorWords(XorWords(XorWords(a, b), c), b) == XorWords(a, c)
  {
    Regroup(a, b, c);
    Regroup(b, c, a);
    Regroup(a, c, b);
    Cancel(XorWords(a, c), b);
  }

  /** The mixture of the four table entries that the bytes of a word select. */
  function Mixture(k: Keys, w: u32): u32
    requires Complete(k)
  {
    var high := (k.tables[w / 0x100_0000] + k.tables[w / 0x1_0000 % 0x100 + 0x100]) % WORD;
    (XorWords(high, k.tables[w / 0x100 % 0x100 + 0x200]) + k.tables[w % 0x100 + 0x300]) % WORD
  }

  // ---- TFS1, with the mixture as any function of a word ----

  type Initial = k: seq<u32> | |k| == 6 witness [0, 0, 0, 0, 0, 0]

  /** Two words take turns in changing each other. */
  function Turn(f: u32 -> u32, key: u32, next: u32, p: (u32, u32)): (u32, u32) {
    var x := XorWords(p.0, key);
    var y := XorWords(XorWords(p.1, f(x)), next);
    (XorWords(x, f(y)), y)
  }

  function TFS1Encrypt(f: u32 -> u32, k: Initial, p: (u32, u32)): (u32, u32) {
    var q := Turn(f, k[2], k[3], Turn(f, k[0], k[1], p));
    (XorWords(q.1, k[5]), XorWords(q.0, k[4]))
  }

  function TFS1Decrypt(f: u32 -> u32, k: Initial, p: (u32, u32)): (u32, u32) {
    var q := Turn(f, k[3], k[2], Turn(f, k[5], k[4], p));
    (XorWords(q.1, k[0]), XorWords(q.0, k[1]))
  }

  /** A turn with the keys of a turn exchanged, on the words exchanged, takes that turn back but for the first whitening. */
  lemma TurnBack(f: u32 -> u32, key: u32, next: u32, white: u32, other: u32, p: (u32, u32))
    ensures var q := Turn(f, key, next, p);
      Turn(f, white, other, (XorWords(q.1, white), XorWords(q.0, other))) == (XorWords(p.1, next), XorWords(p.0, key))
  {
    var x := XorWords(p.0, key);
    var y := XorWords(XorWords(p.1, f(x)), next);
    var z := XorWords(x, f(y));
    Cancel(y, white);
    // the second word: (z ^ other) ^ f(y) ^ other == z ^ f(y) == x
    CancelAround(z, other, f(y));
    Cancel(x, f(y));
    // the first word: y ^ f(x) == p.1 ^ next
    CancelAround(p.1, f(x), next);
  }

  lemma TFS1Inverse(f: u32 -> u32, k: Initial, p: (u32, u32))
    ensures TFS1Decrypt(f, k, TFS1Encrypt(f, k, p)) == p
  {
    var q := Turn(f, k[0], k[1], p);
    TurnBack(f, k[2], k[3], k[5], k[4], q);
    TurnBack(f, k[0], k[1], k[3], k[2], p);
    Cancel(p.0, k[0]);
    Cancel(p.1, k[1]);
  }

  // ---- the standard cipher ----

  /** Four steps, each changing one word by the mixture of the other; the same function decrypts with the keys reversed. */
  function Standard(f: u32 -> u32, k: Initial, p: (u32, u32)): (u32, u32) {
    var x := XorWords(p.0, k[0]);
    var y := XorWords(XorWords(f(x), k[1]), p.1);
    var x' := XorWords(x, XorWords(f(y), k[2]));
    var y' := XorWords(XorWords(y, f(x')), k[3]);
    (XorWords(y', k[5]), XorWords(x', XorWords(f(y'), k[4])))
  }

  function Reversed(k: Initial): Initial { [k[5], k[4], k[3], k[2], k[1], k[0]] }

  lemma StandardInverse(f: u32 -> u32, k: Initial, p: (u32, u32))
    ensures Standard(f, Reversed(k), Standard(f, k, p)) == p
  {
    var x := XorWords(p.0, k[0]);
    var y := XorWords(XorWords(f(x), k[1]), p.1);
    var x' := XorWords(x, XorWords(f(y), k[2]));
    var y' := XorWords(XorWords(y, f(x')), k[3]);
    // back to y', then x', y and x
    Cancel(y', k[5]);
    Cancel(x', XorWords(f(y'), k[4]));
    StepBack(y, f(x'), k[3]);
    StepBack(x, f(y), k[2]);
    Regroup(x, f(y), k[2]);
    Regroup(y, f(x'), k[3]);
    Cancel(p.0, k[0]);
    Cancel(p.1, XorWords(f(x), k[1]));
  }

  lemma StepBack(a: u32, b: u32, c: u32)
    ensures XorWords(XorWords(a, XorWords(b, c)), XorWords(b, c)) == a
    ensures XorWords(XorWords(XorWords(a, b), c), XorWords(b, c)) == a
    ensures XorWords(XorWords(XorWords(a, XorWords(b, c)), b), c) == a
  {
    Regroup(a, b, c);
    Cancel(a, XorWords(b, c));
    Regroup(XorWords(a, XorWords(b, c)), b, c);
  }

  // ---- as ciphers of the channel ----

  function WordsOf(b: Block): (u32, u32) {
    FromLeRange(b[..4]);
    FromLeRange(b[4..]);
    PowersOf256();
    (FromLe(b[..4]), FromLe(b[4..]))
  }

  function BlockOf(p: (u32, u32)): Block { Le(p.0, 4) + Le(p.1, 4) }

  lemma BlockWords(b: Block, p: (u32, u32))
    ensures BlockOf(WordsOf(b)) == b && WordsOf(BlockOf(p)) == p
  {
    FromLeRoundTrip(b[..4]);
    FromLeRoundTrip(b[4..]);
    assert b == b[..4] + b[4..];
    PowersOf256();
    LeRoundTrip(p.0, 4);
    LeRoundTrip(p.1, 4);
    assert BlockOf(p)[..4] == Le(p.0, 4) && BlockOf(p)[4..] == Le(p.1, 4);
  }

  /** A cipher that handles each block by itself. */
  function Blockwise(enc: ((u32, u32)) -> (u32, u32), dec: ((u32, u32)) -> (u32, u32)): Cipher {
    BlockCipher([], (_, b: Block) => BlockOf(enc(WordsOf(b))), (_, b: Block) => BlockOf(dec(WordsOf(b))))
  }

  lemma BlockwiseLawful(enc: ((u32, u32)) -> (u32, u32), dec: ((u32, u32)) -> (u32, u32))
    requires forall p: (u32, u32) :: dec(enc(p)) == p
    ensures Lawful(Blockwise(enc, dec))
  {
    var c := Blockwise(enc, dec);
    forall past: seq<byte>, b: Block
      ensures c.dec(past, c.enc(past, b)) == b
    {
      BlockWords(b, enc(WordsOf(b)));
      assert dec(enc(WordsOf(b))) == WordsOf(b);
    }
  }

  function FirstKeys(k: Keys): Initial
    requires Complete(k)
  {
    k.initial[..6]
  }

  function StandardCipher(k: Keys): Cipher
    requires Complete(k)
  {
    var f: u32 -> u32 := w => Mixture(k, w);
    Blockwise(p => Standard(f, FirstKeys(k), p), p => Standard(f, Reversed(FirstKeys(k)), p))
  }

  function TFS1Cipher(k: Keys): Cipher
    requires Complete(k)
  {
    var f: u32 -> u32 := w => Mixture(k, w);
    Blockwise(p => TFS1Encrypt(f, FirstKeys(k), p), p => TFS1Decrypt(f, FirstKeys(k), p))
  }

  /** With any keys, the channel may rely on both ciphers. */
  lemma CiphersAreLawful(k: Keys)
    requires Complete(k)
    ensures Lawful(StandardCipher(k)) && Lawful(TFS1Cipher(k))
  {
    var f: u32 -> u32 := w => Mixture(k, w);
    var i := FirstKeys(k);
    forall p: (u32, u32)
      ensures Standard(f, Reversed(i), Standard(f, i, p)) == p && TFS1Decrypt(f, i, TFS1Encrypt(f, i, p)) == p
    {
      StandardInverse(f, i, p);
      TFS1Inverse(f, i, p);
    }
    BlockwiseLawful(p => Standard(f, i, p), p => Standard(f, Reversed(i), p));
    BlockwiseLawful(p => TFS1Encrypt(f, i, p), p => TFS1Decrypt(f, i, p));
  }

  // ---- JSD1, whose keys change with every byte ----

  type ByteTable = t: seq<byte> | |t| == 0x100 witness seq(0x100, _ => 0)

  datatype Stream = Stream(table: ByteTable, offset: byte)

  /** After a plaintext byte has gone through. */
  function Fed(s: Stream, v: byte): Stream {
    Stream(s.table[s.offset := (s.table[s.offset] - v) % 0x100], (s.offset + 1) % 0x100)
  }

  function FedAll(s: Stream, d: seq<byte>): Stream
    decreases |d|
  {
    if d == [] then s else FedAll(Fed(s, d[0]), d[1..])
  }

  function Scramble(s: Stream, d: seq<byte>): (r: seq<byte>)
    ensures |r| == |d|
    decreases |d|
  {
    if d == [] then [] else [Xor(d[0], s.table[s.offset])] + Scramble(Fed(s, d[0]), d[1..])
  }

  function Unscramble(s: Stream, d: seq<byte>): (r: seq<byte>)
    ensures |r| == |d|
    decreases |d|
  {
    if d == [] then []
    else
      var v := Xor(d[0], s.table[s.offset]);
      [v] + Unscramble(Fed(s, v), d[1..])
  }

  lemma {:induction false} ScrambleTwice(s: Stream, d: seq<byte>)
    ensures Unscramble(s, Scramble(s, d)) == d
    decreases |d|
  {
    if d != [] {
      var v, rest := d[0], d[1..];
      XorTwice(v, s.table[s.offset]);
      ScrambleTwice(Fed(s, v), rest);
      var e := Scramble(s, d);
      assert e[0] == Xor(v, s.table[s.offset]) && e[1..] == Scramble(Fed(s, v), rest);
      assert Unscramble(s, e) == [v] + Unscramble(Fed(s, v), e[1..]);
      assert d == [v] + rest;
    }
  }

  /** Even bits from the first number, odd ones from the second. */
  function Interleaved(n: nat, a: nat, b: nat): nat {
    if n == 0 then 0 else a % 2 + 2 * Interleaved(n - 1, b / 2, a / 2)
  }

  lemma {:induction false} InterleavedRange(n: nat, a: nat, b: nat)
    ensures Interleaved(n, a, b) < Pow2(n)
  {
    if n > 0 {
      InterleavedRange(n - 1, b / 2, a / 2);
    }
  }

  lemma {:induction false} InterleavedTwice(n: nat, a: nat, b: nat)
    requires a < Pow2(n)
    ensures Interleaved(n, Interleaved(n, a, b), Interleaved(n, b, a)) == a
  {
    if n > 0 {
      var x, y := Interleaved(n, a, b), Interleaved(n, b, a);
      assert x / 2 == Interleaved(n - 1, b / 2, a / 2) && y / 2 == Interleaved(n - 1, a / 2, b / 2);
      InterleavedTwice(n - 1, a / 2, b / 2);
    }
  }

  /** (a & 0x55) | (b & 0xAA). */
  function Masked(a: byte, b: byte): byte {
    InterleavedRange(8, a, b);
    assert Pow2(8) == 0x100;
    Interleaved(8, a, b)
  }

  lemma MaskedTwice(a: byte, b: byte)
    ensures Masked(Masked(a, b), Masked(b, a)) == a
  {
    assert Pow2(8) == 0x100;
    InterleavedTwice(8, a, b);
  }

  /** Neighbouring bytes exchange their odd bits. */
  function Exchanged(d: seq<byte>): (r: seq<byte>)
    ensures |r| == |d|
    decreases |d|
  {
    if |d| < 2 then d else [Masked(d[0], d[1]), Masked(d[1], d[0])] + Exchanged(d[2..])
  }

  lemma {:induction false} ExchangedTwice(d: seq<byte>)
    ensures Exchanged(Exchanged(d)) == d
    decreases |d|
  {
    if |d| >= 2 {
      MaskedTwice(d[0], d[1]);
      MaskedTwice(d[1], d[0]);
      ExchangedTwice(d[2..]);
      var e := Exchanged(d);
      assert e[2..] == Exchanged(d[2..]);
      assert d == [d[0], d[1]] + d[2..];
    }
  }

  function JSD1Cipher(start: Stream): Cipher {
    BlockCipher([], (past, b: Block) => Exchanged(Scramble(FedAll(start, past), b)),
                (past, b: Block) => Unscramble(FedAll(start, past), Exchanged(b)))
  }

  /** The law for JSD1, from whatever table and offset it starts. */
  lemma JSD1IsLawful(start: Stream)
    ensures Lawful(JSD1Cipher(start))
  {
    var c := JSD1Cipher(start);
    forall past: seq<byte>, b: Block
      ensures c.dec(past, c.enc(past, b)) == b
    {
      var s := FedAll(start, past);
      ExchangedTwice(Scramble(s, b));
      ScrambleTwice(s, b);
    }
  }

  lemma {:induction false} ScrambleAppend(s: Stream, a: seq<byte>, b: seq<byte>)
    ensures Scramble(s, a + b) == Scramble(s, a) + Scramble(FedAll(s, a), b)
    ensures FedAll(s, a + b) == FedAll(FedAll(s, a), b)
    decreases |a|
  {
    if a == [] {
      assert a + b == b;
    } else {
      var whole, rest, s1 := a + b, a[1..], Fed(s, a[0]);
      var head := [Xor(a[0], s.table[s.offset])];
      ScrambleAppend(s1, rest, b);
      assert whole[0] == a[0] && whole[1..] == rest + b;
      assert Scramble(s, whole) == head + Scramble(s1, rest + b);
      Associative(head, Scramble(s1, rest), Scramble(FedAll(s1, rest), b));
    }
  }

  lemma {:induction false} ExchangedAppend(a: seq<byte>, b: seq<byte>)
    requires |a| % 2 == 0
    ensures Exchanged(a + b) == Exchanged(a) + Exchanged(b)
    decreases |a|
  {
    if a == [] {
      assert a + b == b;
    } else {
      var whole, rest := a + b, a[2..];
      var head := [Masked(a[0], a[1]), Masked(a[1], a[0])];
      ExchangedAppend(rest, b);
      assert whole[2..] == rest + b && whole[0] == a[0] && whole[1] == a[1];
      assert Exchanged(whole) == head + Exchanged(rest + b);
      Associative(head, Exchanged(rest), Exchanged(b));
    }
  }

  /** Block by block the model encrypts what the source does in two passes over all the bytes of a call. */
  lemma {:induction false} JSD1Whole(start: Stream, past: seq<byte>, d: seq<byte>)
    requires |d| % 8 == 0
    ensures EncBlocks(past, JSD1Cipher(start).enc, d) == Exchanged(Scramble(FedAll(start, past), d))
    decreases |d|
  {
    if d != [] {
      var head, tail := d[..8], d[8..];
      var s := FedAll(start, past);
      JSD1Whole(start, past + head, tail);
      ScrambleAppend(start, past, head);
      ScrambleAppend(s, head, tail);
      ExchangedAppend(Scramble(s, head), Scramble(FedAll(s, head), tail));
      assert d == head + tail;
    }
  }

  lemma {:induction false} UnscrambleAppend(s: Stream, a: seq<byte>, b: seq<byte>)
    ensures Unscramble(s, a + b) == Unscramble(s, a) + Unscramble(FedAll(s, Unscramble(s, a)), b)
    decreases |a|
  {
    if a == [] {
      assert a + b == b;
    } else {
      var v := Xor(a[0], s.table[s.offset]);
      var whole, rest, s1 := a + b, a[1..], Fed(s, v);
      var plain := Unscramble(s1, rest);
      UnscrambleAppend(s1, rest, b);
      assert whole[0] == a[0] && whole[1..] == rest + b;
      assert Unscramble(s, whole) == [v] + Unscramble(s1, rest + b);
      assert Unscramble(s, a) == [v] + plain && ([v] + plain)[1..] == plain;
      Associative([v], plain, Unscramble(FedAll(s1, plain), b));
    }
  }

  lemma {:induction false} JSD1WholeBack(start: Stream, past: seq<byte>, d: seq<byte>)
    requires |d| % 8 == 0
    ensures DecBlocks(past, JSD1Cipher(start).dec, d) == Unscramble(FedAll(start, past), Exchanged(d))
    decreases |d|
  {
    if d != [] {
      var head, tail := d[..8], d[8..];
      var s := FedAll(start, past);
      var plain := Unscramble(s, Exchanged(head));
      JSD1WholeBack(start, past + plain, tail);
      ScrambleAppend(start, past, plain);
      ExchangedAppend(head, tail);
      UnscrambleAppend(s, Exchanged(head), Exchanged(tail));
      assert d == head + tail;
    }
  }
}
