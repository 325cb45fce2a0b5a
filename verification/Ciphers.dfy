/**
 What the command channel needs to know about PSOEncryption: a cipher is a piece of state that both ends
 advance, and what one end encrypts the other end decrypts as long as the two states agree.
 */
module Ciphers {
  import opened Bytes

  type Block = b: seq<byte> | |b| == 8 witness [0, 0, 0, 0, 0, 0, 0, 0]

  /**
   `WordStream` is the PSO V2 / V3 family: word number `pos` of a keystream is XORed in, and a trailing partial
   word costs a whole keystream word. `BlockCipher` is the BB family: eight-byte blocks, each handled by an
   invertible function that may depend on everything already sent (the JSD1 subtype does).
   */
  datatype Cipher =
    | WordStream(pos: nat, key: (nat, nat) -> byte)
    | BlockCipher(past: seq<byte>,
                  enc: (seq<byte>, Block) -> Block,
                  dec: (seq<byte>, Block) -> Block)

  ghost predicate Lawful(c: Cipher) {
    c.BlockCipher? ==>
      forall past: seq<byte>, b: Block :: c.dec(past, c.enc(past, b)) == b
  }

  /** Exclusive or with the keystream; byte `i` uses lane `i % 4` of word `pos + i / 4`. */
  function Mix(pos: nat, key: (nat, nat) -> byte, d: seq<byte>): (r: seq<byte>)
    ensures |r| == |d|
  {
    seq(|d|, i requires 0 <= i < |d| => Xor(d[i], key(pos + i / 4, i % 4)))
  }

  function Words(n: nat): nat { (n + 3) / 4 }

  function EncBlocks(past: seq<byte>, enc: (seq<byte>, Block) -> Block, d: seq<byte>): (r: seq<byte>)
    requires |d| % 8 == 0
    ensures |r| == |d|
    decreases |d|
  {
    if d == [] then [] else enc(past, d[..8]) + EncBlocks(past + d[..8], enc, d[8..])
  }

  function DecBlocks(past: seq<byte>, dec: (seq<byte>, Block) -> Block, d: seq<byte>): (r: seq<byte>)
    requires |d| % 8 == 0
    ensures |r| == |d|
    decreases |d|
  {
    if d == [] then []
    else
      var p := dec(past, d[..8]);
      p + DecBlocks(past + p, dec, d[8..])
  }

  /** A block cipher throws on a length that is not a multiple of 8. */
  predicate Accepts(c: Cipher, n: nat) {
    c.BlockCipher? ==> n % 8 == 0
  }

  function Encrypt(c: Cipher, d: seq<byte>): (r: seq<byte>)
    requires Accepts(c, |d|)
    ensures |r| == |d|
  {
    match c
    case WordStream(pos, key) => Mix(pos, key, d)
    case BlockCipher(past, enc, _) => EncBlocks(past, enc, d)
  }

  function Decrypt(c: Cipher, d: seq<byte>): (r: seq<byte>)
    requires Accepts(c, |d|)
    ensures |r| == |d|
  {
    match c
    case WordStream(pos, key) => Mix(pos, key, d)
    case BlockCipher(past, _, dec) => DecBlocks(past, dec, d)
  }

  /** The state after `plain` has gone through. */
  function After(c: Cipher, plain: seq<byte>): Cipher {
    match c
    case WordStream(pos, key) => WordStream(pos + Words(|plain|), key)
    case BlockCipher(past, enc, dec) => BlockCipher(past + plain, enc, dec)
  }

  // ---- laws ----

  lemma MixSplit(pos: nat, key: (nat, nat) -> byte, a: seq<byte>, b: seq<byte>)
    requires |a| % 4 == 0
    ensures Mix(pos, key, a + b) == Mix(pos, key, a) + Mix(pos + Words(|a|), key, b)
  {
    var l, r := Mix(pos, key, a + b), Mix(pos, key, a) + Mix(pos + Words(|a|), key, b);
    forall i | 0 <= i < |a + b| ensures l[i] == r[i] {
      if i >= |a| {
        assert pos + i / 4 == pos + Words(|a|) + (i - |a|) / 4 && i % 4 == (i - |a|) % 4;
        assert (a + b)[i] == b[i - |a|];
      }
    }
  }

  lemma {:induction false} BlocksSplit(past: seq<byte>, enc: (seq<byte>, Block) -> Block,
                                       a: seq<byte>, b: seq<byte>)
    requires |a| % 8 == 0 && |b| % 8 == 0
    ensures EncBlocks(past, enc, a + b) == EncBlocks(past, enc, a) + EncBlocks(past + a, enc, b)
    decreases |a|
  {
    if a == [] {
      assert a + b == b && past + a == past;
    } else {
      BlocksSplit(past + a[..8], enc, a[8..], b);
      assert (a + b)[..8] == a[..8] && (a + b)[8..] == a[8..] + b;
      assert past + a[..8] + a[8..] == past + a;
    }
  }

  lemma WordsSum(a: nat, b: nat)
    requires a % 4 == 0
    ensures Words(a + b) == Words(a) + Words(b)
  {
  }

  lemma WholeBlocksSum(a: nat, b: nat)
    requires a % 8 == 0 && b % 8 == 0
    ensures (a + b) % 8 == 0
  {
  }

  lemma StreamSplit(c: Cipher, a: seq<byte>, b: seq<byte>)
    requires c.WordStream? && |a| % 4 == 0
    ensures Encrypt(c, a + b) == Encrypt(c, a) + Encrypt(After(c, a), b)
    ensures After(c, a + b) == After(After(c, a), b)
  {
    WordsSum(|a|, |b|);
    MixSplit(c.pos, c.key, a, b);
  }

  lemma BlockSplit(c: Cipher, a: seq<byte>, b: seq<byte>)
    requires c.BlockCipher? && Accepts(c, |a|) && Accepts(c, |b|)
    ensures Accepts(c, |a + b|)
    ensures Encrypt(c, a + b) == Encrypt(c, a) + Encrypt(After(c, a), b)
    ensures After(c, a + b) == After(After(c, a), b)
  {
    WholeBlocksSum(|a|, |b|);
    BlocksSplit(c.past, c.enc, a, b);
    Associative(c.past, a, b);
  }

  /** Two encryptions in a row are one, cut where the first ends, if the first is a whole number of words. */
  lemma EncryptSplit(c: Cipher, a: seq<byte>, b: seq<byte>)
    requires |a| % 4 == 0 && Accepts(c, |a|) && Accepts(c, |b|)
    ensures Accepts(c, |a + b|)
    ensures Encrypt(c, a + b) == Encrypt(c, a) + Encrypt(After(c, a), b)
    ensures After(c, a + b) == After(After(c, a), b)
  {
    if c.WordStream? {
      StreamSplit(c, a, b);
    } else {
      BlockSplit(c, a, b);
    }
  }

  /** Decryption from the same state gives the plaintext back. */
  lemma {:induction false} DecryptEncrypt(c: Cipher, d: seq<byte>)
    requires Lawful(c) && Accepts(c, |d|)
    ensures Decrypt(c, Encrypt(c, d)) == d
    decreases |d|
  {
    match c
    case WordStream(pos, key) =>
      var e := Mix(pos, key, d);
      forall i | 0 <= i < |d| ensures Mix(pos, key, e)[i] == d[i] {
        XorTwice(d[i], key(pos + i / 4, i % 4));
      }
    case BlockCipher(past, enc, dec) =>
      if d != [] {
        var head := d[..8];
        DecryptEncrypt(After(c, head), d[8..]);
        var e := enc(past, head);
        var rest: seq<byte> := EncBlocks(past + head, enc, d[8..]);
        var whole: seq<byte> := e + rest;
        assert whole[..8] == e && whole[8..] == rest;
        assert d == head + d[8..];
      }
  }

  /**
   The receiver rounds a ciphertext up to whole words with zeros, decrypts, and cuts back. For a keystream that is
   decryption of the unpadded text, and it leaves the keystream at the same word.
   */
  lemma PaddedDecrypt(c: Cipher, d: seq<byte>, pad: nat)
    requires c.WordStream? && |d| + pad == RoundUp(|d|, 4)
    ensures Decrypt(c, d + Zeros(pad))[..|d|] == Decrypt(c, d)
    ensures After(c, Decrypt(c, d + Zeros(pad))) == After(c, d)
  {
    WordsRoundUp(|d|);
  }

  lemma {:induction false} WordsRoundUp(n: nat)
    ensures RoundUp(n, 4) == 4 * Words(n)
  {
    if n > 4 {
      WordsRoundUp(n - 4);
    }
  }
}
