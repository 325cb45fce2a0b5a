/**
 Bytes, fixed-width integer fields and the small vocabulary shared by the other modules.
 Bytes are integers, so that header arithmetic stays linear.
 */
module Bytes {

  type byte = x: int | 0 <= x < 256
  type u16 = x: int | 0 <= x < 0x1_0000
  type u32 = x: int | 0 <= x < 0x1_0000_0000
  type u64 = x: int | 0 <= x < 0x1_0000_0000_0000_0000

  datatype Option<+T> = None | Some(value: T)

  datatype Result<+T, +E> = Ok(value: T) | Err(error: E)

  /** The least multiple of `a` that is at least `n`: what `(n + a - 1) & ~(a - 1)` computes for `a` a power of two. */
  function RoundUp(n: nat, a: nat): (r: nat)
    requires a > 0
    ensures n <= r < n + a
  {
    if n == 0 then 0 else if n <= a then a else a + RoundUp(n - a, a)
  }

  lemma ModPeriod(x: nat, a: nat)
    requires a > 0
    ensures (x + a) % a == x % a
  {
    var d := (x + a) / a - x / a - 1;
    assert a * d == x % a - (x + a) % a;
    NonzeroMultiple(a, d);
  }

  lemma NonzeroMultiple(a: int, d: int)
    requires a > 0
    ensures d == 0 || a * d >= a || a * d <= -a
  {
  }

  lemma {:induction false} RoundUpExact(n: nat, a: nat)
    requires a > 0
    ensures RoundUp(n, a) % a == 0
    ensures RoundUp(n, a) == n <==> n % a == 0
  {
    if n >= a {
      RoundUpExact(n - a, a);
      ModPeriod(n - a, a);
      ModPeriod(RoundUp(n - a, a), a);
    }
  }

  function Zeros(n: nat): (s: seq<byte>)
    ensures |s| == n && forall i :: 0 <= i < n ==> s[i] == 0
  {
    seq(n, _ => 0)
  }

  /** The unsplit stream that a list of blocks carries. */
  function Flatten(blocks: seq<seq<byte>>): seq<byte> {
    if blocks == [] then [] else blocks[0] + Flatten(blocks[1..])
  }

  lemma {:induction false} FlattenAppend(a: seq<seq<byte>>, b: seq<seq<byte>>)
    ensures Flatten(a + b) == Flatten(a) + Flatten(b)
  {
    if a == [] {
      assert a + b == b;
    } else {
      FlattenAppend(a[1..], b);
      assert (a + b)[1..] == a[1..] + b;
      assert a[0] + (Flatten(a[1..]) + Flatten(b)) == a[0] + Flatten(a[1..]) + Flatten(b);
    }
  }

  lemma Associative(a: seq<byte>, b: seq<byte>, c: seq<byte>)
    ensures a + b + c == a + (b + c)
  {
  }

  // ---- integer fields ----

  function Le(v: nat, width: nat): (s: seq<byte>)
    ensures |s| == width
  {
    if width == 0 then [] else [v % 256] + Le(v / 256, width - 1)
  }

  function FromLe(s: seq<byte>): nat {
    if s == [] then 0 else s[0] + 256 * FromLe(s[1..])
  }

  function Be(v: nat, width: nat): (s: seq<byte>)
    ensures |s| == width
  {
    if width == 0 then [] else Be(v / 256, width - 1) + [v % 256]
  }

  function FromBe(s: seq<byte>): nat {
    if s == [] then 0 else FromBe(s[..|s| - 1]) * 256 + s[|s| - 1]
  }

  function Pow256(k: nat): (r: nat)
    ensures r > 0
  {
    if k == 0 then 1 else 256 * Pow256(k - 1)
  }

  lemma {:induction false} LeRoundTrip(v: nat, width: nat)
    requires v < Pow256(width)
    ensures FromLe(Le(v, width)) == v
  {
    if width > 0 {
      LeRoundTrip(v / 256, width - 1);
      assert Le(v, width)[1..] == Le(v / 256, width - 1);
    }
  }

  lemma {:induction false} FromLeRange(s: seq<byte>)
    ensures FromLe(s) < Pow256(|s|)
  {
    if s != [] {
      FromLeRange(s[1..]);
    }
  }

  lemma {:induction false} FromLeRoundTrip(s: seq<byte>)
    ensures Le(FromLe(s), |s|) == s
  {
    if s != [] {
      FromLeRoundTrip(s[1..]);
      assert FromLe(s) / 256 == FromLe(s[1..]) && FromLe(s) % 256 == s[0];
    }
  }

  lemma {:induction false} BeRoundTrip(v: nat, width: nat)
    requires v < Pow256(width)
    ensures FromBe(Be(v, width)) == v
  {
    if width > 0 {
      BeRoundTrip(v / 256, width - 1);
      assert Be(v, width)[..width - 1] == Be(v / 256, width - 1);
    }
  }

  lemma PowersOf256()
    ensures Pow256(1) == 0x100 && Pow256(2) == 0x1_0000 && Pow256(4) == 0x1_0000_0000
    ensures Pow256(8) == 0x1_0000_0000_0000_0000
  {
    assert Pow256(3) == 0x100_0000;
    assert Pow256(5) == 0x100_0000_0000;
    assert Pow256(6) == 0x1_0000_0000_0000;
    assert Pow256(7) == 0x100_0000_0000_0000;
  }

  // ---- exclusive or, bit by bit ----

  function XorBits(n: nat, a: nat, b: nat): nat {
    if n == 0 then 0
    else (if a % 2 == b % 2 then 0 else 1) + 2 * XorBits(n - 1, a / 2, b / 2)
  }

  function Pow2(n: nat): (r: nat)
    ensures r > 0
  {
    if n == 0 then 1 else 2 * Pow2(n - 1)
  }

  lemma {:induction false} XorBitsRange(n: nat, a: nat, b: nat)
    ensures XorBits(n, a, b) < Pow2(n)
  {
    if n > 0 {
      XorBitsRange(n - 1, a / 2, b / 2);
    }
  }

  lemma {:induction false} XorBitsTwice(n: nat, a: nat, b: nat)
    requires a < Pow2(n)
    ensures XorBits(n, XorBits(n, a, b), b) == a
  {
    if n > 0 {
      XorBitsTwice(n - 1, a / 2, b / 2);
      var x := XorBits(n, a, b);
      assert x / 2 == XorBits(n - 1, a / 2, b / 2);
    }
  }

  function Xor(a: byte, b: byte): byte {
    XorBitsRange(8, a, b);
    assert Pow2(8) == 256;
    XorBits(8, a, b)
  }

  lemma XorTwice(a: byte, b: byte)
    ensures Xor(Xor(a, b), b) == a
  {
    assert Pow2(8) == 256;
    XorBitsTwice(8, a, b);
  }
}
