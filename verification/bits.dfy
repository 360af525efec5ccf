/** Binary digits of natural numbers: the bit test used by `tobin`
    (tobin/src/main.rs), strings of '0'/'1' digits, and their value read in
    base 2. */
module BinaryDigits {

  function Pow2(n: nat): (r: nat)
    ensures r >= 1
  {
    if n == 0 then 1 else 2 * Pow2(n - 1)
  }

  /** Bit `i` of `v` is set: the test `v & (1 << i) > 0`. */
  predicate Bit(v: nat, i: nat) {
    (v / Pow2(i)) % 2 == 1
  }

  function Digit(b: bool): char {
    if b then '1' else '0'
  }

  predicate IsBinary(s: string) {
    forall k :: 0 <= k < |s| ==> s[k] == '0' || s[k] == '1'
  }

  /** The low `n` bits of `v`, most significant first. */
  function Bits(v: nat, n: nat): (s: string)
    ensures |s| == n
    ensures IsBinary(s)
  {
    if n == 0 then [] else [Digit(Bit(v, n - 1))] + Bits(v, n - 1)
  }

  /** Digit `k` of `Bits(v, n)` is bit `n - 1 - k` of `v`. */
  lemma {:induction false} BitsDigit(v: nat, n: nat, k: nat)
    requires k < n
    ensures Bits(v, n)[k] == Digit(Bit(v, n - 1 - k))
    decreases n
  {
    if k > 0 {
      BitsDigit(v, n - 1, k - 1);
    }
  }

  /** The value of a string of binary digits, most significant first. */
  function Decode(s: string): nat {
    if |s| == 0 then 0
    else 2 * Decode(s[..|s| - 1]) + (if s[|s| - 1] == '1' then 1 else 0)
  }

  lemma Pow2Add(a: nat, b: nat)
    ensures Pow2(a + b) == Pow2(a) * Pow2(b)
  {
    if b > 0 {
      Pow2Add(a, b - 1);
      assert Pow2(a + b) == 2 * Pow2(a + b - 1);
    }
  }

  lemma Pow2Values()
    ensures Pow2(8) == 256
    ensures Pow2(128) == 0x1_0000_0000_0000_0000_0000_0000_0000_0000
  {
    assert Pow2(8) == 256;
    Pow2Square(8, 256, 16);
    Pow2Square(16, 0x1_0000, 32);
    Pow2Square(32, 0x1_0000_0000, 64);
    Pow2Square(64, 0x1_0000_0000_0000_0000, 128);
  }

  /** Doubling the exponent squares the power. */
  lemma Pow2Square(a: nat, p: nat, b: nat)
    requires Pow2(a) == p && b == 2 * a
    ensures Pow2(b) == p * p
  {
    Pow2Add(a, a);
  }

  /** Quotient and remainder are determined by the division equation. */
  lemma DivModUnique(x: int, d: int, q: int, r: int)
    requires d > 0 && 0 <= r < d && x == d * q + r
    ensures x / d == q && x % d == r
  {
    var q', r' := x / d, x % d;
    var k := q - q';
    assert d * k == r' - r;
    if k >= 1 {
      MulAtLeast(d, k);
    } else if k <= -1 {
      MulAtLeast(d, -k);
    }
  }

  lemma {:induction false} MulAtLeast(d: int, k: int)
    requires d > 0 && k >= 1
    ensures d * k >= d
    decreases k
  {
    if k > 1 {
      MulAtLeast(d, k - 1);
      assert d * k == d * (k - 1) + d;
    }
  }

  /** The remainder modulo `2p` is bit `p` of the quotient, scaled, plus the
      remainder modulo `p`. */
  lemma ModDouble(v: nat, p: nat)
    requires p > 0
    ensures v % (2 * p) == ((v / p) % 2) * p + v % p
  {
    var q := v / p;
    var r := v % p;
    assert v == p * q + r;
    assert q == 2 * (q / 2) + q % 2;
    assert p * q == (2 * p) * (q / 2) + p * (q % 2);
    assert p * (q % 2) <= p;
    DivModUnique(v, 2 * p, q / 2, p * (q % 2) + r);
  }

  lemma {:induction false} DecodeAppend(a: string, b: string)
    ensures Decode(a + b) == Decode(a) * Pow2(|b|) + Decode(b)
    decreases |b|
  {
    if |b| > 0 {
      var b' := b[..|b| - 1];
      assert (a + b)[..|a + b| - 1] == a + b';
      DecodeAppend(a, b');
      assert Decode(a) * Pow2(|b|) == 2 * (Decode(a) * Pow2(|b'|));
    } else {
      assert a + b == a;
    }
  }

  lemma {:induction false} DecodeBound(s: string)
    ensures Decode(s) < Pow2(|s|)
    decreases |s|
  {
    if |s| > 0 {
      DecodeBound(s[..|s| - 1]);
    }
  }

  /** The digits of `Bits(v, n)` read back give `v` modulo 2^n. */
  lemma {:induction false} DecodeBits(v: nat, n: nat)
    ensures Decode(Bits(v, n)) == v % Pow2(n)
  {
    if n > 0 {
      var rest := Bits(v, n - 1);
      assert Bits(v, n) == [Digit(Bit(v, n - 1))] + rest;
      DecodeAppend([Digit(Bit(v, n - 1))], rest);
      assert Decode([Digit(Bit(v, n - 1))]) == (v / Pow2(n - 1)) % 2 by {
        assert [Digit(Bit(v, n - 1))][..0] == [];
      }
      DecodeBits(v, n - 1);
      ModDouble(v, Pow2(n - 1));
    }
  }

  /** Two binary strings of one length with the same value are equal. */
  lemma {:induction false} DecodeInjective(a: string, b: string)
    requires |a| == |b| && IsBinary(a) && IsBinary(b)
    requires Decode(a) == Decode(b)
    ensures a == b
    decreases |a|
  {
    if |a| > 0 {
      var a', b' := a[..|a| - 1], b[..|b| - 1];
      assert a[|a| - 1] == b[|b| - 1];
      DecodeInjective(a', b');
      assert a == a' + [a[|a| - 1]] && b == b' + [b[|b| - 1]];
    }
  }

  /** A string of zeros has value zero. */
  lemma {:induction false} DecodeZeros(s: string)
    requires forall k :: 0 <= k < |s| ==> s[k] == '0'
    ensures Decode(s) == 0
    decreases |s|
  {
    if |s| > 0 {
      DecodeZeros(s[..|s| - 1]);
    }
  }
}
