/**
 Unsigned machine arithmetic on natural numbers, and bit strings written
 least significant bit first.  Shifts, `|` and `^` are defined by their bits,
 so that the C expressions keep their meaning for every width.
 */
module Bits {

  type byte = x: int | 0 <= x < 256

  function Pow2(n: nat): (r: nat)
    ensures r >= 1
  {
    if n == 0 then 1 else 2 * Pow2(n - 1)
  }

  lemma {:induction false} Pow2Add(a: nat, b: nat)
    ensures Pow2(a + b) == Pow2(a) * Pow2(b)
  {
    if a > 0 {
      Pow2Add(a - 1, b);
    }
  }

  lemma {:induction false} Pow2Mono(a: nat, b: nat)
    requires a <= b
    ensures Pow2(a) <= Pow2(b)
    ensures a < b ==> 2 * Pow2(a) <= Pow2(b)
  {
    if a < b {
      Pow2Mono(a, b - 1);
    }
  }

  lemma Pow2Values()
    ensures Pow2(1) == 2 && Pow2(2) == 4 && Pow2(3) == 8 && Pow2(4) == 16 && Pow2(5) == 32
    ensures Pow2(6) == 64 && Pow2(7) == 128 && Pow2(8) == 256 && Pow2(15) == 0x8000 && Pow2(16) == 0x10000
  {
    Pow2Add(8, 8);
    Pow2Add(7, 8);
    assert Pow2(4) == 2 * Pow2(3);
    assert Pow2(5) == 2 * Pow2(4);
    assert Pow2(6) == 2 * Pow2(5);
    assert Pow2(7) == 2 * Pow2(6);
    assert Pow2(8) == 2 * Pow2(7);
  }

  /** The C expression `v << n` on an unbounded unsigned value. */
  function Shl(v: nat, n: nat): nat { v * Pow2(n) }

  /** The C expression `v >> n`. */
  function Shr(v: nat, n: nat): nat { Quotient(v, Pow2(n)) }

  function Quotient(v: nat, d: nat): nat
    requires d > 0
  {
    v / d
  }

  /** Conversion to a 16-bit unsigned type. */
  function U16(v: nat): (r: nat)
    ensures r < 0x10000
    ensures v < 0x10000 ==> r == v
  {
    v % 0x10000
  }

  /** The C expression `a | b`, bit by bit. */
  function Or(a: nat, b: nat): nat
    decreases a + b
  {
    if a == 0 && b == 0 then 0
    else (if a % 2 == 1 || b % 2 == 1 then 1 else 0) + 2 * Or(a / 2, b / 2)
  }

  /** The C expression `a ^ b`, bit by bit. */
  function Xor(a: nat, b: nat): nat
    decreases a + b
  {
    if a == 0 && b == 0 then 0
    else (if a % 2 != b % 2 then 1 else 0) + 2 * Xor(a / 2, b / 2)
  }

  /** The low n bits of v, least significant first. */
  function BitsOf(v: nat, n: nat): (s: seq<bool>)
    ensures |s| == n
  {
    if n == 0 then [] else [v % 2 == 1] + BitsOf(v / 2, n - 1)
  }

  /** The number a least-significant-first bit string stands for. */
  function ValueOf(s: seq<bool>): (v: nat)
    ensures v < Pow2(|s|)
  {
    if s == [] then 0 else (if s[0] then 1 else 0) + 2 * ValueOf(s[1..])
  }

  lemma {:induction false} ValueOfBitsOf(v: nat, n: nat)
    requires v < Pow2(n)
    ensures ValueOf(BitsOf(v, n)) == v
  {
    if n > 0 {
      ValueOfBitsOf(v / 2, n - 1);
      assert BitsOf(v, n)[1..] == BitsOf(v / 2, n - 1);
    }
  }

  lemma {:induction false} BitsOfValueOf(s: seq<bool>)
    ensures BitsOf(ValueOf(s), |s|) == s
  {
    if s != [] {
      BitsOfValueOf(s[1..]);
      var v := ValueOf(s);
      assert v / 2 == ValueOf(s[1..]);
      assert s == [s[0]] + s[1..];
    }
  }

  /** Joining two fields: the low n bits are a, the next m bits are b. */
  lemma {:induction false} BitsOfJoin(a: nat, n: nat, b: nat, m: nat)
    requires a < Pow2(n)
    ensures BitsOf(a + b * Pow2(n), n + m) == BitsOf(a, n) + BitsOf(b, m)
  {
    if n == 0 {
    } else {
      var q := b * Pow2(n - 1);
      assert b * Pow2(n) == 2 * q;
      assert (a + 2 * q) / 2 == a / 2 + q && (a + 2 * q) % 2 == a % 2;
      BitsOfJoin(a / 2, n - 1, b, m);
      calc {
        BitsOf(a + b * Pow2(n), n + m);
        [a % 2 == 1] + BitsOf(a / 2 + q, n - 1 + m);
        [a % 2 == 1] + (BitsOf(a / 2, n - 1) + BitsOf(b, m));
        BitsOf(a, n) + BitsOf(b, m);
      }
    }
  }

  /** Dropping low bits of a value drops them from its bit string. */
  lemma {:induction false} BitsOfShift(v: nat, n: nat, k: nat)
    requires k <= n
    ensures BitsOf(v, n)[..k] == BitsOf(v, k)
    ensures BitsOf(v, n)[k..] == BitsOf(Shr(v, k), n - k)
  {
    if k > 0 {
      BitsOfShift(v / 2, n - 1, k - 1);
      DivDiv(v, k);
      BitsOfCons(v, n);
      BitsOfCons(v, k);
    }
  }

  lemma BitsOfCons(v: nat, n: nat)
    requires n > 0
    ensures BitsOf(v, n) == [v % 2 == 1] + BitsOf(v / 2, n - 1)
  {}

  lemma DivDiv(v: nat, k: nat)
    requires k > 0
    ensures Shr(v / 2, k - 1) == Shr(v, k)
  {
    var p := Pow2(k - 1);
    var q := v / 2 / p;
    var r := v / 2 % p;
    assert v / 2 == q * p + r;
    assert v == q * (2 * p) + (2 * r + v % 2);
    DivUnique(v, 2 * p, q, 2 * r + v % 2);
  }

  lemma MulAtLeast(k: int, d: nat)
    requires k >= 1
    ensures k * d >= d
  {}

  lemma DivUnique(v: nat, d: nat, q: nat, r: nat)
    requires d > 0 && r < d && v == q * d + r
    ensures v / d == q && v % d == r
  {
    var q' := v / d;
    var r' := v % d;
    assert v == q' * d + r' && 0 <= r' < d;
    assert (q - q') * d == r' - r;
    assert (q' - q) * d == r - r';
    if q > q' {
      MulAtLeast(q - q', d);
    } else if q < q' {
      MulAtLeast(q' - q, d);
    }
  }

  /** Bits beyond the field do not matter. */
  lemma {:induction false} BitsOfMod(v: nat, n: nat)
    ensures BitsOf(v % Pow2(n), n) == BitsOf(v, n)
  {
    hide Pow2;
    ModLess(v, Pow2(n));
    BitsOfJoin(v % Pow2(n), n, Quotient(v, Pow2(n)), 0);
  }

  lemma ModLess(v: nat, p: nat)
    requires p > 0
    ensures 0 <= v % p < p && v == v % p + v / p * p
  {}

  /** `a | (b << n)` with a below 2^n is the sum of both fields. */
  lemma {:induction false} OrDisjoint(a: nat, b: nat, n: nat)
    requires a < Pow2(n)
    ensures Or(a, Shl(b, n)) == a + b * Pow2(n)
  {
    if n == 0 {
      OrZero(b);
    } else {
      var q := b * Pow2(n - 1);
      assert Shl(b, n) == 2 * q;
      OrDisjoint(a / 2, b, n - 1);
      if a == 0 && q == 0 {
      } else {
        assert 2 * q / 2 == q && 2 * q % 2 == 0;
        assert Or(a, 2 * q) == (if a % 2 == 1 then 1 else 0) + 2 * Or(a / 2, q);
      }
    }
  }

  lemma {:induction false} OrZero(b: nat)
    ensures Or(0, b) == b
  {
    if b > 0 {
      OrZero(b / 2);
    }
  }

  lemma {:induction false} XorLow(a: nat, b: nat, n: nat)
    ensures Xor(a, b) % Pow2(n) == Xor(a % Pow2(n), b % Pow2(n)) % Pow2(n)
  {
    if n > 0 {
      XorLow(a / 2, b / 2, n - 1);
      ModHalf(a, n);
      ModHalf(b, n);
      XorHalf(a, b);
      XorHalf(a % Pow2(n), b % Pow2(n));
      ModHalf(Xor(a, b), n);
      ModHalf(Xor(a % Pow2(n), b % Pow2(n)), n);
    }
  }

  lemma XorHalf(a: nat, b: nat)
    ensures Xor(a, b) / 2 == Xor(a / 2, b / 2)
    ensures Xor(a, b) % 2 == (if a % 2 != b % 2 then 1 else 0)
  {}

  lemma ModHalf(a: nat, n: nat)
    requires n > 0
    ensures a % Pow2(n) / 2 == a / 2 % Pow2(n - 1)
    ensures a % Pow2(n) % 2 == a % 2
    ensures a % Pow2(n) == a % 2 + 2 * (a / 2 % Pow2(n - 1))
  {
    var p := Pow2(n - 1);
    var q := a / 2 / p;
    ModLess(a / 2, p);
    assert a == q * (2 * p) + (a % 2 + 2 * (a / 2 % p));
    DivUnique(a, 2 * p, q, a % 2 + 2 * (a / 2 % p));
  }

  /** Xor with a fixed left operand is injective on the low n bits. */
  lemma {:induction false} XorCancel(x: nat, b: nat, c: nat, n: nat)
    requires b < Pow2(n) && c < Pow2(n)
    requires Xor(x, b) % Pow2(n) == Xor(x, c) % Pow2(n)
    ensures b == c
  {
    if n > 0 {
      XorHalf(x, b);
      XorHalf(x, c);
      ModHalf(Xor(x, b), n);
      ModHalf(Xor(x, c), n);
      XorCancel(x / 2, b / 2, c / 2, n - 1);
    }
  }

  lemma ModMod(v: nat, n: nat, m: nat)
    requires m <= n
    ensures v % Pow2(n) % Pow2(m) == v % Pow2(m)
  {
    Pow2Add(m, n - m);
    ModProduct(v, Pow2(m), Pow2(n - m));
  }

  lemma ModProduct(v: nat, p: nat, q: nat)
    requires p > 0 && q > 0 && p * q > 0
    ensures v % (p * q) % p == v % p
  {
    var d := p * q;
    var r := v % d;
    var t := v / d;
    ModLess(v, d);
    ModLess(r, p);
    var k := t * q + r / p;
    assert v == k * p + r % p by {
      assert t * q * p == t * d;
      assert k * p == t * q * p + r / p * p;
    }
    DivUnique(v, p, k, r % p);
  }

  /** The bit string of a byte string, each byte least significant bit first. */
  function BytesBits(bs: seq<byte>): (s: seq<bool>)
    ensures |s| == 8 * |bs|
  {
    if bs == [] then [] else BitsOf(bs[0], 8) + BytesBits(bs[1..])
  }

  lemma {:induction false} BytesBitsConcat(a: seq<byte>, b: seq<byte>)
    ensures BytesBits(a + b) == BytesBits(a) + BytesBits(b)
  {
    hide BitsOf;
    if a == [] {
      assert a + b == b;
    } else {
      BytesBitsConcat(a[1..], b);
      assert (a + b)[1..] == a[1..] + b;
    }
  }
}
