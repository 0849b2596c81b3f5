/**
 The rolling hash of three bytes: UPDATE_HASH and the choice of H_SHIFT.
 */
module Hash {
  import opened Bits

  const MIN_HASH_BITS: nat := 8

  /** H_SHIFT: three shifts move a byte out of the hash. */
  function Shift(bits: nat): nat
  {
    (bits + 2) / 3
  }

  function Update(bits: nat, h: nat, c: byte): (r: nat)
    ensures r < Pow2(bits)
  {
    Low(bits, Xor(Shl(h, Shift(bits)), c))
  }

  function Low(bits: nat, v: nat): (r: nat)
    ensures r < Pow2(bits)
  {
    ModLess(v, Pow2(bits));
    v % Pow2(bits)
  }

  function Hash3(bits: nat, a: byte, b: byte, c: byte): (r: nat)
    ensures r < Pow2(bits)
  {
    Update(bits, Update(bits, Update(bits, 0, a), b), c)
  }

  lemma MulMod(h: nat, p: nat, q: nat)
    requires p > 0 && q > 0
    ensures p * q > 0 && (h * q) % (p * q) == (h % p) * q
  {
    var d, r := h / p, h % p;
    assert h == d * p + r;
    Spread(d, p, r, q);
    Below(r, p, q);
    DivUnique(h * q, p * q, d, r * q);
  }

  lemma Spread(d: nat, p: nat, r: nat, q: nat)
    ensures (d * p + r) * q == d * (p * q) + r * q
  {}

  lemma Below(r: nat, p: nat, q: nat)
    requires r < p && q > 0
    ensures r * q < p * q
  {}

  lemma ShlMod(h: nat, k: nat, s: nat)
    ensures Shl(h, s) % Pow2(k + s) == Shl(h % Pow2(k), s)
  {
    hide Pow2;
    Pow2Add(k, s);
    MulMod(h, Pow2(k), Pow2(s));
  }

  lemma LowLow(bits: nat, v: nat, n: nat)
    requires n <= bits
    ensures Low(n, Low(bits, v)) == Low(n, v)
  {
    hide Pow2;
    ModMod(v, bits, n);
  }

  lemma XorSame(x: nat, y: nat, c: nat, n: nat)
    requires Low(n, x) == Low(n, y)
    ensures Low(n, Xor(x, c)) == Low(n, Xor(y, c))
  {
    hide Xor, Pow2;
    XorLow(x, c, n);
    XorLow(y, c, n);
  }

  /** Two hashes that agree on k bits agree on more bits after the same byte. */
  lemma Agree(bits: nat, h: nat, g: nat, c: byte, k: nat, n: nat)
    requires Low(k, h) == Low(k, g) && n <= k + Shift(bits) && n <= bits
    ensures Low(n, Update(bits, h, c)) == Low(n, Update(bits, g, c))
  {
    hide Xor, Pow2, Low, Shl;
    var s := Shift(bits);
    ShlSame(h, g, k, s);
    LowLow(k + s, Shl(h, s), n);
    LowLow(k + s, Shl(g, s), n);
    XorSame(Shl(h, s), Shl(g, s), c, n);
    LowLow(bits, Xor(Shl(h, s), c), n);
    LowLow(bits, Xor(Shl(g, s), c), n);
  }

  lemma ShlSame(h: nat, g: nat, k: nat, s: nat)
    requires Low(k, h) == Low(k, g)
    ensures Low(k + s, Shl(h, s)) == Low(k + s, Shl(g, s))
  {
    hide Pow2, Shl;
    ShlMod(h, k, s);
    ShlMod(g, k, s);
  }

  lemma LowIdentity(bits: nat, v: nat)
    requires v < Pow2(bits)
    ensures Low(bits, v) == v
  {
    hide Pow2;
    DivUnique(v, Pow2(bits), 0, v);
  }

  lemma LowNone(v: nat)
    ensures Low(0, v) == 0
  {}

  /** The hash after three bytes depends on those bytes only. */
  lemma ThreeBytes(bits: nat, h: nat, a: byte, b: byte, c: byte)
    ensures Update(bits, Update(bits, Update(bits, h, a), b), c) == Hash3(bits, a, b, c)
  {
    hide Xor, Pow2, Low, Shl, Update;
    var s := Shift(bits);
    LowNone(h);
    LowNone(0);
    var one := if s <= bits then s else bits;
    Agree(bits, h, 0, a, 0, one);
    var two := if 2 * s <= bits then 2 * s else bits;
    Agree(bits, Update(bits, h, a), Update(bits, 0, a), b, one, two);
    Agree(bits, Update(bits, Update(bits, h, a), b), Update(bits, Update(bits, 0, a), b), c, two, bits);
    LowIdentity(bits, Update(bits, Update(bits, Update(bits, h, a), b), c));
    LowIdentity(bits, Hash3(bits, a, b, c));
  }

  /** Equal hashes and equal first two bytes force the third to be equal. */
  lemma ThirdByte(bits: nat, a: byte, b: byte, c: byte, d: byte)
    requires MIN_HASH_BITS <= bits && Hash3(bits, a, b, c) == Hash3(bits, a, b, d)
    ensures c == d
  {
    hide Xor, Pow2, Shl;
    Pow2Mono(8, bits);
    Pow2Values();
    XorCancel(Shl(Update(bits, Update(bits, 0, a), b), Shift(bits)), c, d, bits);
  }
}
