/**
 The 32-bit FNV-1a hash of hashmap.c.
 A C string is a `string` in which one character stands for one byte; the
 hash of a key is defined from its last byte backwards, the loop that
 computes it runs forwards.
 */
module Fnv {
  const FNV_PRIME: nat := 0x01000193
  const FNV_SEED: nat := 0x811C9DC5
  const PRIME_INVERSE: nat := 0x359C449B
  const TWO_TO_THE_32: nat := 0x1_0000_0000

  type UInt32 = n: nat | n < TWO_TO_THE_32

  function Pow2(n: nat): (p: nat)
    ensures p > 0
  {
    if n == 0 then 1 else 2 * Pow2(n - 1)
  }

  /** Bitwise exclusive or of the low `bits` bits of two numbers. */
  function Xor(a: nat, b: nat, bits: nat): (r: nat)
    ensures r < Pow2(bits)
  {
    if bits == 0 then 0 else (a % 2 + b % 2) % 2 + 2 * Xor(a / 2, b / 2, bits - 1)
  }

  function ByteOf(c: char): (b: nat)
    ensures b < 256
  {
    c as int % 256
  }

  /** Mixes one byte into the hash, with the wrap-around of an unsigned 32-bit multiplication. */
  function Fnv1a(b: nat, h: UInt32): UInt32 {
    (Xor(b, h, 32) * FNV_PRIME) % TWO_TO_THE_32
  }

  function Hash(key: string): UInt32 {
    if key == [] then FNV_SEED else Fnv1a(ByteOf(key[|key| - 1]), Hash(key[..|key| - 1]))
  }

  method Fnv1aHash(str: string) returns (hash: UInt32)
    ensures hash == Hash(str)
  {
    hash := FNV_SEED;
    var i := 0;
    while i < |str|
      invariant 0 <= i <= |str|
      invariant hash == Hash(str[..i])
    {
      assert str[..i + 1][..i] == str[..i];
      hash := Fnv1a(ByteOf(str[i]), hash);
      i := i + 1;
    }
    assert str[..i] == str;
  }

  lemma {:induction false} XorInvolution(a: nat, b: nat, bits: nat)
    requires b < Pow2(bits)
    ensures Xor(a, Xor(a, b, bits), bits) == b
  {
    hide Xor;
    if bits > 0 {
      XorHalves(a, b, bits);
      XorHalves(a, Xor(a, b, bits), bits);
      XorInvolution(a / 2, b / 2, bits - 1);
      BitInvolution(a % 2, b % 2);
    }
  }

  /** The `i`-th binary digit of `n`. */
  function Bit(n: nat, i: nat): nat {
    n / Pow2(i) % 2
  }

  /** Every bit of the result is the exclusive or of the bits of the arguments. */
  lemma {:induction false} XorBit(a: nat, b: nat, bits: nat, i: nat)
    requires i < bits
    ensures Bit(Xor(a, b, bits), i) == if Bit(a, i) == Bit(b, i) then 0 else 1
  {
    hide Xor;
    XorHalves(a, b, bits);
    if i > 0 {
      XorBit(a / 2, b / 2, bits - 1, i - 1);
      BitOfHalf(a, i);
      BitOfHalf(b, i);
      BitOfHalf(Xor(a, b, bits), i);
    }
  }

  lemma BitOfHalf(n: nat, i: nat)
    requires i > 0
    ensures Bit(n, i) == Bit(n / 2, i - 1)
  {
    HalfDivision(n, Pow2(i - 1));
  }

  lemma HalfDivision(n: nat, p: nat)
    requires p > 0
    ensures n / (2 * p) == n / 2 / p
  {
    var q, r := n / (2 * p), n % (2 * p);
    assert n == 2 * p * q + r;
    assert n / 2 == p * q + r / 2;
    assert 0 <= r / 2 < p;
    DivisionUnique(n / 2, p, q, r / 2);
  }

  lemma DivisionUnique(n: nat, p: nat, q: nat, r: nat)
    requires r < p && n == p * q + r
    ensures n / p == q
  {
    assert n - p * q == r;
    var d := n / p;
    assert d < q ==> p * (d + 1) <= p * q;
    assert d > q ==> p * (q + 1) <= p * d;
  }

  lemma XorHalves(a: nat, b: nat, bits: nat)
    requires bits > 0
    ensures Xor(a, b, bits) % 2 == (a % 2 + b % 2) % 2 && Xor(a, b, bits) / 2 == Xor(a / 2, b / 2, bits - 1)
  {
  }

  lemma BitInvolution(a: nat, b: nat)
    requires a < 2 && b < 2
    ensures (a + (a + b) % 2) % 2 == b
  {
  }

  lemma {:induction false} XorCommutes(a: nat, b: nat, bits: nat)
    ensures Xor(a, b, bits) == Xor(b, a, bits)
  {
    if bits > 0 {
      XorCommutes(a / 2, b / 2, bits - 1);
    }
  }

  lemma WordSize()
    ensures Pow2(32) == TWO_TO_THE_32
  {
    assert Pow2(8) == 0x100;
    assert Pow2(16) == 0x1_0000;
    assert Pow2(24) == 0x100_0000;
  }

  /** The prime is odd, so multiplying by it modulo 2^32 can be undone. */
  lemma PrimeInvertible(x: UInt32)
    ensures ((x * FNV_PRIME) % TWO_TO_THE_32 * PRIME_INVERSE) % TWO_TO_THE_32 == x
  {
    var q, r := (x * FNV_PRIME) / TWO_TO_THE_32, (x * FNV_PRIME) % TWO_TO_THE_32;
    assert r == x * FNV_PRIME - q * TWO_TO_THE_32;
    var k := (FNV_PRIME * PRIME_INVERSE) / TWO_TO_THE_32;
    assert FNV_PRIME * PRIME_INVERSE == k * TWO_TO_THE_32 + 1;
    assert r * PRIME_INVERSE == x + TWO_TO_THE_32 * (x * k - q * PRIME_INVERSE);
  }

  lemma StepInjectiveInState(b: nat, g: UInt32, h: UInt32)
    ensures Fnv1a(b, g) == Fnv1a(b, h) <==> g == h
  {
    if Fnv1a(b, g) == Fnv1a(b, h) {
      WordSize();
      PrimeInvertible(Xor(b, g, 32));
      PrimeInvertible(Xor(b, h, 32));
      XorInvolution(b, g, 32);
      XorInvolution(b, h, 32);
    }
  }

  lemma StepInjectiveInByte(b: nat, c: nat, h: UInt32)
    requires b < 256 && c < 256
    ensures Fnv1a(b, h) == Fnv1a(c, h) <==> b == c
  {
    if Fnv1a(b, h) == Fnv1a(c, h) {
      WordSize();
      PrimeInvertible(Xor(b, h, 32));
      PrimeInvertible(Xor(c, h, 32));
      XorCommutes(b, h, 32);
      XorCommutes(c, h, 32);
      XorInvolution(h, b, 32);
      XorInvolution(h, c, 32);
    }
  }

  /** Two keys with the same ending collide exactly when what comes before it collides. */
  lemma {:induction false} CommonSuffixCollision(s: string, t: string, suffix: string)
    ensures Hash(s + suffix) == Hash(t + suffix) <==> Hash(s) == Hash(t)
  {
    if suffix == [] {
      assert s + suffix == s && t + suffix == t;
    } else {
      var last := |suffix| - 1;
      assert (s + suffix)[..|s + suffix| - 1] == s + suffix[..last];
      assert (t + suffix)[..|t + suffix| - 1] == t + suffix[..last];
      StepInjectiveInState(ByteOf(suffix[last]), Hash(s + suffix[..last]), Hash(t + suffix[..last]));
      CommonSuffixCollision(s, t, suffix[..last]);
    }
  }

  lemma {:induction false} XorZero(n: nat, bits: nat)
    requires n < Pow2(bits)
    ensures Xor(0, n, bits) == n
  {
    if bits > 0 {
      XorZero(n / 2, bits - 1);
    }
  }

  lemma XorStep(a: nat, b: nat, bits: nat, high: nat)
    requires bits > 0 && Xor(a / 2, b / 2, bits - 1) == high
    ensures Xor(a, b, bits) == (a % 2 + b % 2) % 2 + 2 * high
  {
  }

  lemma LetterXorSeed()
    ensures Xor(97, 0x811c9dc5, 32) == 0x811c9da4
  {
    hide Xor;
    assert Pow2(5) == 32 && Pow2(10) == 1024 && Pow2(15) == 32768 && Pow2(20) == 1048576 && Pow2(25) == 33554432;
    XorZero(0x811c9dc5 / 128, 25);
    XorStep(1, 0x811c9dc5 / 64, 26, 0x102393b);
    XorStep(3, 0x811c9dc5 / 32, 27, 0x2047276);
    XorStep(6, 0x811c9dc5 / 16, 28, 0x408e4ed);
    XorStep(12, 0x811c9dc5 / 8, 29, 0x811c9da);
    XorStep(24, 0x811c9dc5 / 4, 30, 0x102393b4);
    XorStep(48, 0x811c9dc5 / 2, 31, 0x20472769);
    XorStep(97, 0x811c9dc5, 32, 0x408e4ed2);
  }

  lemma LetterStep()
    ensures Fnv1a(97, 0x811c9dc5) == 0xe40c292c
  {
    hide Xor, Pow2;
    LetterXorSeed();
  }

  /** The published values of FNV-1a in 32 bits for the empty string and for "a". */
  lemma PublishedValues()
    ensures Hash("") == 0x811c9dc5 && Hash("a") == 0xe40c292c
  {
    hide Fnv1a;
    HashSnoc("", 'a');
    LetterStep();
    assert "" + ['a'] == "a" && ByteOf('a') == 97;
  }

  lemma HashSnoc(prefix: string, c: char)
    ensures Hash(prefix + [c]) == Fnv1a(ByteOf(c), Hash(prefix))
  {
    assert (prefix + [c])[..|prefix + [c]| - 1] == prefix;
  }

  lemma LastByteDecides(prefix: string, a: char, b: char)
    requires a as int < 256 && b as int < 256
    ensures Hash(prefix + [a]) == Hash(prefix + [b]) <==> a == b
  {
    hide Hash, Fnv1a;
    HashSnoc(prefix, a);
    HashSnoc(prefix, b);
    var x, y := ByteOf(a), ByteOf(b);
    StepInjectiveInByte(x, y, Hash(prefix));
    assert x == a as int && y == b as int;
  }

  /** Two keys that agree everywhere except perhaps in one byte collide only when they are equal. */
  lemma OneByteApartNeverCollides(prefix: string, a: char, b: char, suffix: string)
    requires a as int < 256 && b as int < 256
    ensures Hash(prefix + [a] + suffix) == Hash(prefix + [b] + suffix) <==> a == b
  {
    CommonSuffixCollision(prefix + [a], prefix + [b], suffix);
    LastByteDecides(prefix, a, b);
  }
}
