/** FNV-1a with 64 bits (section 2 of draft-eastlake-fnv), and why it never loses a single change. */
module Fnv {
  import opened Base

  const OFFSET_BASIS: u64 := 14695981039346656037

  /** Exclusive or of the low `bits` bits. */
  function Xor(a: nat, b: nat, bits: nat): (r: nat)
    ensures r < Power2(bits)
  {
    if bits == 0 then 0 else 2 * Xor(a / 2, b / 2, bits - 1) + (a + b) % 2
  }

  function Power2(bits: nat): nat {
    if bits == 0 then 1 else 2 * Power2(bits - 1)
  }

  lemma {:induction false} XorCancels(a: nat, b: nat, x: nat, bits: nat)
    requires a < Power2(bits) && b < Power2(bits)
    requires Xor(a, x, bits) == Xor(b, x, bits) || Xor(x, a, bits) == Xor(x, b, bits)
    ensures a == b
  {
    if bits == 0 {
    } else {
      TopAndLowBit(Xor(a / 2, x / 2, bits - 1), (a + x) % 2, Xor(b / 2, x / 2, bits - 1), (b + x) % 2);
      TopAndLowBit(Xor(x / 2, a / 2, bits - 1), (a + x) % 2, Xor(x / 2, b / 2, bits - 1), (b + x) % 2);
      SameParity(a, b, x);
      XorCancels(a / 2, b / 2, x / 2, bits - 1);
    }
  }

  lemma TopAndLowBit(p: nat, q: nat, r: nat, s: nat)
    requires q < 2 && s < 2
    ensures 2 * p + q == 2 * r + s ==> p == r && q == s
  {
  }

  lemma SameParity(a: nat, b: nat, x: nat)
    ensures (a + x) % 2 == (b + x) % 2 ==> a % 2 == b % 2
    ensures a / 2 == b / 2 && a % 2 == b % 2 ==> a == b
  {
  }

  /** `hash ^= b`: only the low eight bits take part. */
  function Mask(hash: u64, b: byte): (r: u64) {
    assert Power2(8) == 256;
    hash / 256 * 256 + Xor(hash % 256, b, 8)
  }

  /** `hash *= 1099511628211` in 64 bits. */
  function TimesPrime(a: u64): u64 {
    (a * 1099511628211) % 0x1_0000_0000_0000_0000
  }

  function Step(hash: u64, b: byte): u64 {
    TimesPrime(Mask(hash, b))
  }

  /** The hash after a run of bytes. */
  function Fold(hash: u64, s: seq<byte>): u64 {
    if s == [] then hash else Step(Fold(hash, s[..|s| - 1]), s[|s| - 1])
  }

  lemma PowerOfEight()
    ensures Power2(8) == 256
  {
  }

  lemma MaskInjective(g: u64, h: u64, b: byte, c: byte)
    requires Mask(g, b) == Mask(h, c)
    ensures b == c ==> g == h
    ensures g == h ==> b == c
  {
    PowerOfEight();
    hide Xor, Power2;
    assert Xor(g % 256, b, 8) == Xor(h % 256, c, 8) && g / 256 == h / 256;
    if b == c {
      XorCancels(g % 256, h % 256, b, 8);
    }
    if g == h {
      XorCancels(b, c, g % 256, 8);
    }
  }

  /** The prime is odd, so multiplying by its inverse modulo 2^64, 14886173955864302971, undoes it. */
  lemma TimesPrimeInjective(a: u64, b: u64)
    requires TimesPrime(a) == TimesPrime(b)
    ensures a == b
  {
    var p, q := (a * 1099511628211) / 0x1_0000_0000_0000_0000, (b * 1099511628211) / 0x1_0000_0000_0000_0000;
    var difference, carry := a - b, p - q;
    assert difference * 1099511628211 == 0x1_0000_0000_0000_0000 * carry;
    assert difference == 0x1_0000_0000_0000_0000 * (14886173955864302971 * carry - 887285111055 * difference);
  }

  /** A step is a bijection of the hash for a fixed byte, and tells bytes apart for a fixed hash. */
  lemma StepInjective(g: u64, h: u64, b: byte, c: byte)
    requires Step(g, b) == Step(h, c)
    ensures b == c ==> g == h
    ensures g == h ==> b == c
  {
    hide TimesPrime, Mask;
    TimesPrimeInjective(Mask(g, b), Mask(h, c));
    MaskInjective(g, h, b, c);
  }

  lemma {:induction false} FoldInjective(g: u64, h: u64, s: seq<byte>)
    requires Fold(g, s) == Fold(h, s)
    ensures g == h
  {
    hide Step;
    if s == [] {
    } else {
      StepInjective(Fold(g, s[..|s| - 1]), Fold(h, s[..|s| - 1]), s[|s| - 1], s[|s| - 1]);
      FoldInjective(g, h, s[..|s| - 1]);
    }
  }

  /** Two runs that differ in exactly one byte have different hashes. */
  lemma {:induction false} FoldDetects(hash: u64, s: seq<byte>, r: seq<byte>, j: nat)
    requires j < |s| == |r| && s[j] != r[j]
    requires forall i :: 0 <= i < |s| && i != j ==> s[i] == r[i]
    ensures Fold(hash, s) != Fold(hash, r)
  {
    hide Step;
    var n := |s| - 1;
    if j == n {
      assert s[..n] == r[..n];
    } else {
      FoldDetects(hash, s[..n], r[..n], j);
    }
    if Fold(hash, s) == Fold(hash, r) {
      StepInjective(Fold(hash, s[..n]), Fold(hash, r[..n]), s[n], r[n]);
    }
  }

  // ----- the hash on numbers

  /** One if exactly one of two lowest bits is a one. */
  function OddOne(a: nat, b: nat): nat {
    (a + b) % 2
  }

  /** The exclusive or of two bytes, bit by bit. */
  function BitSum(a: nat, b: nat): nat {
    (a + b) % 2 + (a / 2 + b / 2) % 2 * 2 + (a / 4 + b / 4) % 2 * 4 + (a / 8 + b / 8) % 2 * 8
    + (a / 16 + b / 16) % 2 * 16 + (a / 32 + b / 32) % 2 * 32 + (a / 64 + b / 64) % 2 * 64 + (a / 128 + b / 128) % 2 * 128
  }

  lemma XorIsBitwise(a: nat, b: nat)
    ensures Xor(a, b, 8) == BitSum(a, b)
  {
    hide Xor;
    EightBits(a, b);
  }

  lemma EightBits(a: nat, b: nat)
    ensures Xor(a, b, 8) == OddOne(a, b) + OddOne(a / 2, b / 2) * 2 + OddOne(a / 4, b / 4) * 4 + OddOne(a / 8, b / 8) * 8
                          + OddOne(a / 16, b / 16) * 16 + OddOne(a / 32, b / 32) * 32 + OddOne(a / 64, b / 64) * 64
                          + OddOne(a / 128, b / 128) * 128
  {
    hide Xor, OddOne;
    TwoBits(a, b, 6);
    TwoBits(a / 4, b / 4, 4);
    TwoBits(a / 16, b / 16, 2);
    TwoBits(a / 64, b / 64, 0);
    Quarters(a);
    Quarters(b);
    NoBitsLeft(a / 256, b / 256);
  }

  lemma TwoBits(a: nat, b: nat, bits: nat)
    ensures Xor(a, b, bits + 2) == OddOne(a, b) + OddOne(a / 2, b / 2) * 2 + Xor(a / 4, b / 4, bits) * 4
  {
    assert a / 2 / 2 == a / 4 && b / 2 / 2 == b / 4;
  }

  lemma Quarters(a: nat)
    ensures a / 4 / 2 == a / 8 && a / 4 / 4 == a / 16 && a / 16 / 2 == a / 32 && a / 16 / 4 == a / 64
    ensures a / 64 / 2 == a / 128 && a / 64 / 4 == a / 256
  {
  }

  lemma NoBitsLeft(a: nat, b: nat)
    ensures Xor(a, b, 0) == 0
  {
  }

  /** A step of FNV-1a on a hash whose low byte is `low`: exclusive or first, then the product, of which 64 bits are kept. */
  lemma StepOnNumbers(high: nat, low: byte, b: byte, x: byte, carry: nat)
    requires high * 256 + low < TWO_64 && BitSum(low, b) == x
    requires 0 <= (high * 256 + x) * 1099511628211 - carry * TWO_64 < TWO_64
    ensures Step(high * 256 + low, b) == (high * 256 + x) * 1099511628211 - carry * TWO_64
  {
    hide Xor, BitSum;
    XorIsBitwise(low, b);
    DivisionIsUnique(high * 256 + low, high, low, 256);
    var product: nat := (high * 256 + x) * 1099511628211;
    DivisionIsUnique(product, carry, product - carry * TWO_64, TWO_64);
  }

  lemma FoldOne(hash: u64, b: byte)
    ensures Fold(hash, [b]) == Step(hash, b)
  {
    hide Step;
    assert [b][..0] == [];
  }

  /** The published hash of the letter a. */
  lemma KnownHash()
    ensures Fold(OFFSET_BASIS, [0x61]) == 0xAF63_DC4C_8601_EC8C
  {
    hide Step, Fold;
    FoldOne(OFFSET_BASIS, 0x61);
    StepOnNumbers(0xCBF29CE4842223, 0x25, 0x61, 0x44, 875948729822);
  }
}
