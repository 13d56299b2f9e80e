/** Octets as integers below 256, with the truncating shifts and the bitwise
    operators that the PDU codec applies to them, and the view of an octet
    string as a stream of bits, least significant bit first. */
module Octets {

  type Octet = x: int | 0 <= x < 256

  /** A GSM 7-bit code. */
  type Septet = x: int | 0 <= x < 128

  function Pow2(k: nat): (p: nat)
    ensures p > 0
  {
    if k == 0 then 1 else 2 * Pow2(k - 1)
  }

  /** Bit i of a number. */
  predicate Bit(x: nat, i: nat) {
    if i == 0 then x % 2 == 1 else Bit(x / 2, i - 1)
  }

  /** `x << k` on a byte: bits pushed past bit 7 are lost. */
  function Shl(x: Octet, k: nat): Octet
    decreases k
  {
    if k == 0 then x else Shl((2 * x as int) % 256, k - 1)
  }

  /** `x >> k` on a byte. */
  function Shr(x: Octet, k: nat): Octet
    decreases k
  {
    if k == 0 then x else Shr(x / 2, k - 1)
  }

  function B2N(b: bool): nat {
    if b then 1 else 0
  }

  /** `x | y`. */
  function Or(x: nat, y: nat): nat {
    if x == 0 then y else if y == 0 then x
    else B2N(x % 2 == 1 || y % 2 == 1) + 2 * Or(x / 2, y / 2)
  }

  /** The number whose bits, least significant first, are the given ones. */
  function FromBits(bits: seq<bool>): nat {
    if bits == [] then 0 else B2N(bits[0]) + 2 * FromBits(bits[1..])
  }

  lemma {:induction false} ZeroBits(i: nat)
    ensures !Bit(0, i)
  {
    if i > 0 { ZeroBits(i - 1); }
  }

  lemma {:induction false} FromBitsBit(bits: seq<bool>, i: nat)
    ensures Bit(FromBits(bits), i) == (i < |bits| && bits[i])
  {
    if bits == [] {
      ZeroBits(i);
    } else if i > 0 {
      FromBitsBit(bits[1..], i - 1);
    }
  }

  lemma {:induction false} FromBitsBound(bits: seq<bool>)
    ensures FromBits(bits) < Pow2(|bits|)
  {
    if bits != [] { FromBitsBound(bits[1..]); }
  }

  /** A number has no bit at or above a power of two it lies below. */
  lemma {:induction false} NoHighBit(x: nat, n: nat, i: nat)
    requires x < Pow2(n) && n <= i
    ensures !Bit(x, i)
  {
    if n == 0 { ZeroBits(i); } else { NoHighBit(x / 2, n - 1, i - 1); }
  }

  /** Two numbers with the same bits are equal. */
  lemma {:induction false} SameBits(x: nat, y: nat, n: nat)
    requires x < Pow2(n) && y < Pow2(n)
    requires forall i :: 0 <= i < n ==> Bit(x, i) == Bit(y, i)
    ensures x == y
  {
    if n > 0 {
      assert Bit(x, 0) == Bit(y, 0);
      forall i | 0 <= i < n - 1 ensures Bit(x / 2, i) == Bit(y / 2, i) {
        assert Bit(x, i + 1) == Bit(y, i + 1);
      }
      SameBits(x / 2, y / 2, n - 1);
    }
  }

  lemma {:induction false} BitOr(x: nat, y: nat, i: nat)
    ensures Bit(Or(x, y), i) == (Bit(x, i) || Bit(y, i))
  {
    ZeroBits(i);
    if x != 0 && y != 0 && i > 0 { BitOr(x / 2, y / 2, i - 1); }
  }

  lemma {:induction false} OrBound(x: nat, y: nat, n: nat)
    requires x < Pow2(n) && y < Pow2(n)
    ensures Or(x, y) < Pow2(n)
  {
    if n > 0 { OrBound(x / 2, y / 2, n - 1); }
  }

  lemma OctetSize()
    ensures Pow2(7) == 128 && Pow2(8) == 256
  {
  }

  /** `x | y` on bytes is again a byte. */
  function OrOctet(x: Octet, y: Octet): Octet {
    OctetSize();
    OrBound(x, y, 8);
    Or(x, y)
  }

  lemma HalfOfMod(x: nat, m: nat)
    requires m > 0
    ensures (x % (2 * m)) / 2 == (x / 2) % m && (x % (2 * m)) % 2 == x % 2
  {
    var q, r := x / (2 * m), x % (2 * m);
    assert x == 2 * (m * q) + r;
    assert x / 2 == m * q + r / 2;
    ModUnique(x / 2, m, q, r / 2);
  }

  lemma MulAtLeast(m: nat, d: int)
    ensures d >= 1 ==> m * d >= m
    ensures d <= -1 ==> m * d <= 0 - m
  {
  }

  lemma ModUnique(x: nat, m: nat, q: int, r: nat)
    requires r < m && x == m * q + r
    ensures x % m == r
  {
    var d := x / m - q;
    assert x == m * (x / m) + x % m;
    assert m * d == r - x % m;
    MulAtLeast(m, d);
  }

  /** Keeping the low n bits: `x & (2^n - 1)`. */
  lemma {:induction false} BitMod(x: nat, n: nat, i: nat)
    ensures Bit(x % Pow2(n), i) == (i < n && Bit(x, i))
  {
    if n == 0 {
      ZeroBits(i);
    } else {
      HalfOfMod(x, Pow2(n - 1));
      if i > 0 { BitMod(x / 2, n - 1, i - 1); }
    }
  }

  lemma {:induction false} BitShl(x: Octet, k: nat, i: nat)
    ensures Bit(Shl(x, k), i) == (k <= i < 8 && Bit(x, i - k))
    decreases k
  {
    OctetSize();
    if k == 0 {
      if i >= 8 { NoHighBit(x, 8, i); }
    } else {
      var y := (2 * x as int) % 256;
      BitShl(y, k - 1, i);
      if k <= i + 1 { BitMod(2 * x as int, 8, i - (k - 1)); }
    }
  }

  lemma {:induction false} BitShr(x: Octet, k: nat, i: nat)
    ensures Bit(Shr(x, k), i) == Bit(x, i + k)
    decreases k
  {
    if k > 0 { BitShr(x / 2, k - 1, i); }
  }

  /** Bit j of an octet string, counting from the least significant bit of its first octet. */
  predicate StreamBit(data: seq<Octet>, j: nat) {
    j < 8 * |data| && Bit(data[j / 8], j % 8)
  }

  /** Octet strings of one length with the same bit stream are equal. */
  lemma SameStream(a: seq<Octet>, b: seq<Octet>)
    requires |a| == |b|
    requires forall j: nat :: j < 8 * |a| ==> StreamBit(a, j) == StreamBit(b, j)
    ensures a == b
  {
    OctetSize();
    forall k | 0 <= k < |a| ensures a[k] == b[k] {
      forall i | 0 <= i < 8 ensures Bit(a[k], i) == Bit(b[k], i) {
        assert (8 * k + i) / 8 == k && (8 * k + i) % 8 == i;
        assert StreamBit(a, 8 * k + i) == StreamBit(b, 8 * k + i);
      }
      SameBits(a[k], b[k], 8);
    }
  }

  /** Behind a prefix of n octets the stream continues at bit 8n. */
  lemma StreamAfter(a: seq<Octet>, b: seq<Octet>, j: nat)
    ensures StreamBit(a + b, 8 * |a| + j) == StreamBit(b, j)
  {
    assert (8 * |a| + j) / 8 == |a| + j / 8 && (8 * |a| + j) % 8 == j % 8;
  }
}
