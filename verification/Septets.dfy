/** Packing of 7-bit codes into octets and back (section 6.1.2.1 of 3GPP TS 23.038):
    the byte-at-a-time packer and unpacker, the bit-stream packer used behind a
    user-data header, and the bit-level definitions all three are measured against. */
module Septets {
  import opened Octets

  /** Bit j of the stream made of `fill` zero bits followed by the codes, seven bits each. */
  predicate CodeBit(codes: seq<Septet>, fill: nat, j: nat) {
    fill <= j < fill + 7 * |codes| && Bit(codes[(j - fill) / 7], (j - fill) % 7)
  }

  /** Number of octets needed for `fill` bits and n septets. */
  function PackedLen(n: nat, fill: nat): nat {
    (7 * n + fill + 7) / 8
  }

  /** `out` is the shortest octet string holding exactly the bits of CodeBit, padded with zero bits. */
  ghost predicate IsPacked(codes: seq<Septet>, fill: nat, out: seq<Octet>) {
    && |out| == PackedLen(|codes|, fill)
    && forall j: nat :: j < 8 * |out| ==> StreamBit(out, j) == CodeBit(codes, fill, j)
  }

  function OctetAt(codes: seq<Septet>, fill: nat, k: nat): (x: Octet)
    ensures forall i :: 0 <= i < 8 ==> Bit(x, i) == CodeBit(codes, fill, 8 * k + i)
  {
    var bits := seq(8, i requires 0 <= i < 8 => CodeBit(codes, fill, 8 * k + i));
    FromBitsBound(bits);
    OctetSize();
    assert forall i :: 0 <= i < 8 ==> Bit(FromBits(bits), i) == bits[i] by {
      forall i | 0 <= i < 8 ensures Bit(FromBits(bits), i) == bits[i] { FromBitsBit(bits, i); }
    }
    FromBits(bits)
  }

  /** The packed form as a value; `PackGsm7` and `RepackWithFill` compute it. */
  function Packed(codes: seq<Septet>, fill: nat): (out: seq<Octet>)
    ensures IsPacked(codes, fill, out)
  {
    var out := seq(PackedLen(|codes|, fill), k requires 0 <= k < PackedLen(|codes|, fill) => OctetAt(codes, fill, k));
    assert IsPacked(codes, fill, out) by {
      forall j: nat | j < 8 * |out| ensures StreamBit(out, j) == CodeBit(codes, fill, j) {
        OctetAtBit(codes, fill, j / 8, j % 8);
        assert out[j / 8] == OctetAt(codes, fill, j / 8);
        assert 8 * (j / 8) + j % 8 == j;
      }
    }
    out
  }

  lemma OctetAtBit(codes: seq<Septet>, fill: nat, k: nat, i: nat)
    requires i < 8
    ensures Bit(OctetAt(codes, fill, k), i) == CodeBit(codes, fill, 8 * k + i)
  {
  }

  lemma SeptetBit(data: seq<Octet>, off: nat, n: nat, j: nat)
    requires j < 7 * n
    ensures Bit(UnpackedAt(data, off, n)[j / 7], j % 7) == StreamBit(data, off + j)
  {
    assert UnpackedAt(data, off, n)[j / 7] == SeptetAt(data, off + 7 * (j / 7));
    assert off + 7 * (j / 7) + j % 7 == off + j;
  }

  /** Only one octet string packs a given sequence of codes. */
  lemma PackedUnique(codes: seq<Septet>, fill: nat, out: seq<Octet>)
    requires IsPacked(codes, fill, out)
    ensures out == Packed(codes, fill)
  {
    SameStream(out, Packed(codes, fill));
  }

  /** The seven bits from bit `at` on, as a code. */
  function SeptetAt(data: seq<Octet>, at: nat): (c: Septet)
    ensures forall b :: 0 <= b < 7 ==> Bit(c, b) == StreamBit(data, at + b)
  {
    var bits := seq(7, b requires 0 <= b < 7 => StreamBit(data, at + b));
    FromBitsBound(bits);
    OctetSize();
    assert forall b :: 0 <= b < 7 ==> Bit(FromBits(bits), b) == bits[b] by {
      forall b | 0 <= b < 7 ensures Bit(FromBits(bits), b) == bits[b] { FromBitsBit(bits, b); }
    }
    FromBits(bits)
  }

  /** n consecutive septets of the bit stream, the first one at bit `off`. */
  function UnpackedAt(data: seq<Octet>, off: nat, n: nat): (codes: seq<Septet>)
    ensures |codes| == n
  {
    seq(n, i requires 0 <= i < n => SeptetAt(data, off + 7 * i))
  }

  /** Reading is determined by the bits: a stream that carries the codes' bits from `off` on yields the codes. */
  lemma ReadsBack(data: seq<Octet>, off: nat, codes: seq<Septet>)
    requires forall j: nat :: j < 7 * |codes| ==> StreamBit(data, off + j) == CodeBit(codes, 0, j)
    ensures UnpackedAt(data, off, |codes|) == codes
  {
    OctetSize();
    var read := UnpackedAt(data, off, |codes|);
    forall i | 0 <= i < |codes| ensures read[i] == codes[i] {
      forall b | 0 <= b < 7 ensures Bit(read[i], b) == Bit(codes[i], b) {
        assert (7 * i + b) / 7 == i && (7 * i + b) % 7 == b;
        assert StreamBit(data, off + (7 * i + b)) == CodeBit(codes, 0, 7 * i + b);
      }
      SameBits(read[i], codes[i], 7);
    }
  }

  /** Packing loses nothing: read at the fill offset, the packed octets give the codes back. */
  lemma PackUnpack(codes: seq<Septet>, fill: nat)
    ensures UnpackedAt(Packed(codes, fill), fill, |codes|) == codes
  {
    ReadsBackBehind([], codes, fill);
    assert [] + Packed(codes, fill) == Packed(codes, fill);
  }

  /** The same behind a header of whole octets: the body starts at bit 8|header| + fill. */
  lemma ReadsBackBehind(header: seq<Octet>, codes: seq<Septet>, fill: nat)
    ensures UnpackedAt(header + Packed(codes, fill), 8 * |header| + fill, |codes|) == codes
  {
    hide StreamBit, CodeBit, Packed;
    var body := Packed(codes, fill);
    PackedHoldsAll(|codes|, fill);
    forall j: nat | j < 7 * |codes|
      ensures StreamBit(header + body, 8 * |header| + fill + j) == CodeBit(codes, 0, j)
    {
      StreamAfter(header, body, fill + j);
      assert StreamBit(body, fill + j) == CodeBit(codes, fill, fill + j);
      CodeBitShift(codes, fill, j);
    }
    ReadsBack(header + body, 8 * |header| + fill, codes);
  }

  lemma CodeBitShift(codes: seq<Septet>, fill: nat, j: nat)
    ensures CodeBit(codes, fill, fill + j) == CodeBit(codes, 0, j)
  {
  }

  /** The clamp on the character count never truncates a packed message, whatever its fill. */
  lemma PackedHoldsAll(n: nat, fill: nat)
    ensures n <= (PackedLen(n, fill) * 8) / 7
    ensures 8 * PackedLen(n, fill) >= 7 * n + fill
  {
  }

  /** Reading a body packed with a fill of 1 to 6 bits as if it had none gives the codes
      back exactly when every code is zero. */
  lemma MisalignedRead(codes: seq<Septet>, fill: nat)
    requires 0 < fill < 7
    ensures UnpackedAt(Packed(codes, fill), 0, |codes|) == codes
            <==> forall i :: 0 <= i < |codes| ==> codes[i] == 0
  {
    if UnpackedAt(Packed(codes, fill), 0, |codes|) == codes {
      forall j: nat | j < 7 * |codes| ensures !CodeBit(codes, 0, j) {
        MisalignedBitsVanish(codes, fill, j);
      }
      AllBitsClear(codes);
    }
    if forall i :: 0 <= i < |codes| ==> codes[i] == 0 {
      ZeroCodesReadAnywhere(codes, fill);
    }
  }

  lemma ZeroCodesReadAnywhere(codes: seq<Septet>, fill: nat)
    requires forall i :: 0 <= i < |codes| ==> codes[i] == 0
    ensures UnpackedAt(Packed(codes, fill), 0, |codes|) == codes
  {
    hide StreamBit, CodeBit, Packed;
    var body := Packed(codes, fill);
    PackedHoldsAll(|codes|, fill);
    forall j: nat | j < 7 * |codes| ensures StreamBit(body, 0 + j) == CodeBit(codes, 0, j) {
      ZeroCodesNoBit(codes, 0, j);
      ZeroCodesNoBit(codes, fill, j);
      assert j < 8 * |body|;
    }
    ReadsBack(body, 0, codes);
  }

  lemma ZeroCodesNoBit(codes: seq<Septet>, fill: nat, j: nat)
    requires forall i :: 0 <= i < |codes| ==> codes[i] == 0
    ensures !CodeBit(codes, fill, j)
  {
    if fill <= j < fill + 7 * |codes| { ZeroBits((j - fill) % 7); }
  }

  /** If the misaligned read agrees with the codes, each code bit repeats the bit `fill` places before it. */
  lemma {:induction false} MisalignedBitsVanish(codes: seq<Septet>, fill: nat, j: nat)
    requires 0 < fill < 7 && j < 7 * |codes|
    requires UnpackedAt(Packed(codes, fill), 0, |codes|) == codes
    ensures !CodeBit(codes, 0, j)
    decreases j
  {
    hide StreamBit, Packed;
    var body := Packed(codes, fill);
    SeptetBit(body, 0, |codes|, j);
    PackedHoldsAll(|codes|, fill);
    assert StreamBit(body, j) == CodeBit(codes, fill, j);
    if j >= fill {
      MisalignedBitsVanish(codes, fill, j - fill);
      CodeBitShift(codes, fill, j - fill);
    }
  }

  lemma AllBitsClear(codes: seq<Septet>)
    requires forall j: nat :: j < 7 * |codes| ==> !CodeBit(codes, 0, j)
    ensures forall i :: 0 <= i < |codes| ==> codes[i] == 0
  {
    OctetSize();
    forall i | 0 <= i < |codes| ensures codes[i] == 0 {
      forall b | 0 <= b < 7 ensures Bit(codes[i], b) == Bit(0, b) {
        ZeroBits(b);
        assert (7 * i + b) / 7 == i && (7 * i + b) % 7 == b;
        assert !CodeBit(codes, 0, 7 * i + b);
      }
      SameBits(codes[i], 0, 7);
    }
  }

  // ---- The source's loops ----

  /** The part of the packed stream that codes[..i] account for. */
  ghost predicate PackedUpTo(codes: seq<Septet>, i: nat, out: seq<Octet>)
    requires i <= |codes|
  {
    forall j: nat :: j < 8 * |out| ==> StreamBit(out, j) == (j < 7 * i && CodeBit(codes, 0, j))
  }

  /** One round of the packing loop: two or-assignments put code i at bit 7i. */
  lemma PackRound(codes: seq<Septet>, i: nat, out: seq<Octet>, out': seq<Octet>)
    requires i < |codes| && |out| == |out'| == PackedLen(|codes|, 0)
    requires PackedUpTo(codes, i, out)
    requires var p, s := (7 * i) / 8, (7 * i) % 8;
             && p < |out|
             && out' == if s > 1 && p + 1 < |out|
                        then out[p := OrOctet(out[p], Shl(codes[i], s))][p + 1 := OrOctet(out[p + 1], Shr(codes[i], 8 - s))]
                        else out[p := OrOctet(out[p], Shl(codes[i], s))]
    ensures PackedUpTo(codes, i + 1, out')
  {
    var p, s := (7 * i) / 8, (7 * i) % 8;
    forall j: nat | j < 8 * |out'|
      ensures StreamBit(out', j) == (j < 7 * (i + 1) && CodeBit(codes, 0, j))
    {
      assert StreamBit(out, j) == (j < 7 * i && CodeBit(codes, 0, j));
      OctetSize();
      if j / 8 == p {
        BitShl(codes[i], s, j % 8);
        BitOr(out[p], Shl(codes[i], s), j % 8);
        if j >= 7 * i {
          assert j % 8 - s == j - 7 * i;
          if j < 7 * (i + 1) { assert j / 7 == i && j % 7 == j - 7 * i; } else { NoHighBit(codes[i], 7, j - 7 * i); }
        }
      } else if j / 8 == p + 1 {
        assert j % 8 + (8 - s) == j - 7 * i;
        if j < 7 * (i + 1) { assert j / 7 == i && j % 7 == j - 7 * i; } else { NoHighBit(codes[i], 7, j - 7 * i); }
        if s > 1 {
          BitShr(codes[i], 8 - s, j % 8);
          BitOr(out[p + 1], Shr(codes[i], 8 - s), j % 8);
        }
      }
    }
  }

  /** packGSM7: the byte-at-a-time packer computes the bit-stream packing with no fill. */
  method PackGsm7(codes: seq<Septet>) returns (out: seq<Octet>)
    ensures out == Packed(codes, 0)
  {
    var n := |codes|;
    var packed := new Octet[(n * 7 + 7) / 8](_ => 0);
    forall j: nat | j < 8 * packed.Length ensures !StreamBit(packed[..], j) { ZeroBits(j % 8); }
    for i := 0 to n
      invariant PackedUpTo(codes, i, packed[..])
    {
      ghost var before := packed[..];
      var bytePos := (i * 7) / 8;
      var bitPos := (i * 7) % 8;
      packed[bytePos] := OrOctet(packed[bytePos], Shl(codes[i], bitPos));
      if bitPos > 1 && bytePos + 1 < packed.Length {
        packed[bytePos + 1] := OrOctet(packed[bytePos + 1], Shr(codes[i], 8 - bitPos));
      }
      PackRound(codes, i, before, packed[..]);
    }
    out := packed[..];
    PackedUnique(codes, 0, out);
  }

  /** repackWithFill: the two-pass packer (list the bits, then set them) computes the packing with its fill. */
  method RepackWithFill(codes: seq<Septet>, fillBits: nat) returns (out: seq<Octet>)
    ensures out == Packed(codes, fillBits)
  {
    var n := |codes|;
    var bits := new int[n * 7 + fillBits](_ => 0);
    for i := 0 to n
      invariant forall j :: 0 <= j < bits.Length ==> bits[j] == if j < fillBits + 7 * i && CodeBit(codes, fillBits, j) then 1 else 0
    {
      var base := fillBits + i * 7;
      for b := 0 to 7
        invariant forall j :: 0 <= j < bits.Length ==> bits[j] == if j < base + b && CodeBit(codes, fillBits, j) then 1 else 0
      {
        assert (base + b - fillBits) / 7 == i && (base + b - fillBits) % 7 == b;
        BitShr(codes[i], b, 0);
        bits[base + b] := Shr(codes[i], b) % 2;
      }
    }
    var packed := new Octet[(bits.Length + 7) / 8](_ => 0);
    forall j: nat | j < 8 * packed.Length ensures !StreamBit(packed[..], j) { ZeroBits(j % 8); }
    ghost var listed := bits[..];
    for i := 0 to bits.Length
      invariant bits[..] == listed
      invariant forall j: nat :: j < 8 * packed.Length ==> StreamBit(packed[..], j) == (j < i && CodeBit(codes, fillBits, j))
    {
      assert CodeBit(codes, fillBits, i) == (listed[i] != 0);
      if bits[i] != 0 {
        ghost var before := packed[..];
        packed[i / 8] := OrOctet(packed[i / 8], Shl(1, i % 8));
        SetBit(before, packed[..], i);
      }
    }
    out := packed[..];
    PackedUnique(codes, fillBits, out);
  }

  /** `out[i/8] |= 1 << (i%8)` sets bit i of the stream and no other. */
  lemma SetBit(before: seq<Octet>, after: seq<Octet>, i: nat)
    requires i < 8 * |before| && after == before[i / 8 := OrOctet(before[i / 8], Shl(1, i % 8))]
    ensures forall j: nat :: j < 8 * |before| ==> StreamBit(after, j) == (j == i || StreamBit(before, j))
  {
    forall j: nat | j < 8 * |before| ensures StreamBit(after, j) == (j == i || StreamBit(before, j)) {
      if j / 8 == i / 8 {
        BitShl(1, i % 8, j % 8);
        BitOr(before[i / 8], Shl(1, i % 8), j % 8);
        OctetSize();
        if j % 8 > i % 8 { assert Pow2(1) == 2; NoHighBit(1, 1, j % 8 - i % 8); }
      }
    }
  }

  /** The two octets that hold a septet, or-ed together and masked, are that septet. */
  lemma UnpackRound(data: seq<Octet>, i: nat, x: Octet)
    requires 7 * i + 7 <= 8 * |data|
    requires var p, s := (7 * i) / 8, (7 * i) % 8;
             var lo := Shr(data[p], s) % 128;
             x == if s > 1 && p + 1 < |data| then OrOctet(lo, Shl(data[p + 1], 8 - s) % 128) else lo
    ensures x == SeptetAt(data, 7 * i)
  {
    var p, s := (7 * i) / 8, (7 * i) % 8;
    var lo := Shr(data[p], s) % 128;
    var c := SeptetAt(data, 7 * i);
    OctetSize();
    forall b | 0 <= b < 8 ensures Bit(x, b) == Bit(c, b) {
      BitMod(Shr(data[p], s), 7, b);
      BitShr(data[p], s, b);
      if s > 1 && p + 1 < |data| {
        BitMod(Shl(data[p + 1], 8 - s), 7, b);
        BitShl(data[p + 1], 8 - s, b);
        BitOr(lo, Shl(data[p + 1], 8 - s) % 128, b);
      }
      if b == 7 {
        NoHighBit(c, 7, 7);
      } else if s + b < 8 {
        assert (7 * i + b) / 8 == p && (7 * i + b) % 8 == s + b;
      } else {
        NoHighBit(data[p], 8, s + b);
        assert (7 * i + b) / 8 == p + 1 && (7 * i + b) % 8 == s + b - 8;
      }
    }
    SameBits(x, c, 8);
  }

  /** unpackGSM7: reads the septets of the stream, at most as many as the data holds. */
  method UnpackGsm7(data: seq<Octet>, nChars: nat) returns (codes: seq<Septet>)
    ensures codes == UnpackedAt(data, 0, ClampedCount(data, nChars))
    ensures |codes| <= nChars && 7 * |codes| <= 8 * |data| && (|codes| == nChars || 7 * (|codes| + 1) > 8 * |data|)
  {
    var maxChars := (|data| * 8) / 7;
    var n := nChars;
    if n > maxChars {
      n := maxChars;
    }
    var out := new Septet[n](_ => 0);
    for i := 0 to n
      invariant forall k :: 0 <= k < i ==> out[k] == SeptetAt(data, 7 * k)
    {
      var bytePos := (i * 7) / 8;
      var bitPos := (i * 7) % 8;
      if bytePos >= |data| {
        break;
      }
      var b := Shr(data[bytePos], bitPos) % 128;
      if bitPos > 1 && bytePos + 1 < |data| {
        b := OrOctet(b, Shl(data[bytePos + 1], 8 - bitPos) % 128);
      }
      UnpackRound(data, i, b);
      out[i] := b;
    }
    codes := out[..];
  }

  /** The number of septets `UnpackGsm7` returns. */
  function ClampedCount(data: seq<Octet>, nChars: nat): nat {
    if nChars > (|data| * 8) / 7 then (|data| * 8) / 7 else nChars
  }

  /** What `UnpackGsm7` computes from what `PackGsm7` computes is the original, on every sequence of codes. */
  lemma SeptetRoundTrip(codes: seq<Septet>)
    ensures var packed := Packed(codes, 0);
            UnpackedAt(packed, 0, ClampedCount(packed, |codes|)) == codes
  {
    PackedHoldsAll(|codes|, 0);
    PackUnpack(codes, 0);
  }
}
