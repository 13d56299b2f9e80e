/** Addresses in semi-octet form, and alphanumeric addresses (section 9.1.2.5 of 3GPP TS 23.040). */
module Address {
  import opened Octets
  import opened Septets
  import opened Gsm7Text

  const PLUS: Octet := 0x2B
  const ZERO: Octet := 0x30
  const CHAR_F: Octet := 0x46

  const INTERNATIONAL: Octet := 0x91
  const UNKNOWN: Octet := 0x81
  const ALPHANUMERIC: Octet := 0xD0

  /** Subtraction on a byte wraps around. */
  function SubOctet(x: Octet, y: Octet): Octet { (x - y) % 256 }

  /** The digits of a number: the leading plus sign is carried by the type of address. */
  function Digits(msisdn: seq<Octet>): seq<Octet> {
    if |msisdn| > 0 && msisdn[0] == PLUS then msisdn[1..] else msisdn
  }

  function AddressType(msisdn: seq<Octet>): Octet {
    if |msisdn| > 0 && msisdn[0] == PLUS then INTERNATIONAL else UNKNOWN
  }

  function Padded(digits: seq<Octet>): seq<Octet> {
    if |digits| % 2 != 0 then digits + [CHAR_F] else digits
  }

  function HighPart(second: Octet): Octet {
    if second == CHAR_F then 0x0F else SubOctet(second, ZERO)
  }

  function SemiOctet(first: Octet, second: Octet): Octet {
    OrOctet(SubOctet(first, ZERO), Shl(HighPart(second), 4))
  }

  function AddressOctets(digits: seq<Octet>): (data: seq<Octet>)
    ensures |data| == (|digits| + 1) / 2
  {
    var p := Padded(digits);
    seq(|p| / 2, i requires 0 <= i < |p| / 2 => SemiOctet(p[2 * i], p[2 * i + 1]))
  }

  /** encodeBCDAddress. */
  method EncodeBcdAddress(msisdn: seq<Octet>) returns (numDigits: nat, addrType: Octet, data: seq<Octet>)
    ensures numDigits == |Digits(msisdn)|
    ensures addrType == AddressType(msisdn)
    ensures data == AddressOctets(Digits(msisdn))
  {
    hide SemiOctet;
    addrType := UNKNOWN;
    var digits := msisdn;
    if |digits| > 0 && digits[0] == PLUS {
      addrType := INTERNATIONAL;
      digits := digits[1..];
    }
    numDigits := |digits|;
    if numDigits % 2 != 0 {
      digits := digits + [CHAR_F];
    }
    var buf := new Octet[|digits| / 2](_ => 0);
    for i := 0 to buf.Length
      invariant forall k :: 0 <= k < i ==> buf[k] == SemiOctet(digits[2 * k], digits[2 * k + 1])
    {
      buf[i] := SemiOctet(digits[i * 2], digits[i * 2 + 1]);
    }
    assert digits == Padded(Digits(msisdn));
    data := buf[..];
  }

  /** Semi-octet k: the low half of an octet comes first. */
  function Nibble(data: seq<Octet>, k: nat): (x: nat)
    requires k / 2 < |data|
    ensures x < 16
  {
    if k % 2 == 0 then data[k / 2] % 16 else data[k / 2] / 16
  }

  /** The digits from semi-octet i on, up to the first filler, the count or the end of the data. */
  function DigitsFrom(data: seq<Octet>, numDigits: nat, i: nat): Text
    decreases numDigits - i
  {
    if i >= numDigits || i / 2 >= |data| || Nibble(data, i) == 0x0F then []
    else [0x30 + Nibble(data, i)] + DigitsFrom(data, numDigits, i + 1)
  }

  function AddressText(data: seq<Octet>, numDigits: nat, addrType: Octet): Text {
    if addrType == ALPHANUMERIC then DecodeText(UnpackedAt(data, 0, ClampedCount(data, numDigits)))
    else (if addrType == INTERNATIONAL then [0x2B] else []) + DigitsFrom(data, numDigits, 0)
  }

  /** decodeBCDAddress. */
  method DecodeBcdAddress(data: seq<Octet>, numDigits: nat, addrType: Octet) returns (s: Text)
    ensures s == AddressText(data, numDigits, addrType)
  {
    if addrType == ALPHANUMERIC {
      var codes := UnpackGsm7(data, numDigits);
      s := DecodeGsm7Text(codes);
      return;
    }
    s := [];
    if addrType == INTERNATIONAL {
      s := s + [0x2B];
    }
    ghost var prefix := s;
    for i := 0 to numDigits
      invariant prefix + DigitsFrom(data, numDigits, 0) == s + DigitsFrom(data, numDigits, i)
    {
      var byteIdx := i / 2;
      if byteIdx >= |data| {
        break;
      }
      var nibble: Octet;
      if i % 2 == 0 {
        nibble := data[byteIdx] % 16;
      } else {
        nibble := (data[byteIdx] / 16) % 16;
      }
      assert nibble == Nibble(data, i);
      if nibble == 0x0F {
        break;
      }
      s := s + [0x30 + nibble];
    }
    assert prefix + DigitsFrom(data, numDigits, 0) == s;
  }

  // ---- Round trips ----

  /** The characters '0' to '>' that a semi-octet other than the filler stands for. */
  predicate Dialable(c: Octet) { 0x30 <= c <= 0x3E }

  predicate AllDialable(digits: seq<Octet>) {
    forall i :: 0 <= i < |digits| ==> Dialable(digits[i])
  }

  /** `lo | hi << k` adds when lo lies below 2^k. */
  lemma {:induction false} OrAbove(lo: nat, hi: nat, k: nat)
    requires lo < Pow2(k)
    ensures Or(lo, hi * Pow2(k)) == lo + hi * Pow2(k)
  {
    if k > 0 && lo != 0 && hi != 0 {
      var h := hi * Pow2(k - 1);
      assert hi * Pow2(k) == 2 * h;
      OrAbove(lo / 2, hi, k - 1);
    }
  }

  lemma OrEven(x: nat, y: nat)
    ensures Or(x, 2 * y) == x % 2 + 2 * Or(x / 2, y)
  {
  }

  /** `x | h << 4` leaves the low half of x alone. */
  lemma OrHalves(x: nat, h: nat)
    ensures Or(x, 16 * h) == x % 16 + 16 * Or(x / 16, h)
  {
    hide Or;
    OrEven(x, 8 * h);
    OrEven(x / 2, 4 * h);
    OrEven(x / 2 / 2, 2 * h);
    OrEven(x / 2 / 2 / 2, h);
    assert x / 2 / 2 / 2 / 2 == x / 16;
  }

  /** One shift doubles what is left below bit 7. */
  lemma ShlStep(x: Octet, k: nat) returns (t: nat, y: Octet)
    requires k > 0
    ensures t < 2 && y == 2 * x - 256 * t && Shl(x, k) == Shl(y, k - 1)
  {
    t := if x < 128 then 0 else 1;
    y := 2 * (x as int) - 256 * t;
    ModUnique(2 * x, 256, t, y);
  }

  lemma ShlNibble(h: Octet)
    ensures Shl(h, 4) == 16 * (h % 16)
  {
    var t1, a := ShlStep(h, 4);
    var t2, b := ShlStep(a, 3);
    var t3, c := ShlStep(b, 2);
    var t4, d := ShlStep(c, 1);
    assert Shl(d, 0) == d;
    hide Shl;
    var q := 8 * t1 + 4 * t2 + 2 * t3 + t4;
    assert d == 16 * (h - 16 * q);
    ModUnique(h, 16, q, h - 16 * q);
  }

  /** The halves of a pair as it is encoded: bits of the first character that stick out reach into the second. */
  lemma SemiOctetHalves(first: Octet, second: Octet)
    ensures SemiOctet(first, second) % 16 == SubOctet(first, ZERO) % 16
    ensures SemiOctet(first, second) / 16 == Or(SubOctet(first, ZERO) / 16, HighPart(second) % 16)
  {
    hide Or, Shl, SubOctet, HighPart;
    ShlNibble(HighPart(second));
    OrHalves(SubOctet(first, ZERO), HighPart(second) % 16);
  }

  lemma SemiOctetValue(first: Octet, second: Octet)
    requires Dialable(first) && (Dialable(second) || second == CHAR_F)
    ensures SemiOctet(first, second) % 16 == first - 0x30
    ensures SemiOctet(first, second) / 16 == if second == CHAR_F then 0x0F else second - 0x30
  {
    hide SemiOctet;
    SemiOctetHalves(first, second);
    assert SubOctet(first, ZERO) == first - 0x30;
  }

  lemma NibbleOf(digits: seq<Octet>, k: nat)
    requires AllDialable(digits) && k / 2 < |AddressOctets(digits)|
    ensures Nibble(AddressOctets(digits), k) == if k < |digits| then digits[k] - 0x30 else 0x0F
  {
    hide SemiOctet;
    var p := Padded(digits);
    var i := k / 2;
    assert k == 2 * i || k == 2 * i + 1;
    SemiOctetValue(p[2 * i], p[2 * i + 1]);
    assert AddressOctets(digits)[i] == SemiOctet(p[2 * i], p[2 * i + 1]);
  }

  /** Encoded digits read back, whether the count given is theirs or that of all semi-octets. */
  lemma {:induction false} DigitsReadBack(digits: seq<Octet>, count: nat, i: nat)
    requires AllDialable(digits) && i <= |digits| <= count <= 2 * |AddressOctets(digits)|
    ensures DigitsFrom(AddressOctets(digits), count, i) == digits[i..]
    decreases |digits| - i
  {
    hide AddressOctets, Nibble;
    if i < |digits| {
      NibbleOf(digits, i);
      DigitsReadBack(digits, count, i + 1);
    } else if i < count {
      NibbleOf(digits, i);
    }
  }

  lemma {:induction false} DigitsAlphabet(data: seq<Octet>, count: nat, i: nat)
    ensures forall k :: 0 <= k < |DigitsFrom(data, count, i)| ==> 0x30 <= DigitsFrom(data, count, i)[k] <= 0x3E
    decreases count - i
  {
    if !(i >= count || i / 2 >= |data| || Nibble(data, i) == 0x0F) { DigitsAlphabet(data, count, i + 1); }
  }

  /** A number survives encoding and decoding exactly when all its digits are among '0' to '>'. */
  lemma AddressRoundTrip(msisdn: seq<Octet>)
    ensures var digits := Digits(msisdn);
            AddressText(AddressOctets(digits), |digits|, AddressType(msisdn)) == msisdn <==> AllDialable(digits)
  {
    hide AddressOctets, DigitsFrom, DecodeText, UnpackedAt;
    var digits := Digits(msisdn);
    var back := AddressText(AddressOctets(digits), |digits|, AddressType(msisdn));
    if AllDialable(digits) {
      DigitsReadBack(digits, |digits|, 0);
    } else {
      DigitsAlphabet(AddressOctets(digits), |digits|, 0);
      var i :| 0 <= i < |digits| && !Dialable(digits[i]);
      var j := if AddressType(msisdn) == INTERNATIONAL then i + 1 else i;
      assert msisdn[j] == digits[i];
      assert j < |back| ==> back[j] == DigitsFrom(AddressOctets(digits), |digits|, 0)[i];
    }
  }

  // ---- Against the standard ----

  /** The semi-octets up to the first filler, the count or the end of the data. */
  function SemiOctets(data: seq<Octet>, count: nat, i: nat): (so: seq<nat>)
    ensures forall k :: 0 <= k < |so| ==> so[k] < 15
    decreases count - i
  {
    if i >= count || i / 2 >= |data| || Nibble(data, i) == 0x0F then []
    else [Nibble(data, i)] + SemiOctets(data, count, i + 1)
  }

  /** The characters of section 9.1.2.3 of 3GPP TS 23.040: the digits, '*', '#', 'a', 'b' and 'c'. */
  function StandardDigit(n: nat): Rune
    requires n < 15
  {
    if n < 10 then 0x30 + n else [0x2A, 0x23, 0x61, 0x62, 0x63][n - 10]
  }

  function StandardDigits(so: seq<nat>): (t: Text)
    requires forall k :: 0 <= k < |so| ==> so[k] < 15
    ensures |t| == |so|
  {
    seq(|so|, k requires 0 <= k < |so| => StandardDigit(so[k]))
  }

  /** Bits 6 to 4 of the type of address; 1 is an international number, 5 an alphanumeric address. */
  function TypeOfNumber(addrType: Octet): nat { (addrType / 16) % 8 }

  /** An address as section 9.1.2.5 has it: the count is in useful semi-octets also for septets. */
  function StandardAddress(data: seq<Octet>, count: nat, addrType: Octet): Text {
    if TypeOfNumber(addrType) == 5 then DecodeText(UnpackedAt(data, 0, (4 * count) / 7))
    else StandardNumber(data, count, addrType)
  }

  function StandardNumber(data: seq<Octet>, count: nat, addrType: Octet): Text {
    (if TypeOfNumber(addrType) == 1 then [0x2B] else []) + StandardDigits(SemiOctets(data, count, 0))
  }

  lemma {:induction false} DigitsAreSemiOctets(data: seq<Octet>, count: nat, i: nat)
    ensures var so := SemiOctets(data, count, i);
            && |DigitsFrom(data, count, i)| == |so|
            && forall k :: 0 <= k < |so| ==> DigitsFrom(data, count, i)[k] == 0x30 + so[k]
    decreases count - i
  {
    hide Nibble;
    if !(i >= count || i / 2 >= |data| || Nibble(data, i) == 0x0F) { DigitsAreSemiOctets(data, count, i + 1); }
  }

  /** The fields of section 9.1.2.5: the types that encodeBCDAddress writes say a telephone number, international with a plus
      sign and unknown without; the alphanumeric type has no plan. */
  lemma TypeFields(to: seq<Octet>)
    ensures var t := AddressType(to);
            && t / 128 == 1 && t % 16 == 1 && TypeOfNumber(t) == if |to| > 0 && to[0] as char == '+' then 1 else 0
    ensures ALPHANUMERIC / 128 == 1 && ALPHANUMERIC % 16 == 0 && TypeOfNumber(ALPHANUMERIC) == 5
  {
  }

  /** No semi-octet from 1010 to 1110, and the telephone numbering plan if the number is international. */
  predicate IsPlain(data: seq<Octet>, count: nat, addrType: Octet) {
    && (forall k :: 0 <= k < |SemiOctets(data, count, 0)| ==> SemiOctets(data, count, 0)[k] <= 9)
    && (TypeOfNumber(addrType) == 1 ==> addrType == INTERNATIONAL)
  }

  /** A number is read as the standard has it exactly when none of its semi-octets is 1010 to 1110 and, if it is
      international, its numbering plan is the telephone plan. */
  lemma NumberAgreement(data: seq<Octet>, count: nat, addrType: Octet)
    requires TypeOfNumber(addrType) != 5
    ensures AddressText(data, count, addrType) == StandardAddress(data, count, addrType) <==>
            IsPlain(data, count, addrType)
  {
    hide DigitsFrom, SemiOctets, StandardDigits;
    var so := SemiOctets(data, count, 0);
    var ours, theirs := DigitsFrom(data, count, 0), StandardDigits(so);
    DigitsAreSemiOctets(data, count, 0);
    DigitsAgree(ours, so);
    assert addrType != ALPHANUMERIC && (addrType == INTERNATIONAL ==> TypeOfNumber(addrType) == 1);
    hide TypeOfNumber;
    PlusInFront(ours, theirs);
  }

  lemma PlusInFront(a: Text, b: Text)
    requires |a| == |b|
    ensures [0x2B] + a == [0x2B] + b <==> a == b
    ensures a != [0x2B] + b && [] + a == a && [] + b == b
  {
    assert ([0x2B] + a)[1..] == a && ([0x2B] + b)[1..] == b;
    assert |[0x2B] + b| == |b| + 1;
  }

  lemma DigitsAgree(ours: Text, so: seq<nat>)
    requires |ours| == |so| && forall k :: 0 <= k < |so| ==> so[k] < 15 && ours[k] == 0x30 + so[k]
    ensures ours == StandardDigits(so) <==> forall k :: 0 <= k < |so| ==> so[k] <= 9
  {
    if ours == StandardDigits(so) {
      forall k | 0 <= k < |so| ensures so[k] <= 9 { assert ours[k] == StandardDigits(so)[k]; }
    }
  }

  /** The service code *100#, as the standard lays it out, is read as ":100;". */
  lemma ServiceCodeMisread()
    ensures StandardAddress([0x1A, 0x00, 0xFB], 5, UNKNOWN) == [0x2A, 0x31, 0x30, 0x30, 0x23]
    ensures AddressText([0x1A, 0x00, 0xFB], 5, UNKNOWN) == [0x3A, 0x31, 0x30, 0x30, 0x3B]
  {
    ServiceCode();
    DigitsAreSemiOctets([0x1A, 0x00, 0xFB], 5, 0);
    hide DigitsFrom, SemiOctets, DecodeText, UnpackedAt;
  }

  lemma ServiceCode()
    ensures SemiOctets([0x1A, 0x00, 0xFB], 5, 0) == [10, 1, 0, 0, 11]
  {
    var data := [0x1A, 0x00, 0xFB];
    assert Nibble(data, 0) == 10 && Nibble(data, 1) == 1 && Nibble(data, 2) == 0 && Nibble(data, 3) == 0 && Nibble(data, 4) == 11;
    hide Nibble;
    assert SemiOctets(data, 5, 5) == [];
    assert SemiOctets(data, 5, 4) == [11];
    assert SemiOctets(data, 5, 3) == [0, 11];
    assert SemiOctets(data, 5, 2) == [0, 0, 11];
    assert SemiOctets(data, 5, 1) == [1, 0, 0, 11];
  }

  /** The digits encodeBCDAddress lays out as the standard has them: decimal ones anywhere, a star only where the bits that
      stick out of it do no harm, in the second half of an octet or in front of the filler. */
  predicate Sendable(digits: seq<Octet>) {
    forall i :: 0 <= i < |digits| ==>
      IsDecimal(digits[i]) || (digits[i] == STAR && (i % 2 == 1 || i == |digits| - 1))
  }

  const STAR: Octet := 0x2A

  predicate IsDecimal(c: Octet) { 0x30 <= c <= 0x39 }

  /** The semi-octet of a character, and when the standard reads that character from it. */
  function SemiOctetOf(c: Octet): nat { SubOctet(c, ZERO) % 16 }

  lemma ReadsItself(c: Octet)
    ensures SemiOctetOf(c) < 15 && StandardDigit(SemiOctetOf(c)) == c <==> IsDecimal(c) || c == STAR
  {
    var n := SemiOctetOf(c);
    assert n == (c + 16 - 0x30 % 16) % 16 == c % 16;
  }

  /** What is laid out for character k. */
  lemma LaidOut(digits: seq<Octet>, k: nat)
    requires k < |digits|
    ensures k / 2 < |AddressOctets(digits)|
    ensures k % 2 == 0 ==> Nibble(AddressOctets(digits), k) == SemiOctetOf(digits[k])
    ensures k % 2 == 1 ==>
              Nibble(AddressOctets(digits), k) == Or(SubOctet(digits[k - 1], ZERO) / 16, HighPart(digits[k]) % 16)
  {
    hide SemiOctet, Or;
    var p := Padded(digits);
    var i := k / 2;
    SemiOctetHalves(p[2 * i], p[2 * i + 1]);
    assert AddressOctets(digits)[i] == SemiOctet(p[2 * i], p[2 * i + 1]);
  }

  /** Behind a decimal digit a character gets its own semi-octet; behind a star it becomes the filler. */
  lemma SecondHalf(first: Octet, second: Octet)
    ensures IsDecimal(first) ==> Or(SubOctet(first, ZERO) / 16, HighPart(second) % 16) == HighPart(second) % 16
    ensures first == STAR ==> Or(SubOctet(first, ZERO) / 16, HighPart(second) % 16) == 0x0F
  {
    if first == STAR { OrFifteen(HighPart(second) % 16); }
  }

  lemma OrFifteen(n: nat)
    requires n < 16
    ensures Or(15, n) == 15
  {
    hide Or;
    OrEitherWay(7, n / 2, 15, n);
    OrEitherWay(3, n / 4, 7, n / 2);
    OrEitherWay(1, n / 8, 3, n / 4);
    OrEitherWay(0, n / 16, 1, n / 8);
    OrZero(n / 16);
  }

  lemma OrZero(n: nat)
    ensures Or(0, n) == n
  {
  }

  lemma OrEitherWay(a: nat, b: nat, x: nat, y: nat)
    requires x == 2 * a + 1 && b == y / 2
    ensures Or(x, y) == 1 + 2 * Or(a, b)
  {
    if y == 0 { OrNothing(a); }
  }

  lemma OrNothing(a: nat)
    ensures Or(a, 0) == a
  {
  }

  /** Character k is read back as itself exactly when it may stand there, given that those in front of it may. */
  lemma CharacterBack(digits: seq<Octet>, k: nat)
    requires k < |digits| && k / 2 < |AddressOctets(digits)|
    requires k % 2 == 1 ==> IsDecimal(digits[k - 1])
    ensures var n := Nibble(AddressOctets(digits), k);
            n < 15 && StandardDigit(n) == digits[k] <==> IsDecimal(digits[k]) || digits[k] == STAR
  {
    hide AddressOctets, Nibble, Or, StandardDigit;
    LaidOut(digits, k);
    ReadsItself(digits[k]);
    if k % 2 == 1 { SecondHalf(digits[k - 1], digits[k]); }
  }

  lemma {:induction false} SemiOctetsAll(data: seq<Octet>, count: nat, i: nat)
    requires i <= count <= 2 * |data|
    ensures var so := SemiOctets(data, count, i);
            && |so| <= count - i
            && (forall k :: 0 <= k < |so| ==> so[k] == Nibble(data, i + k))
            && (|so| == count - i <==> forall k: nat :: i <= k < count ==> Nibble(data, k) != 0x0F)
    decreases count - i
  {
    hide Nibble;
    if i < count && Nibble(data, i) != 0x0F {
      SemiOctetsAll(data, count, i + 1);
      var so, rest := SemiOctets(data, count, i), SemiOctets(data, count, i + 1);
      assert forall k :: 0 < k < |so| ==> so[k] == rest[k - 1] == Nibble(data, i + 1 + (k - 1));
    }
  }

  /** A number encoded by the gateway is read back by the standard exactly when it is Sendable. */
  lemma StandardReadsBack(digits: seq<Octet>)
    ensures StandardDigits(SemiOctets(AddressOctets(digits), |digits|, 0)) == digits <==> Sendable(digits)
  {
    hide AddressOctets, SemiOctets, StandardDigits, IsDecimal, BackAt;
    var data := AddressOctets(digits);
    ReadBackElementwise(data, digits);
    if Sendable(digits) {
      forall k: nat | k < |digits| ensures BackAt(data, digits, k) { SendableBack(digits, k); }
    } else if forall k: nat :: k < |digits| ==> BackAt(data, digits, k) {
      forall k: nat | k < |digits|
        ensures IsDecimal(digits[k]) || (digits[k] == STAR && (k % 2 == 1 || k == |digits| - 1))
      {
        BackMeansSendable(digits, k);
      }
    }
  }

  /** Character k is read back as itself. */
  predicate BackAt(data: seq<Octet>, digits: seq<Octet>, k: nat)
    requires k < |digits| <= 2 * |data|
  {
    var n := Nibble(data, k);
    n < 15 && StandardDigit(n) == digits[k]
  }

  lemma ReadBackElementwise(data: seq<Octet>, digits: seq<Octet>)
    requires |digits| <= 2 * |data|
    ensures StandardDigits(SemiOctets(data, |digits|, 0)) == digits <==>
            forall k: nat :: k < |digits| ==> BackAt(data, digits, k)
  {
    hide SemiOctets, StandardDigit;
    var so := SemiOctets(data, |digits|, 0);
    SemiOctetsAll(data, |digits|, 0);
    hide Nibble;
    if StandardDigits(so) == digits {
      forall k: nat | k < |digits| ensures BackAt(data, digits, k) {
        assert so[k] == Nibble(data, 0 + k) && StandardDigits(so)[k] == digits[k];
      }
    }
    if forall k: nat :: k < |digits| ==> BackAt(data, digits, k) {
      forall k: nat | 0 <= k < |digits| ensures Nibble(data, k) != 0x0F { assert BackAt(data, digits, k); }
      forall k: nat | k < |digits| ensures StandardDigits(so)[k] == digits[k] {
        assert BackAt(data, digits, k) && so[k] == Nibble(data, 0 + k);
      }
    }
  }

  lemma SendableBack(digits: seq<Octet>, k: nat)
    requires Sendable(digits) && k < |digits| <= 2 * |AddressOctets(digits)|
    ensures BackAt(AddressOctets(digits), digits, k)
  {
    hide AddressOctets, Nibble, StandardDigit, IsDecimal;
    if k % 2 == 1 { assert (k - 1) % 2 == 0 && IsDecimal(digits[k - 1]); }
    CharacterBack(digits, k);
  }

  /** The bits that stick out of a star turn the digit behind it into the filler: "*1" is read as "*". */
  lemma StarSpoilsNext()
    ensures StandardDigits(SemiOctets(AddressOctets([0x2A, 0x31]), 2, 0)) == [0x2A]
  {
    hide SemiOctets, AddressOctets, Or;
    SecondHalf(0x2A, 0x31);
    PairLaidOut(0x2A, 0x31, 10, 15);
  }

  /** ":1" is laid out as "*1". */
  lemma ColonIsStar()
    ensures StandardDigits(SemiOctets(AddressOctets([0x3A, 0x31]), 2, 0)) == [0x2A, 0x31]
  {
    hide SemiOctets, AddressOctets, Or;
    OrZero(1);
    PairLaidOut(0x3A, 0x31, 10, 1);
  }

  lemma PairLaidOut(first: Octet, second: Octet, low: nat, high: nat)
    requires SemiOctetOf(first) == low < 15 && Or(SubOctet(first, ZERO) / 16, HighPart(second) % 16) == high
    ensures SemiOctets(AddressOctets([first, second]), 2, 0) == if high == 15 then [low] else [low, high]
  {
    hide Or, AddressOctets, SubOctet, HighPart;
    var digits := [first, second];
    var data := AddressOctets(digits);
    LaidOut(digits, 0);
    LaidOut(digits, 1);
    hide Nibble;
    assert SemiOctets(data, 2, 2) == [];
    assert SemiOctets(data, 2, 1) == if high == 15 then [] else [high];
  }

  /** The same with the plus sign. */
  lemma DestinationBack(to: seq<Octet>)
    ensures var digits := Digits(to);
            StandardAddress(AddressOctets(digits), |digits|, AddressType(to)) == to <==> Sendable(digits)
  {
    assert TypeOfNumber(UNKNOWN) == 0 && TypeOfNumber(INTERNATIONAL) == 1;
    hide AddressOctets, SemiOctets, StandardDigits, Sendable, TypeOfNumber, DecodeText, UnpackedAt;
    var digits := Digits(to);
    StandardReadsBack(digits);
    var back := StandardDigits(SemiOctets(AddressOctets(digits), |digits|, 0));
    if AddressType(to) == INTERNATIONAL {
      assert to == [0x2B] + digits;
      SamePlus(back, digits);
    } else {
      assert to == digits && [] + back == back;
    }
  }

  lemma SamePlus(a: Text, b: seq<Octet>)
    ensures [0x2B] + a == [0x2B] + b <==> a == b
  {
    assert ([0x2B] + a)[1..] == a && ([0x2B] + b)[1..] == b;
  }

  lemma BackMeansSendable(digits: seq<Octet>, k: nat)
    requires k < |digits|
    requires |digits| <= 2 * |AddressOctets(digits)|
    requires forall j: nat :: j < |digits| ==> BackAt(AddressOctets(digits), digits, j)
    ensures IsDecimal(digits[k]) || (digits[k] == STAR && (k % 2 == 1 || k == |digits| - 1))
  {
    hide AddressOctets, Nibble, StandardDigit, IsDecimal, Or;
    var e := if k % 2 == 1 then k - 1 else k;
    assert BackAt(AddressOctets(digits), digits, e) && BackAt(AddressOctets(digits), digits, k);
    CharacterBack(digits, e);
    if e + 1 < |digits| {
      assert BackAt(AddressOctets(digits), digits, e + 1);
      LaidOut(digits, e + 1);
      SecondHalf(digits[e], digits[e + 1]);
    }
    if k % 2 == 1 { CharacterBack(digits, k); }
  }

  /** The semi-octets that section 9.1.2.5 counts for an alphanumeric address of n septets. */
  function UsefulSemiOctets(n: nat): nat { (7 * n + 3) / 4 }

  /** How many septets the decoder takes from such an address: one too many when n is 7 modulo 8. */
  lemma AlphanumericCount(n: nat)
    ensures var data: nat := (UsefulSemiOctets(n) + 1) / 2;
            && data == PackedLen(n, 0)
            && (if UsefulSemiOctets(n) > (data * 8) / 7 then (data * 8) / 7 else UsefulSemiOctets(n))
               == if n % 8 == 7 then n + 1 else n
  {
    var q, r := n / 8, n % 8;
    var u := UsefulSemiOctets(n);
    assert u == 14 * q + (7 * r + 3) / 4;
    assert (u + 1) / 2 == 7 * q + r == PackedLen(n, 0);
    assert ((7 * q + r) * 8) / 7 == 8 * q + (8 * r) / 7;
  }

  /** The septets the decoder takes from an alphanumeric address. */
  lemma AlphanumericCodes(codes: seq<Septet>)
    ensures var data := Packed(codes, 0);
            UnpackedAt(data, 0, ClampedCount(data, UsefulSemiOctets(|codes|)))
            == if |codes| % 8 == 7 then codes + [0] else codes
  {
    var data := Packed(codes, 0);
    AlphanumericCount(|codes|);
    PackUnpack(codes, 0);
    FillerSeptet(codes);
    OneMoreSeptet(data, |codes|);
  }

  lemma StandardCount(n: nat)
    ensures (4 * UsefulSemiOctets(n)) / 7 == n
  {
    var u := UsefulSemiOctets(n);
    assert 7 * n <= 4 * u <= 7 * n + 3;
  }

  lemma OneMoreSeptet(data: seq<Octet>, n: nat)
    ensures UnpackedAt(data, 0, n + 1) == UnpackedAt(data, 0, n) + [SeptetAt(data, 7 * n)]
  {
  }

  /** An alphanumeric sender comes back exactly when its septets do not end one short of an octet
      boundary; otherwise the seven filler bits are read as one more '@'. */
  lemma AlphanumericSender(s: Text)
    requires IsGsm7(s) && 0x1B !in s
    ensures var codes := EncodeText(s);
            var back := AddressText(Packed(codes, 0), UsefulSemiOctets(|codes|), ALPHANUMERIC);
            && back == (if |codes| % 8 == 7 then s + [0x40] else s)
            && (back == s <==> |codes| % 8 != 7)
            && StandardAddress(Packed(codes, 0), UsefulSemiOctets(|codes|), ALPHANUMERIC) == s
  {
    hide StandardAddress;
    var codes := EncodeText(s);
    AlphanumericByStandard(s);
    TextRoundTrip(s);
    EncodeDecode(s);
    AlphanumericCodes(codes);
    hide UnpackedAt, Packed, IsGsm7, EncodeText, ClampedCount;
    if |codes| % 8 == 7 {
      DecodeConcat(codes, [0]);
      ZeroIsAt();
    }
  }

  lemma ZeroIsAt()
    ensures DecodeText([0]) == [0x40]
  {
    assert [0][1..] == [];
  }

  lemma AlphanumericByStandard(s: Text)
    requires IsGsm7(s) && 0x1B !in s
    ensures var codes := EncodeText(s);
            StandardAddress(Packed(codes, 0), UsefulSemiOctets(|codes|), ALPHANUMERIC) == s
  {
    assert TypeOfNumber(ALPHANUMERIC) == 5;
    hide UnpackedAt, Packed, DecodeText, EncodeText, IsGsm7, StandardNumber, TypeOfNumber;
    var codes := EncodeText(s);
    TextRoundTrip(s);
    PackUnpack(codes, 0);
    StandardCount(|codes|);
    hide UsefulSemiOctets;
  }

  /** The sender "AAAAAAA" is read as "AAAAAAA@". */
  lemma SevenLetters()
    ensures var codes := EncodeText(Repeated(0x41, 7));
            AddressText(Packed(codes, 0), UsefulSemiOctets(|codes|), ALPHANUMERIC) == Repeated(0x41, 7) + [0x40]
  {
    hide AddressText, StandardAddress, Packed, IsGsm7, EncodeText;
    Letters(7);
    AlphanumericSender(Repeated(0x41, 7));
  }

  lemma FillerSeptet(codes: seq<Septet>)
    ensures SeptetAt(Packed(codes, 0), 7 * |codes|) == 0
  {
    var c := SeptetAt(Packed(codes, 0), 7 * |codes|);
    OctetSize();
    forall b | 0 <= b < 7 ensures Bit(c, b) == Bit(0, b) {
      ZeroBits(b);
      var j: nat := 7 * |codes| + b;
      assert StreamBit(Packed(codes, 0), j) ==> CodeBit(codes, 0, j);
    }
    SameBits(c, 0, 7);
  }
}
