/** Octets as hexadecimal text: how a PDU crosses the AT interface, and what its hash is taken of. */
module Hex {
  import opened Options
  import opened Octets
  import opened Gsm7Text

  const UPPER := "0123456789ABCDEF"

  function HexEncode(data: seq<Octet>): (s: string)
    ensures |s| == 2 * |data|
  {
    seq(2 * |data|, i requires 0 <= i < 2 * |data| => if i % 2 == 0 then UPPER[data[i / 2] / 16] else UPPER[data[i / 2] % 16])
  }

  function HexDigit(c: char): Option<nat> {
    if '0' <= c <= '9' then Some((c - '0') as nat)
    else if 'A' <= c <= 'F' then Some((c - 'A') as nat + 10)
    else if 'a' <= c <= 'f' then Some((c - 'a') as nat + 10)
    else None
  }

  predicate AllHex(s: string) {
    |s| % 2 == 0 && forall i :: 0 <= i < |s| ==> HexDigit(s[i]).Some?
  }

  function OctetOf(s: string, i: nat): Octet
    requires AllHex(s) && 2 * i + 1 < |s|
  {
    16 * HexDigit(s[2 * i]).value + HexDigit(s[2 * i + 1]).value
  }

  /** hex.DecodeString: fails on an odd length or a character that is no digit. */
  function HexDecode(s: string): (r: Option<seq<Octet>>)
    ensures r.Some? <==> AllHex(s)
    ensures r.Some? ==> |r.value| == |s| / 2
  {
    if AllHex(s) then Some(seq(|s| / 2, i requires 0 <= i < |s| / 2 => OctetOf(s, i))) else None
  }

  lemma DigitRoundTrip(x: nat)
    requires x < 16
    ensures HexDigit(UPPER[x]) == Some(x)
  {
  }

  lemma HexRoundTrip(data: seq<Octet>)
    ensures HexDecode(HexEncode(data)) == Some(data)
  {
    hide HexDigit;
    var s := HexEncode(data);
    forall i | 0 <= i < |s| ensures HexDigit(s[i]).Some? {
      DigitRoundTrip(data[i / 2] / 16);
      DigitRoundTrip(data[i / 2] % 16);
    }
    forall i | 0 <= i < |data| ensures OctetOf(s, i) == data[i] {
      PairRoundTrip(data, i);
    }
    assert HexDecode(s).value == data;
  }

  lemma PairRoundTrip(data: seq<Octet>, i: nat)
    requires i < |data|
    ensures HexDigit(HexEncode(data)[2 * i]) == Some(data[i] / 16)
    ensures HexDigit(HexEncode(data)[2 * i + 1]) == Some(data[i] % 16)
  {
    hide HexDigit;
    DigitRoundTrip(data[i] / 16);
    DigitRoundTrip(data[i] % 16);
    assert (2 * i) / 2 == i && (2 * i + 1) / 2 == i;
  }

  // ---- Normal form ----

  /** strings.ToUpper, on the letters that matter: no other character maps to a hexadecimal digit. */
  function UpperChar(c: char): char {
    if 'a' <= c <= 'z' then ((c as int) - 32) as char else c
  }

  /** unicode.IsSpace. */
  predicate IsSpace(c: char) {
    var u := c as int;
    || 0x09 <= u <= 0x0D || u == 0x20 || u == 0x85 || u == 0xA0 || u == 0x1680 || 0x2000 <= u <= 0x200A
    || u == 0x2028 || u == 0x2029 || u == 0x202F || u == 0x205F || u == 0x3000
  }

  /** The characters with the property White_Space in Unicode. */
  const WHITE_SPACE: string :=
    "\t\n\U{000B}\U{000C}\r \U{0085}\U{00A0}\U{1680}\U{2000}\U{2001}\U{2002}\U{2003}\U{2004}\U{2005}\U{2006}" +
    "\U{2007}\U{2008}\U{2009}\U{200A}\U{2028}\U{2029}\U{202F}\U{205F}\U{3000}"

  lemma SpaceIsWhite(c: char)
    ensures IsSpace(c) <==> c in WHITE_SPACE
  {
    if IsSpace(c) {
      var u := c as int;
      var i :=
        if u <= 0x0D then u - 0x09 else if u == 0x20 then 5 else if u == 0x85 then 6 else if u == 0xA0 then 7
        else if u == 0x1680 then 8 else if u <= 0x200A then 9 + u - 0x2000 else if u <= 0x2029 then 20 + u - 0x2028
        else if u == 0x202F then 22 else if u == 0x205F then 23 else 24;
      assert WHITE_SPACE[i] == c;
    }
  }

  function TrimSpace(s: string): (t: string)
    decreases |s|
  {
    if s == [] then s
    else if IsSpace(s[0]) then TrimSpace(s[1..])
    else if IsSpace(s[|s| - 1]) then TrimSpace(s[..|s| - 1])
    else s
  }

  function ToUpper(s: string): (t: string)
    ensures |t| == |s|
  {
    seq(|s|, i requires 0 <= i < |s| => UpperChar(s[i]))
  }

  /** The text DecodePDU works on and hashes. */
  function Normalize(s: string): string {
    TrimSpace(ToUpper(s))
  }

  lemma {:induction false} TrimKeepsUpper(s: string)
    requires forall i :: 0 <= i < |s| ==> !('a' <= s[i] <= 'z')
    ensures forall i :: 0 <= i < |TrimSpace(s)| ==> !('a' <= TrimSpace(s)[i] <= 'z')
    decreases |s|
  {
    if s != [] {
      if IsSpace(s[0]) { TrimKeepsUpper(s[1..]); }
      else if IsSpace(s[|s| - 1]) { TrimKeepsUpper(s[..|s| - 1]); }
    }
  }

  /** The hashed text is canonical: it is the upper-case hexadecimal form of the octets read from it. So two
      readings of one PDU that differ in case or surrounding space give one hash, and two PDUs never share
      the text that is hashed. */
  lemma NormalizedIsCanonical(s: string)
    requires HexDecode(Normalize(s)).Some?
    ensures Normalize(s) == HexEncode(HexDecode(Normalize(s)).value)
  {
    var t := Normalize(s);
    var data := HexDecode(t).value;
    TrimKeepsUpper(ToUpper(s));
    forall i | 0 <= i < |t| ensures t[i] == HexEncode(data)[i] {
      var k := i / 2;
      assert i == 2 * k || i == 2 * k + 1;
      OctetParts(t, k);
      UpperDigit(t[i]);
      assert data[k] == OctetOf(t, k);
    }
  }

  lemma OctetParts(s: string, k: nat)
    requires AllHex(s) && 2 * k + 1 < |s|
    ensures OctetOf(s, k) / 16 == HexDigit(s[2 * k]).value && OctetOf(s, k) % 16 == HexDigit(s[2 * k + 1]).value
  {
    var a, b := HexDigit(s[2 * k]).value, HexDigit(s[2 * k + 1]).value;
    assert a < 16 && b < 16;
  }

  lemma UpperDigit(c: char)
    requires HexDigit(c).Some? && !('a' <= c <= 'z')
    ensures HexDigit(c).value < 16 && UPPER[HexDigit(c).value] == c
  {
  }

  predicate AllSpace(s: string) {
    forall i :: 0 <= i < |s| ==> IsSpace(s[i])
  }

  predicate NoSpace(s: string) {
    forall i :: 0 <= i < |s| ==> !IsSpace(s[i])
  }

  lemma {:induction false} TrimsBoth(left: string, s: string, right: string)
    requires AllSpace(left) && NoSpace(s) && AllSpace(right)
    ensures TrimSpace(left + s + right) == s
    decreases |left| + |right|
  {
    hide IsSpace;
    var t := left + s + right;
    if left != [] {
      assert t[1..] == left[1..] + s + right;
      TrimsBoth(left[1..], s, right);
    } else if right != [] {
      var r := right[..|right| - 1];
      assert t[..|t| - 1] == left + s + r;
      TrimsBoth(left, s, r);
      if s == [] { TrimSpaces(t); }
    } else {
      assert t == s;
    }
  }

  lemma {:induction false} TrimSpaces(s: string)
    requires AllSpace(s)
    ensures TrimSpace(s) == []
  {
    if s != [] { TrimSpaces(s[1..]); }
  }

  lemma DigitUpper(c: char)
    requires HexDigit(c).Some?
    ensures HexDigit(UpperChar(c)) == HexDigit(c) && !IsSpace(UpperChar(c))
  {
  }

  lemma SpaceUpper(c: char)
    requires IsSpace(c)
    ensures IsSpace(UpperChar(c))
  {
  }

  lemma UpperReads(t: string)
    requires AllHex(t)
    ensures NoSpace(ToUpper(t)) && HexDecode(ToUpper(t)) == HexDecode(t)
  {
    hide HexDigit, UpperChar, IsSpace;
    var u := ToUpper(t);
    forall i | 0 <= i < |t| ensures HexDigit(u[i]) == HexDigit(t[i]) && !IsSpace(u[i]) { DigitUpper(t[i]); }
    forall i | 0 <= i < |t| / 2 ensures OctetOf(u, i) == OctetOf(t, i) {
      assert HexDigit(u[2 * i]) == HexDigit(t[2 * i]) && HexDigit(u[2 * i + 1]) == HexDigit(t[2 * i + 1]);
    }
    assert HexDecode(u).value == HexDecode(t).value;
  }

  lemma SpacesUpper(s: string)
    requires AllSpace(s)
    ensures AllSpace(ToUpper(s))
  {
    hide UpperChar, IsSpace;
    forall i | 0 <= i < |s| ensures IsSpace(ToUpper(s)[i]) { SpaceUpper(s[i]); }
  }

  /** Hexadecimal text of any case with any space around it is read as the octets it stands for. */
  lemma NormalizeReads(left: string, t: string, right: string)
    requires AllSpace(left) && AllHex(t) && AllSpace(right)
    ensures HexDecode(Normalize(left + t + right)) == HexDecode(t)
  {
    hide AllHex, HexDecode, AllSpace, NoSpace, UpperChar;
    UpperReads(t);
    SpacesUpper(left);
    SpacesUpper(right);
    assert ToUpper(left + t + right) == ToUpper(left) + ToUpper(t) + ToUpper(right);
    TrimsBoth(ToUpper(left), ToUpper(t), ToUpper(right));
  }
}
