/** Text as big-endian 16-bit units, with surrogate pairs above U+FFFF (section 2 of RFC 2781). */
module Ucs2 {
  import opened Octets
  import opened Gsm7Text

  type Unit = u: int | 0 <= u < 0x1_0000

  predicate High(u: Unit) { 0xD800 <= u < 0xDC00 }
  predicate Low(u: Unit) { 0xDC00 <= u < 0xE000 }

  /** A rune above the Basic Multilingual Plane, which needs two units. */
  predicate Astral(r: Rune) { r >= 0x1_0000 }

  function EncodeUnits(r: Rune): (u: seq<Unit>)
    ensures |u| == if Astral(r) then 2 else 1
  {
    if Astral(r) then [0xD800 + (r - 0x1_0000) / 0x400, 0xDC00 + (r - 0x1_0000) % 0x400] else [r]
  }

  /** utf16.Encode. */
  function Utf16Encode(s: Text): seq<Unit> {
    if s == [] then [] else EncodeUnits(s[0]) + Utf16Encode(s[1..])
  }

  /** utf16.Decode: a surrogate without its partner becomes U+FFFD. */
  function Utf16Decode(u: seq<Unit>): Text {
    if u == [] then [] else [HeadRune(u)] + Utf16Decode(u[HeadLen(u)..])
  }

  function HeadLen(u: seq<Unit>): (k: nat)
    requires u != []
    ensures 1 <= k <= |u|
  {
    if High(u[0]) && |u| > 1 && Low(u[1]) then 2 else 1
  }

  function HeadRune(u: seq<Unit>): Rune
    requires u != []
  {
    if HeadLen(u) == 2 then 0x1_0000 + ((u[0] as int) - 0xD800) * 0x400 + ((u[1] as int) - 0xDC00)
    else if High(u[0]) || Low(u[0]) then 0xFFFD
    else u[0]
  }

  /** Every surrogate stands in a pair. */
  predicate WellFormed(u: seq<Unit>) {
    u == [] ||
    (if High(u[0]) then |u| > 1 && Low(u[1]) && WellFormed(u[2..]) else !Low(u[0]) && WellFormed(u[1..]))
  }

  lemma {:induction false} Utf16RoundTrip(s: Text)
    ensures WellFormed(Utf16Encode(s)) && Utf16Decode(Utf16Encode(s)) == s
  {
    if s != [] {
      var u := Utf16Encode(s);
      Utf16RoundTrip(s[1..]);
      assert u[|EncodeUnits(s[0])|..] == Utf16Encode(s[1..]);
    }
  }

  /** In the other direction exactly the well-formed unit strings survive. */
  lemma {:induction false} Utf16Canonical(u: seq<Unit>)
    ensures Utf16Encode(Utf16Decode(u)) == u <==> WellFormed(u)
  {
    if WellFormed(u) {
      WellFormedCanonical(u);
    } else if Utf16Encode(Utf16Decode(u)) == u {
      Utf16RoundTrip(Utf16Decode(u));
    }
  }

  lemma {:induction false} WellFormedCanonical(u: seq<Unit>)
    requires WellFormed(u)
    ensures Utf16Encode(Utf16Decode(u)) == u
  {
    if u != [] {
      var k := if High(u[0]) then 2 else 1;
      WellFormedCanonical(u[k..]);
      assert u == u[..k] + u[k..];
      var s := Utf16Decode(u);
      assert s[1..] == Utf16Decode(u[k..]);
      assert EncodeUnits(s[0]) == u[..k];
    }
  }

  lemma FirstOfBoth<T>(s: seq<T>, t: seq<T>)
    requires s != []
    ensures (s + t)[0] == s[0] && (s + t)[1..] == s[1..] + t
  {
  }

  lemma Associative<T>(a: seq<T>, b: seq<T>, c: seq<T>)
    ensures a + (b + c) == (a + b) + c
  {
  }

  /** Decoding continues unit by unit behind a well-formed prefix. */
  lemma {:induction false} DecodeAfter(u: seq<Unit>, v: seq<Unit>)
    requires WellFormed(u)
    ensures Utf16Decode(u + v) == Utf16Decode(u) + Utf16Decode(v)
  {
    if u == [] {
      assert u + v == v;
    } else {
      var k := HeadLen(u);
      SameHead(u, v);
      DecodeAfter(u[k..], v);
      hide WellFormed, HeadLen, HeadRune;
      assert Utf16Decode(u + v) == [HeadRune(u)] + Utf16Decode(u[k..] + v);
      Associative([HeadRune(u)], Utf16Decode(u[k..]), Utf16Decode(v));
    }
  }

  lemma SameHead(u: seq<Unit>, v: seq<Unit>)
    requires WellFormed(u) && u != []
    ensures HeadLen(u + v) == HeadLen(u) && HeadRune(u + v) == HeadRune(u)
    ensures WellFormed(u[HeadLen(u)..]) && (u + v)[HeadLen(u)..] == u[HeadLen(u)..] + v
  {
  }

  lemma EncodeFirst(s: Text)
    requires s != []
    ensures Utf16Encode(s) == EncodeUnits(s[0]) + Utf16Encode(s[1..])
  {
  }

  lemma {:induction false} EncodeConcat(s: Text, t: Text)
    ensures Utf16Encode(s + t) == Utf16Encode(s) + Utf16Encode(t)
  {
    if s == [] {
      assert s + t == t;
    } else {
      hide *;
      EncodeConcat(s[1..], t);
      EncodeFirst(s);
      EncodeFirst(s + t);
      FirstOfBoth(s, t);
      Associative(EncodeUnits(s[0]), Utf16Encode(s[1..]), Utf16Encode(t));
    }
  }

  function AstralCount(s: Text): (n: nat)
    ensures n <= |s|
  {
    if s == [] then 0 else (if Astral(s[0]) then 1 else 0) + AstralCount(s[1..])
  }

  /** The number of units: one for every rune and one more for every astral rune. */
  lemma {:induction false} UnitCount(s: Text)
    ensures |Utf16Encode(s)| == |s| + AstralCount(s)
  {
    if s != [] { UnitCount(s[1..]); }
  }

  // ---- Octets ----

  function HighOctet(u: Unit): Octet { u / 256 }
  function LowOctet(u: Unit): Octet { u % 256 }

  function ToOctets(u: seq<Unit>): (data: seq<Octet>)
    ensures |data| == 2 * |u|
  {
    seq(2 * |u|, i requires 0 <= i < 2 * |u| => if i % 2 == 0 then HighOctet(u[i / 2]) else LowOctet(u[i / 2]))
  }

  function UnitAt(data: seq<Octet>, i: nat): Unit
    requires 2 * i + 1 < |data|
  {
    256 * (data[2 * i] as int) + data[2 * i + 1]
  }

  /** A trailing odd octet belongs to no unit. */
  function ToUnits(data: seq<Octet>): (u: seq<Unit>)
    ensures |u| == |data| / 2
  {
    seq(|data| / 2, i requires 0 <= i < |data| / 2 => UnitAt(data, i))
  }

  lemma UnitsOctets(u: seq<Unit>)
    ensures ToUnits(ToOctets(u)) == u
  {
    var data := ToOctets(u);
    forall i | 0 <= i < |u| ensures UnitAt(data, i) == u[i] {
      assert data[2 * i] == HighOctet(u[i]) && data[2 * i + 1] == LowOctet(u[i]);
    }
  }

  lemma UnitsConcat(a: seq<Octet>, b: seq<Octet>)
    requires |a| % 2 == 0
    ensures ToUnits(a + b) == ToUnits(a) + ToUnits(b)
  {
    forall i | 0 <= i < |a + b| / 2 ensures UnitAt(a + b, i) == (ToUnits(a) + ToUnits(b))[i] {
      if i >= |a| / 2 {
        assert (a + b)[2 * i] == b[2 * i - |a|] && (a + b)[2 * i + 1] == b[2 * i + 1 - |a|];
        assert 2 * i - |a| == 2 * (i - |a| / 2);
      }
    }
  }

  function Ucs2Octets(s: Text): seq<Octet> {
    ToOctets(Utf16Encode(s))
  }

  function Ucs2Text(data: seq<Octet>): Text {
    Utf16Decode(ToUnits(data))
  }

  /** encodeUCS2. */
  method EncodeUcs2(s: Text) returns (out: seq<Octet>)
    ensures out == Ucs2Octets(s)
  {
    var u16 := Utf16Encode(s);
    var buf := new Octet[|u16| * 2](_ => 0);
    for i := 0 to |u16|
      invariant forall k :: 0 <= k < 2 * i ==> buf[k] == ToOctets(u16)[k]
    {
      buf[i * 2] := HighOctet(u16[i]);
      buf[i * 2 + 1] := LowOctet(u16[i]);
    }
    out := buf[..];
  }

  /** decodeUCS2. */
  method DecodeUcs2(raw: seq<Octet>) returns (s: Text)
    ensures s == Ucs2Text(raw)
  {
    var data := raw;
    if |data| % 2 != 0 {
      data := data[..|data| - 1];
    }
    var u16 := new Unit[|data| / 2](_ => 0);
    for i := 0 to u16.Length
      invariant forall k :: 0 <= k < i ==> u16[k] == UnitAt(raw, k)
    {
      u16[i] := 256 * (data[i * 2] as int) + data[i * 2 + 1];
    }
    assert u16[..] == ToUnits(raw);
    s := Utf16Decode(u16[..]);
  }

  /** Every text survives, surrogate pairs and all, and a trailing odd octet changes nothing. */
  lemma Ucs2RoundTrip(s: Text)
    ensures Ucs2Text(Ucs2Octets(s)) == s
    ensures forall x: Octet :: Ucs2Text(Ucs2Octets(s) + [x]) == s
  {
    var u := Utf16Encode(s);
    Utf16RoundTrip(s);
    UnitsOctets(u);
    forall x: Octet ensures Ucs2Text(Ucs2Octets(s) + [x]) == s {
      UnitsConcat(ToOctets(u), [x]);
      assert u + ToUnits([x]) == u;
    }
  }

  /** Octets behind an encoded text: they leave the decoded text alone exactly when they are fewer than two. */
  lemma TrailingOctets(s: Text, extra: seq<Octet>)
    ensures Ucs2Text(Ucs2Octets(s) + extra) == s <==> |extra| <= 1
  {
    var u := Utf16Encode(s);
    Utf16RoundTrip(s);
    UnitsOctets(u);
    UnitsConcat(ToOctets(u), extra);
    DecodeAfter(u, ToUnits(extra));
    assert |Utf16Decode(ToUnits(extra))| > 0 <==> |extra| > 1;
  }

  /** U+1F600 is the pair D83D DE00, high octets first. */
  lemma GrinningFace()
    ensures Ucs2Octets([0x1F600]) == [0xD8, 0x3D, 0xDE, 0x00]
  {
    assert [0x1F600][1..] == [] && Utf16Encode([0x1F600]) == [0xD83D, 0xDE00];
  }
}
