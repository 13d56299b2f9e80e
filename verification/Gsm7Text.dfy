/** Text in the GSM 7-bit default alphabet and its extension table
    (sections 6.2.1 and 6.2.1.1 of 3GPP TS 23.038). */
module Gsm7Text {
  import opened Options
  import opened Octets

  /** A Unicode scalar value. */
  type Rune = r: int | 0 <= r < 0xD800 || 0xE000 <= r < 0x11_0000

  type Text = seq<Rune>

  const ESC: Septet := 0x1B

  // ---- The tables ----

  const CHARSET_LOW: seq<Rune> :=
    [0x40, 0xA3, 0x24, 0xA5, 0xE8, 0xE9, 0xF9, 0xEC, 0xF2, 0xC7, 0x0A, 0xD8, 0xF8, 0x0D, 0xC5, 0xE5,
     0x394, 0x5F, 0x3A6, 0x393, 0x39B, 0x3A9, 0x3A0, 0x3A8, 0x3A3, 0x398, 0x39E, 0x1B, 0xC6, 0xE6, 0xDF, 0xC9]

  /** gsm7Charset: most of the upper three quarters of the table is ASCII. */
  function Charset(c: Septet): Rune {
    if c < 0x20 then CHARSET_LOW[c]
    else if c == 0x24 then 0xA4
    else if c == 0x40 then 0xA1
    else if c == 0x5B then 0xC4 else if c == 0x5C then 0xD6 else if c == 0x5D then 0xD1
    else if c == 0x5E then 0xDC else if c == 0x5F then 0xA7 else if c == 0x60 then 0xBF
    else if c == 0x7B then 0xE4 else if c == 0x7C then 0xF6 else if c == 0x7D then 0xF1
    else if c == 0x7E then 0xFC else if c == 0x7F then 0xE0
    else c
  }

  /** gsm7Extension: what a code means after ESC. */
  function Extension(c: Septet): Option<Rune> {
    if c == 0x0A then Some(0x0C) else if c == 0x14 then Some(0x5E)
    else if c == 0x28 then Some(0x7B) else if c == 0x29 then Some(0x7D)
    else if c == 0x2F then Some(0x5C) else if c == 0x3C then Some(0x5B)
    else if c == 0x3D then Some(0x7E) else if c == 0x3E then Some(0x5D)
    else if c == 0x40 then Some(0x7C) else if c == 0x65 then Some(0x20AC)
    else None
  }

  /** The last code below n whose rune is r; the rune 0 is never entered. */
  function CodeBelow(r: Rune, n: nat): Option<Septet>
    requires n <= 128
  {
    if n == 0 then None
    else if Charset(n - 1) == r && r != 0 then Some(n - 1)
    else CodeBelow(r, n - 1)
  }

  /** Lookup in runeToGSM7. */
  function RuneToCode(r: Rune): Option<Septet> {
    CodeBelow(r, 128)
  }

  /** init: the map filled by running through the charset is that lookup. */
  method BuildRuneToCode() returns (m: map<Rune, Septet>)
    ensures forall r: Rune :: r in m <==> RuneToCode(r).Some?
    ensures forall r: Rune :: r in m ==> RuneToCode(r) == Some(m[r])
  {
    m := map[];
    for i := 0 to 128
      invariant forall r: Rune :: r in m <==> CodeBelow(r, i).Some?
      invariant forall r: Rune :: r in m ==> CodeBelow(r, i) == Some(m[r])
    {
      var r := Charset(i);
      if r != 0 {
        m := m[r := i];
      }
    }
  }

  function ExtBelow(r: Rune, n: nat): Option<Septet>
    requires n <= 128
  {
    if n == 0 then None
    else if Extension(n - 1) == Some(r) then Some(n - 1)
    else ExtBelow(r, n - 1)
  }

  /** The search of the extension table for a rune. */
  function RuneToExt(r: Rune): Option<Septet> {
    ExtBelow(r, 128)
  }

  /** The extension table is injective, so the order in which it is searched does not matter. */
  lemma ExtensionInjective(a: Septet, b: Septet)
    ensures Extension(a).Some? && Extension(a) == Extension(b) ==> a == b
  {
  }

  lemma {:induction false} CodeBelowSound(r: Rune, n: nat)
    requires n <= 128
    ensures var c := CodeBelow(r, n); c.Some? ==> c.value < n && Charset(c.value) == r && r != 0
  {
    if n > 0 { CodeBelowSound(r, n - 1); }
  }

  lemma {:induction false} CodeBelowComplete(c: Septet, n: nat)
    requires c < n <= 128
    ensures Charset(c) != 0 ==> CodeBelow(Charset(c), n).Some?
  {
    if c < n - 1 { CodeBelowComplete(c, n - 1); }
  }

  lemma {:induction false} ExtBelowSound(r: Rune, n: nat)
    requires n <= 128
    ensures var c := ExtBelow(r, n); c.Some? ==> c.value < n && Extension(c.value) == Some(r)
  {
    if n > 0 { ExtBelowSound(r, n - 1); }
  }

  lemma {:induction false} ExtBelowComplete(c: Septet, n: nat)
    requires c < n <= 128 && Extension(c).Some?
    ensures ExtBelow(Extension(c).value, n).Some?
  {
    if c < n - 1 { ExtBelowComplete(c, n - 1); }
  }

  // ---- Encoding and decoding ----

  predicate Representable(r: Rune) {
    RuneToCode(r).Some? || RuneToExt(r).Some?
  }

  /** IsGSM7. */
  predicate IsGsm7(s: Text) {
    forall i :: 0 <= i < |s| ==> Representable(s[i])
  }

  /** The codes of one rune: none when the rune is in neither table. */
  function EncodeRune(r: Rune): seq<Septet> {
    match RuneToCode(r)
    case Some(c) => [c]
    case None =>
      match RuneToExt(r)
      case Some(c) => [ESC, c]
      case None => []
  }

  function EncodeText(s: Text): seq<Septet> {
    if s == [] then [] else EncodeText(s[..|s| - 1]) + EncodeRune(s[|s| - 1])
  }

  /** encodeGSM7Text: the loop that appends the codes rune by rune. */
  method EncodeGsm7Text(s: Text) returns (out: seq<Septet>)
    ensures out == EncodeText(s)
  {
    out := [];
    for i := 0 to |s|
      invariant out == EncodeText(s[..i])
    {
      assert s[..i + 1][..i] == s[..i];
      var c := RuneToCode(s[i]);
      if c.Some? {
        out := out + [c.value];
      } else {
        var e := RuneToExt(s[i]);
        if e.Some? {
          out := out + [ESC, e.value];
        }
      }
    }
    assert s[..|s|] == s;
  }

  /** The decoder reads left to right: ESC takes the next code with it, a last ESC is dropped. */
  function DecodeText(codes: seq<Septet>): Text {
    if codes == [] then []
    else if codes[0] != ESC then [Charset(codes[0])] + DecodeText(codes[1..])
    else if |codes| == 1 then []
    else [EscapedRune(codes[1])] + DecodeText(codes[2..])
  }

  function EscapedRune(c: Septet): Rune {
    match Extension(c) case Some(r) => r case None => 0x20
  }

  /** The decoder's next write and its next position, read at position i. */
  lemma DecodeNext(codes: seq<Septet>, i: nat)
    requires i < |codes|
    ensures codes[i] != ESC ==> DecodeText(codes[i..]) == [Charset(codes[i])] + DecodeText(codes[i + 1..])
    ensures codes[i] == ESC && i + 1 < |codes| ==>
              DecodeText(codes[i..]) == [EscapedRune(codes[i + 1])] + DecodeText(codes[i + 2..])
    ensures codes[i] == ESC && i + 1 == |codes| ==> DecodeText(codes[i..]) == []
  {
    assert codes[i..][1..] == codes[i + 1..];
    if i + 1 < |codes| { assert codes[i..][2..] == codes[i + 2..]; }
  }

  /** decodeGSM7Text: the loop with its two-step advance over an escape. */
  method DecodeGsm7Text(codes: seq<Septet>) returns (s: Text)
    ensures s == DecodeText(codes)
  {
    s := [];
    var i := 0;
    while i < |codes|
      invariant 0 <= i <= |codes|
      invariant DecodeText(codes) == s + DecodeText(codes[i..])
    {
      var c := codes[i];
      DecodeNext(codes, i);
      if c == ESC {
        if i + 1 < |codes| {
          i := i + 1;
          s := s + [EscapedRune(codes[i])];
        }
      } else {
        s := s + [Charset(c)];
      }
      i := i + 1;
    }
  }

  /** The codes end in an ESC that still waits for its extension code. */
  predicate EndsPending(codes: seq<Septet>) {
    if codes == [] then false
    else if codes[0] != ESC then EndsPending(codes[1..])
    else if |codes| == 1 then true
    else EndsPending(codes[2..])
  }

  /** Decoding is a homomorphism at every cut that does not separate an ESC from its code. */
  lemma {:induction false} DecodeConcat(a: seq<Septet>, b: seq<Septet>)
    requires !EndsPending(a)
    ensures DecodeText(a + b) == DecodeText(a) + DecodeText(b)
    ensures EndsPending(a + b) == EndsPending(b)
  {
    if a == [] {
      assert a + b == b;
    } else {
      var k := if a[0] != ESC then 1 else 2;
      assert (a + b)[k..] == a[k..] + b;
      DecodeConcat(a[k..], b);
    }
  }

  /** At a cut behind a pending ESC the two sides lose the escape: the first side drops it,
      the second reads the extension code on its own. */
  lemma DecodePendingCut(a: seq<Septet>, b: seq<Septet>)
    requires EndsPending(a) && b != []
    ensures DecodeText(a + b) == DecodeText(a) + AfterPending(b)
  {
    PendingLast(a);
    hide DecodeText, AfterPending;
    var front := a[..|a| - 1];
    DecodeEscCut(front, b);
    assert a == front + [ESC];
  }

  lemma DecodeEscCut(front: seq<Septet>, b: seq<Septet>)
    requires !EndsPending(front) && b != []
    ensures DecodeText((front + [ESC]) + b) == DecodeText(front + [ESC]) + AfterPending(b)
  {
    hide DecodeText, EndsPending, AfterPending;
    DecodeConcat(front, [ESC]);
    DecodeConcat(front, [ESC] + b);
    EscInFront(b);
    assert (front + [ESC]) + b == front + ([ESC] + b);
    assert DecodeText(front) + [] == DecodeText(front);
  }

  lemma EscInFront(b: seq<Septet>)
    requires b != []
    ensures DecodeText([ESC]) == [] && DecodeText([ESC] + b) == AfterPending(b)
  {
    assert ([ESC] + b)[2..] == b[1..];
  }

  lemma {:induction false} PendingLast(a: seq<Septet>)
    requires EndsPending(a)
    ensures a[|a| - 1] == ESC && !EndsPending(a[..|a| - 1])
  {
    if a[0] != ESC {
      PendingLast(a[1..]);
      assert a[..|a| - 1][1..] == a[1..][..|a| - 2];
    } else if |a| > 1 {
      PendingLast(a[2..]);
      assert a[..|a| - 1][2..] == a[2..][..|a| - 3];
    }
  }

  /** The text of codes that follow an ESC. */
  function AfterPending(b: seq<Septet>): Text
    requires b != []
  {
    [EscapedRune(b[0])] + DecodeText(b[1..])
  }

  /** What the decoder can write: runes of the two tables, never U+001B. */
  lemma {:induction false} DecodedRunes(codes: seq<Septet>)
    ensures forall i :: 0 <= i < |DecodeText(codes)| ==> Representable(DecodeText(codes)[i]) && DecodeText(codes)[i] != 0x1B
  {
    if codes != [] {
      if codes[0] != ESC {
        DecodedRunes(codes[1..]);
        CharsetNoEsc(codes[0]);
        CodeBelowComplete(codes[0], 128);
      } else if |codes| > 1 {
        DecodedRunes(codes[2..]);
        if Extension(codes[1]).Some? {
          ExtBelowComplete(codes[1], 128);
        } else {
          CodeBelowComplete(0x20, 128);
        }
      }
    }
  }

  lemma CharsetNoEsc(c: Septet)
    requires c != ESC
    ensures Charset(c) != 0x1B && Charset(c) != 0
  {
  }

  /** One representable rune other than U+001B decodes to itself and leaves no ESC pending. */
  lemma RuneRoundTrip(r: Rune)
    requires r != 0x1B
    ensures DecodeText(EncodeRune(r)) == if Representable(r) then [r] else []
    ensures !EndsPending(EncodeRune(r))
  {
    CodeBelowSound(r, 128);
    ExtBelowSound(r, 128);
    match RuneToCode(r)
    case Some(c) =>
      assert [c][1..] == [];
    case None =>
      match RuneToExt(r)
      case Some(c) => assert [ESC, c][2..] == [];
      case None =>
  }

  function Representables(s: Text): Text {
    if s == [] then []
    else if Representable(s[|s| - 1]) then Representables(s[..|s| - 1]) + [s[|s| - 1]]
    else Representables(s[..|s| - 1])
  }

  /** Encoding drops what the alphabet lacks, in place; all the rest comes back, for every text without U+001B. */
  lemma {:induction false} EncodeDecode(s: Text)
    requires 0x1B !in s
    ensures DecodeText(EncodeText(s)) == Representables(s)
    ensures !EndsPending(EncodeText(s))
  {
    if s != [] {
      var front, last := s[..|s| - 1], s[|s| - 1];
      EncodeDecode(front);
      RuneRoundTrip(last);
      DecodeConcat(EncodeText(front), EncodeRune(last));
    }
  }

  lemma {:induction false} RepresentablesSame(s: Text)
    requires IsGsm7(s)
    ensures Representables(s) == s
  {
    if s != [] {
      RepresentablesSame(s[..|s| - 1]);
      assert s == s[..|s| - 1] + [s[|s| - 1]];
    }
  }

  /** The text round trip holds exactly for the texts IsGSM7 accepts that do not contain U+001B. */
  lemma TextRoundTrip(s: Text)
    ensures DecodeText(EncodeText(s)) == s <==> IsGsm7(s) && 0x1B !in s
  {
    if IsGsm7(s) && 0x1B !in s {
      EncodeDecode(s);
      RepresentablesSame(s);
    }
    DecodedRunes(EncodeText(s));
  }

  /** U+001B passes IsGSM7 although it does not survive. */
  lemma EscapePassesIsGsm7()
    ensures IsGsm7([0x1B]) && DecodeText(EncodeText([0x1B])) != [0x1B]
  {
    CodeBelowComplete(0x1B, 128);
    DecodedRunes(EncodeText([0x1B]));
    var s: Text := [0x1B];
    TextRoundTrip(s);
  }

  /** A rune needs at most two septets. */
  lemma {:induction false} EncodedLength(s: Text)
    ensures |EncodeText(s)| <= 2 * |s|
  {
    if s != [] { EncodedLength(s[..|s| - 1]); }
  }

  /** In encoded text an ESC is always followed by a code of the extension table. */
  lemma {:induction false} EscThenExtension(s: Text, m: nat)
    requires 0x1B !in s
    requires m < |EncodeText(s)| && EndsPending(EncodeText(s)[..m])
    ensures Extension(EncodeText(s)[m]).Some?
  {
    hide Extension, EndsPending, RuneToCode;
    var front, last := s[..|s| - 1], s[|s| - 1];
    var f, e := EncodeText(front), EncodeRune(last);
    EncodeDecode(front);
    if m < |f| {
      assert (f + e)[..m] == f[..m];
      EscThenExtension(front, m);
    } else {
      assert (f + e)[..m] == f + e[..m - |f|];
      DecodeConcat(f, e[..m - |f|]);
      RunePending(last, m - |f|);
    }
  }

  lemma RunePending(r: Rune, m: nat)
    requires r != 0x1B && m < |EncodeRune(r)| && EndsPending(EncodeRune(r)[..m])
    ensures Extension(EncodeRune(r)[m]).Some?
  {
    ExtBelowSound(r, 128);
    CodeBelowSound(r, 128);
  }

  /** No extension code stands for the same rune in the basic table. */
  lemma ExtensionDiffers(c: Septet)
    requires Extension(c).Some?
    ensures c != ESC && Charset(c) != EscapedRune(c)
  {
  }

  // ---- The other direction ----

  /** Every ESC has its extension code behind it. */
  predicate Canonical(codes: seq<Septet>) {
    if codes == [] then true
    else if codes[0] != ESC then Canonical(codes[1..])
    else |codes| > 1 && Extension(codes[1]).Some? && Canonical(codes[2..])
  }

  lemma {:induction false} CharsetDistinct(c: Septet, n: nat)
    requires c < n <= 128 && c != ESC
    ensures CodeBelow(Charset(c), n) == Some(c)
  {
    if c < n - 1 {
      CharsetDistinct(c, n - 1);
      CharsetInjective(c, n - 1);
    } else {
      CharsetNoEsc(c);
    }
  }

  /** No rune stands at two places of the basic table. */
  lemma CharsetInjective(c: Septet, d: Septet)
    ensures Charset(c) == Charset(d) ==> c == d
  {
    LowInjective(c, d);
  }

  lemma LowInjective(c: Septet, d: Septet)
    ensures c < 0x20 && d < 0x20 && CHARSET_LOW[c] == CHARSET_LOW[d] ==> c == d
  {
    if c < 0x20 && d < 0x20 {
      LowBack(c);
      LowBack(d);
    }
  }

  /** The code of a rune of the lower quarter of the table. */
  function LowCode(r: Rune): nat {
    if r < 0xC5 then
      if r == 0x40 then 0x00 else if r == 0xA3 then 0x01 else if r == 0x24 then 0x02 else if r == 0xA5 then 0x03
      else if r == 0x0A then 0x0A else if r == 0x0D then 0x0D else if r == 0x5F then 0x11 else 0x1B
    else if r < 0xE9 then
      if r == 0xE8 then 0x04 else if r == 0xC7 then 0x09 else if r == 0xD8 then 0x0B else if r == 0xC5 then 0x0E
      else if r == 0xE5 then 0x0F else if r == 0xC6 then 0x1C else if r == 0xE6 then 0x1D
      else if r == 0xDF then 0x1E else 0x1F
    else if r < 0x394 then
      if r == 0xE9 then 0x05 else if r == 0xF9 then 0x06 else if r == 0xEC then 0x07 else if r == 0xF2 then 0x08
      else if r == 0xF8 then 0x0C else 0x13
    else
      if r == 0x394 then 0x10 else if r == 0x3A6 then 0x12 else if r == 0x39B then 0x14 else if r == 0x3A9 then 0x15
      else if r == 0x3A0 then 0x16 else if r == 0x3A8 then 0x17 else if r == 0x3A3 then 0x18
      else if r == 0x398 then 0x19 else 0x1A
  }

  lemma LowBack(c: Septet)
    requires c < 0x20
    ensures LowCode(CHARSET_LOW[c]) == c
  {
  }

  lemma {:induction false} ExtensionDistinct(c: Septet, n: nat)
    requires c < n <= 128 && Extension(c).Some?
    ensures ExtBelow(Extension(c).value, n) == Some(c)
  {
    if c < n - 1 {
      ExtensionDistinct(c, n - 1);
      ExtensionInjective(c, n - 1);
    }
  }

  /** No rune is in both tables. */
  lemma {:induction false} ExtensionNotBasic(c: Septet, n: nat)
    requires n <= 128 && Extension(c).Some?
    ensures CodeBelow(Extension(c).value, n) == None
  {
    if n > 0 {
      ExtensionNotBasic(c, n - 1);
      TablesDisjoint(c, n - 1);
    }
  }

  lemma TablesDisjoint(c: Septet, d: Septet)
    requires Extension(c).Some?
    ensures Charset(d) != Extension(c).value
  {
  }

  lemma LastEncoded(s: Text)
    requires s != []
    ensures EncodeText(s) == EncodeText(s[..|s| - 1]) + EncodeRune(s[|s| - 1])
  {
  }

  lemma {:induction false} TextEncodeConcat(s: Text, t: Text)
    ensures EncodeText(s + t) == EncodeText(s) + EncodeText(t)
  {
    hide EncodeRune;
    if t == [] {
      assert s + t == s;
    } else {
      var front, last := t[..|t| - 1], t[|t| - 1];
      TextEncodeConcat(s, front);
      assert (s + t)[..|s + t| - 1] == s + front && (s + t)[|s + t| - 1] == last;
      LastEncoded(s + t);
      LastEncoded(t);
      hide EncodeText;
      assert (EncodeText(s) + EncodeText(front)) + EncodeRune(last) == EncodeText(s) + (EncodeText(front) + EncodeRune(last));
    }
  }

  lemma OneRune(r: Rune)
    ensures EncodeText([r]) == EncodeRune(r)
  {
    assert [r][..0] == [];
  }

  /** The first rune of canonical codes, and the codes it is encoded to. */
  lemma CanonicalHead(codes: seq<Septet>) returns (k: nat, r: Rune)
    requires Canonical(codes) && codes != []
    ensures 0 < k <= |codes| && Canonical(codes[k..])
    ensures EncodeRune(r) == codes[..k] && DecodeText(codes) == [r] + DecodeText(codes[k..])
  {
    if codes[0] != ESC {
      k, r := 1, Charset(codes[0]);
      CharsetDistinct(codes[0], 128);
    } else {
      k, r := 2, Extension(codes[1]).value;
      ExtensionDistinct(codes[1], 128);
      ExtensionNotBasic(codes[1], 128);
    }
    hide CodeBelow, ExtBelow, Charset;
  }

  lemma {:induction false} CanonicalSurvives(codes: seq<Septet>)
    requires Canonical(codes)
    ensures EncodeText(DecodeText(codes)) == codes
  {
    if codes != [] {
      hide *;
      var k, r := CanonicalHead(codes);
      CanonicalSurvives(codes[k..]);
      OneRune(r);
      TextEncodeConcat([r], DecodeText(codes[k..]));
      assert codes[..k] + codes[k..] == codes;
    }
  }

  lemma {:induction false} CanonicalConcat(a: seq<Septet>, b: seq<Septet>)
    requires Canonical(a) && Canonical(b)
    ensures Canonical(a + b)
  {
    if a == [] {
      assert a + b == b;
    } else {
      var k := if a[0] != ESC then 1 else 2;
      assert (a + b)[k..] == a[k..] + b;
      CanonicalConcat(a[k..], b);
    }
  }

  lemma {:induction false} EncodedIsCanonical(s: Text)
    requires 0x1B !in s
    ensures Canonical(EncodeText(s))
  {
    if s != [] {
      var front, last := s[..|s| - 1], s[|s| - 1];
      EncodedIsCanonical(front);
      RuneCanonical(last);
      CanonicalConcat(EncodeText(front), EncodeRune(last));
    }
  }

  lemma RuneCanonical(r: Rune)
    requires r != 0x1B
    ensures Canonical(EncodeRune(r))
  {
    CodeBelowSound(r, 128);
    ExtBelowSound(r, 128);
    match RuneToCode(r)
    case Some(c) => assert [c][1..] == [];
    case None =>
      match RuneToExt(r)
      case Some(c) => assert [ESC, c][2..] == [];
      case None =>
  }

  /** Decoding loses nothing, and encoding gives the codes back, exactly for the codes in which every ESC is followed by
      a code of the extension table. */
  lemma CodesRoundTrip(codes: seq<Septet>)
    ensures EncodeText(DecodeText(codes)) == codes <==> Canonical(codes)
  {
    if Canonical(codes) {
      CanonicalSurvives(codes);
    } else {
      DecodedRunes(codes);
      EncodedIsCanonical(DecodeText(codes));
    }
  }

  // ---- The tables of the standard ----

  /** The rows of the table in section 6.2.1 of 3GPP TS 23.038, in order of code. */
  function StandardRow(r: nat): (row: string)
    requires r < 8
    ensures |row| == 16
  {
    match r
    case 0 => "@£$¥èéùìòÇ\nØø\rÅå"
    case 1 => "Δ_ΦΓΛΩΠΨΣΘΞ\U{001B}ÆæßÉ"
    case 2 => " !\"#¤%&'()*+,-./"
    case 3 => "0123456789:;<=>?"
    case 4 => "¡ABCDEFGHIJKLMNO"
    case 5 => "PQRSTUVWXYZÄÖÑÜ§"
    case 6 => "¿abcdefghijklmno"
    case 7 => "pqrstuvwxyzäöñüà"
  }

  /** The table of section 6.2.1.1: what the codes mean behind ESC. */
  const EXTENSION_CODES: seq<int> := [0x0A, 0x14, 0x28, 0x29, 0x2F, 0x3C, 0x3D, 0x3E, 0x40, 0x65]
  const EXTENSION_CHARS: string := "\U{000C}^{}\\[~]|€"

  /** The basic table is the standard's. */
  lemma TableIsStandard(c: Septet)
    ensures Charset(c) == StandardRow(c / 16)[c % 16] as int
  {
    hide Charset, StandardRow;
    var r, i := c / 16, c % 16;
    assert c == 16 * r + i;
    if r == 0 { Row0(i); } else if r == 1 { Row1(i); } else if r == 2 { Row2(i); } else if r == 3 { Row3(i); }
    else if r == 4 { Row4(i); } else if r == 5 { Row5(i); } else if r == 6 { Row6(i); } else { Row7(i); }
  }

  lemma Row0(i: nat) requires i < 16 ensures Charset(i) == StandardRow(0)[i] as int {}
  lemma Row1(i: nat) requires i < 16 ensures Charset(16 + i) == StandardRow(1)[i] as int {}
  lemma Row2(i: nat) requires i < 16 ensures Charset(32 + i) == StandardRow(2)[i] as int {}
  lemma Row3(i: nat) requires i < 16 ensures Charset(48 + i) == StandardRow(3)[i] as int {}
  lemma Row4(i: nat) requires i < 16 ensures Charset(64 + i) == StandardRow(4)[i] as int {}
  lemma Row5(i: nat) requires i < 16 ensures Charset(80 + i) == StandardRow(5)[i] as int {}
  lemma Row6(i: nat) requires i < 16 ensures Charset(96 + i) == StandardRow(6)[i] as int {}
  lemma Row7(i: nat) requires i < 16 ensures Charset(112 + i) == StandardRow(7)[i] as int {}

  /** And so is the extension table; what it lacks is shown as a space. */
  lemma ExtensionIsStandard(c: Septet)
    ensures forall i :: 0 <= i < 10 && EXTENSION_CODES[i] == c ==> EscapedRune(c) == EXTENSION_CHARS[i] as int
    ensures c !in EXTENSION_CODES ==> EscapedRune(c) == ' ' as int
  {
    forall i | 0 <= i < 10 && EXTENSION_CODES[i] == c ensures EscapedRune(c) == EXTENSION_CHARS[i] as int {
      assert i == 0 || i == 1 || i == 2 || i == 3 || i == 4 || i == 5 || i == 6 || i == 7 || i == 8 || i == 9;
    }
    if Extension(c).Some? { ListedExtension(c); }
  }

  lemma ListedExtension(c: Septet)
    requires Extension(c).Some?
    ensures c in EXTENSION_CODES
  {
    var i :=
      if c == 0x0A then 0 else if c == 0x14 then 1 else if c == 0x28 then 2 else if c == 0x29 then 3 else if c == 0x2F then 4
      else if c == 0x3C then 5 else if c == 0x3D then 6 else if c == 0x3E then 7 else if c == 0x40 then 8 else 9;
    assert EXTENSION_CODES[i] == c;
  }

  // ---- Letters ----

  lemma {:induction false} Letters(n: nat)
    ensures var s := Repeated(0x41, n); IsGsm7(s) && 0x1B !in s && EncodeText(s) == seq(n, _ => 0x41)
  {
    if n > 0 {
      Letters(n - 1);
      LetterCode();
      hide EncodeRune, Representable;
      var s := Repeated(0x41, n);
      assert s[..n - 1] == Repeated(0x41, n - 1);
      assert EncodeText(s) == seq(n - 1, _ => 0x41) + [0x41];
    }
  }

  lemma LetterCode()
    ensures EncodeRune(0x41) == [0x41] && Representable(0x41)
  {
    CharsetDistinct(0x41, 128);
    assert Charset(0x41) == 0x41;
    hide CodeBelow;
  }

  function Repeated(r: Rune, n: nat): Text {
    seq(n, _ => r)
  }
}
