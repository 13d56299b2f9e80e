/** Splitting a message into concatenated parts, and choosing its encoding. */
module Segments {
  import opened Options
  import opened Octets
  import opened Septets
  import opened Gsm7Text
  import opened Ucs2
  import opened Address
  import opened Submit

  const MAX_GSM7 := 160
  const MAX_UCS2 := 70
  const MAX_GSM7_CONCAT := 153
  const MAX_UCS2_CONCAT := 67
  const REFERENCE: Octet := 0x42

  // ---- Cutting into pieces ----

  /** Pieces of `size` elements needed for n. */
  function PieceCount(n: nat, size: nat): nat
    requires size > 0
  {
    (n + size - 1) / size
  }

  function CutPoint(n: nat, size: nat, i: nat): (c: nat)
    ensures c <= n
  {
    if i * size > n then n else i * size
  }

  function Piece<T>(s: seq<T>, size: nat, i: nat): seq<T> {
    CutPointsAscend(|s|, size, i);
    s[CutPoint(|s|, size, i)..CutPoint(|s|, size, i + 1)]
  }

  lemma CutPointsAscend(n: nat, size: nat, i: nat)
    ensures CutPoint(n, size, i) <= CutPoint(n, size, i + 1) <= CutPoint(n, size, i) + size
  {
    assert (i + 1) * size == i * size + size;
  }

  /** The last piece reaches the end, and every piece holds between one and `size` elements. */
  lemma PiecesCover(n: nat, size: nat)
    requires size > 0
    ensures CutPoint(n, size, PieceCount(n, size)) == n
    ensures forall i: nat :: i < PieceCount(n, size) ==> i * size < n && CutPoint(n, size, i) < CutPoint(n, size, i + 1)
  {
    var k := PieceCount(n, size);
    assert k * size <= n + size - 1 < k * size + size by { DivBounds(n + size - 1, size); }
    forall i: nat | i < k ensures i * size < n && CutPoint(n, size, i) < CutPoint(n, size, i + 1) {
      assert (i + 1) * size <= k * size by { MulMono(i + 1, k, size); }
      assert (i + 1) * size == i * size + size;
    }
  }

  lemma DivBounds(x: nat, size: nat)
    requires size > 0
    ensures (x / size) * size <= x < (x / size) * size + size
  {
  }

  lemma MulMono(a: nat, b: nat, size: nat)
    requires a <= b
    ensures a * size <= b * size
  {
  }

  /** The first k pieces, put together. */
  function Joined<T>(s: seq<T>, size: nat, k: nat): seq<T> {
    if k == 0 then [] else Joined(s, size, k - 1) + Piece(s, size, k - 1)
  }

  lemma {:induction false} JoinedIsPrefix<T>(s: seq<T>, size: nat, k: nat)
    ensures Joined(s, size, k) == s[..CutPoint(|s|, size, k)]
  {
    if k > 0 {
      JoinedIsPrefix(s, size, k - 1);
      CutPointsAscend(|s|, size, k - 1);
    }
  }

  /** Nothing is lost or repeated: the pieces put together are the message, and none is empty or too long. */
  lemma PiecesPartition<T>(s: seq<T>, size: nat)
    requires size > 0
    ensures Joined(s, size, PieceCount(|s|, size)) == s
    ensures forall i: nat :: i < PieceCount(|s|, size) ==> 0 < |Piece(s, size, i)| <= size
  {
    JoinedIsPrefix(s, size, PieceCount(|s|, size));
    PiecesCover(|s|, size);
    forall i: nat | i < PieceCount(|s|, size) ensures 0 < |Piece(s, size, i)| <= size {
      CutPointsAscend(|s|, size, i);
    }
  }

  /** The bounds the loops compute cut out piece i. */
  lemma PieceBounds<T>(s: seq<T>, size: nat, i: nat, start: nat, end: nat)
    requires size > 0 && i < PieceCount(|s|, size) && start == i * size
    requires end == if start + size > |s| then |s| else start + size
    ensures start <= end <= |s| && s[start..end] == Piece(s, size, i) && 0 < |Piece(s, size, i)| <= size
  {
    PiecesCover(|s|, size);
    CutPointsAscend(|s|, size, i);
    assert (i + 1) * size == i * size + size;
  }

  // ---- As few parts as possible ----

  function Sum(sizes: seq<nat>): nat {
    if sizes == [] then 0 else Sum(sizes[..|sizes| - 1]) + sizes[|sizes| - 1]
  }

  /** A way to cut n septets into parts of at most 140 octets, behind a header of six octets each. */
  ghost predicate SplitsSeptets(sizes: seq<nat>, n: nat) {
    Sum(sizes) == n && forall i :: 0 <= i < |sizes| ==> 6 + PackedLen(sizes[i], 1) <= 140
  }

  /** The same for n units of 16 bits. */
  ghost predicate SplitsUnits(sizes: seq<nat>, n: nat) {
    Sum(sizes) == n && forall i :: 0 <= i < |sizes| ==> 6 + 2 * sizes[i] <= 140
  }

  lemma {:induction false} SumBound(sizes: seq<nat>, size: nat)
    requires forall i :: 0 <= i < |sizes| ==> sizes[i] <= size
    ensures Sum(sizes) <= |sizes| * size
  {
    if sizes != [] {
      SumBound(sizes[..|sizes| - 1], size);
      assert |sizes| * size == (|sizes| - 1) * size + size;
    }
  }

  /** Pieces of full size are the fewest. */
  lemma FewestPieces(n: nat, size: nat, k: nat)
    requires size > 0 && n <= k * size
    ensures PieceCount(n, size) <= k
  {
    var c := PieceCount(n, size);
    DivBounds(n + size - 1, size);
    assert (k + 1) * size == k * size + size;
    if c > k { MulMono(k + 1, c, size); }
  }

  lemma SeptetsPerPart(n: nat)
    ensures 6 + PackedLen(n, 1) <= 140 <==> n <= MAX_GSM7_CONCAT
    ensures PackedLen(n, 0) <= 140 <==> n <= MAX_GSM7
  {
  }

  /** No way of cutting a 7-bit message has fewer parts than the gateway's. */
  lemma FewestSeptetParts(n: nat)
    ensures forall sizes :: SplitsSeptets(sizes, n) ==> |sizes| >= PieceCount(n, MAX_GSM7_CONCAT)
  {
    forall sizes | SplitsSeptets(sizes, n) ensures |sizes| >= PieceCount(n, MAX_GSM7_CONCAT) {
      forall i | 0 <= i < |sizes| ensures sizes[i] <= MAX_GSM7_CONCAT { SeptetsPerPart(sizes[i]); }
      SumBound(sizes, MAX_GSM7_CONCAT);
      FewestPieces(n, MAX_GSM7_CONCAT, |sizes|);
    }
  }

  /** For n septets: one part exactly when they fit 140 octets without a header, else no fewer parts are possible. */
  ghost predicate FewestGsm7(n: nat, parts: nat) {
    && (parts == 1 <==> PackedLen(n, 0) <= 140)
    && (parts != 1 ==> forall sizes :: SplitsSeptets(sizes, n) ==> |sizes| >= parts)
  }

  lemma Gsm7PartsFewest(n: nat)
    ensures FewestGsm7(n, if n <= MAX_GSM7 then 1 else PieceCount(n, MAX_GSM7_CONCAT))
  {
    hide SplitsSeptets;
    SeptetsPerPart(n);
    FewestSeptetParts(n);
  }

  /** For n units likewise. */
  ghost predicate FewestUcs2(n: nat, parts: nat) {
    && (parts == 1 <==> 2 * n <= 140)
    && (parts != 1 ==> forall sizes :: SplitsUnits(sizes, n) ==> |sizes| >= parts)
  }

  lemma Ucs2PartsFewest(n: nat)
    ensures FewestUcs2(n, if n <= MAX_UCS2 then 1 else PieceCount(n, MAX_UCS2_CONCAT))
  {
    hide SplitsUnits;
    FewestUnitParts(n);
  }

  lemma FewestUnitParts(n: nat)
    ensures forall sizes :: SplitsUnits(sizes, n) ==> |sizes| >= PieceCount(n, MAX_UCS2_CONCAT)
  {
    forall sizes | SplitsUnits(sizes, n) ensures |sizes| >= PieceCount(n, MAX_UCS2_CONCAT) {
      SumBound(sizes, MAX_UCS2_CONCAT);
      FewestPieces(n, MAX_UCS2_CONCAT, |sizes|);
    }
  }

  // ---- The parts ----

  /** A part in the 7-bit alphabet, as the standard reads it. */
  function Gsm7Part(to: seq<Octet>, codes: seq<Septet>, concat: Option<Concat>): Submission {
    var udl := |codes| + if concat.Some? then 7 else 0;
    Submission(HeadFor(concat), to, AddressType(to), 0x00, udl, PackedLen(udl, 0), UserData(concat, Codes(codes)))
  }

  function HeadFor(concat: Option<Concat>): Head {
    HeadOf(if concat.Some? then 1 else 0)
  }

  function Ucs2Part(to: seq<Octet>, runes: Text, concat: Option<Concat>): Submission {
    var udl := |Ucs2Octets(runes)| + if concat.Some? then 6 else 0;
    Submission(HeadFor(concat), to, AddressType(to), 0x08, udl, udl, UserData(concat, Units(Utf16Encode(runes))))
  }

  /** The reference numbers part i of n goes out with: total and number each cut to an octet. */
  function Numbering(n: nat, i: nat): Option<Concat> {
    ConcatOf(REFERENCE, ToOctet(n), ToOctet(i + 1))
  }

  /** All parts are numbered 1 to n of n exactly when n fits an octet; at a multiple of 256 they
      even lose their headers. */
  lemma NumberingExact(n: nat)
    requires n > 0
    ensures (forall i: nat :: i < n ==> Numbering(n, i) == Some(Concat(REFERENCE, n, i + 1))) <==> n < 256
    ensures n % 256 == 0 ==> forall i: nat :: Numbering(n, i) == None
  {
    assert Numbering(n, 0) == ConcatOf(REFERENCE, ToOctet(n), ToOctet(1));
  }

  ghost predicate IsGsm7Message(parts: seq<EncodedPdu>, to: seq<Octet>, codes: seq<Septet>) {
    if |codes| <= MAX_GSM7 then
      |parts| == 1 && Carries(parts[0], Gsm7Part(to, codes, None))
    else
      var n := PieceCount(|codes|, MAX_GSM7_CONCAT);
      && |parts| == n
      && forall i: nat :: i < n ==> Carries(parts[i], Gsm7Part(to, Piece(codes, MAX_GSM7_CONCAT, i), Numbering(n, i)))
  }

  /** encodeGSM7PDUs: every part carries its piece of the codes, whatever the body. There is one part exactly when the
      septets fit 140 octets without a header, and else no way of cutting them has fewer. */
  method EncodeGsm7Pdus(to: seq<Octet>, body: Text) returns (parts: seq<EncodedPdu>)
    ensures Addressable(to) ==> IsGsm7Message(parts, to, EncodeText(body))
    ensures FewestGsm7(|EncodeText(body)|, |parts|)
  {
    hide Carries, Addressable, Packed, EncodeText, AddressType, FewestGsm7;
    var codes := EncodeGsm7Text(body);
    var nChars := |codes|;
    Gsm7PartsFewest(nChars);
    if nChars <= MAX_GSM7 {
      var p := BuildGsm7Pdu(to, codes, 0, 0, 0);
      return [p];
    }
    parts := [];
    var nParts := (nChars + MAX_GSM7_CONCAT - 1) / MAX_GSM7_CONCAT;
    PiecesPartition(codes, MAX_GSM7_CONCAT);
    for i := 0 to nParts
      invariant |parts| == i
      invariant Addressable(to) ==> forall k: nat :: k < i ==>
                  Carries(parts[k], Gsm7Part(to, Piece(codes, MAX_GSM7_CONCAT, k), Numbering(nParts, k)))
    {
      var start := i * MAX_GSM7_CONCAT;
      var end := start + MAX_GSM7_CONCAT;
      if end > nChars {
        end := nChars;
      }
      PieceBounds(codes, MAX_GSM7_CONCAT, i, start, end);
      var p := BuildGsm7Pdu(to, codes[start..end], REFERENCE, ToOctet(nParts), ToOctet(i + 1));
      parts := parts + [p];
    }
  }

  /** A part goes out readable when it fits its length octet. */
  ghost predicate CarriesUcs2(p: EncodedPdu, to: seq<Octet>, runes: Text, concat: Option<Concat>) {
    var part := Ucs2Part(to, runes, concat);
    Carries(p, part) <==> Addressable(to) && part.udl < 256
  }

  ghost predicate IsUcs2Message(parts: seq<EncodedPdu>, to: seq<Octet>, body: Text) {
    if |body| <= MAX_UCS2 then
      |parts| == 1 && CarriesUcs2(parts[0], to, body, None)
    else
      var n := PieceCount(|body|, MAX_UCS2_CONCAT);
      && |parts| == n
      && forall i: nat :: i < n ==> CarriesUcs2(parts[i], to, Piece(body, MAX_UCS2_CONCAT, i), Numbering(n, i))
  }

  /** encodeUCS2PDUs: the cut is made between runes, whatever number of units they take. For text of the Basic Multilingual
      Plane there are as few parts as possible. */
  method EncodeUcs2Pdus(to: seq<Octet>, body: Text) returns (parts: seq<EncodedPdu>)
    ensures IsUcs2Message(parts, to, body)
    ensures InBmp(body) ==> FewestUcs2(|Utf16Encode(body)|, |parts|)
  {
    hide Carries, Addressable, Ucs2Octets, Utf16Encode, FewestUcs2, InBmp;
    Ucs2PartsFewest(|body|);
    if InBmp(body) {
      BmpHasNoAstral(body);
      UnitCount(body);
    }
    var nChars := |body|;
    if nChars <= MAX_UCS2 {
      var p := BuildUcs2Pdu(to, body, 0, 0, 0);
      return [p];
    }
    parts := [];
    var nParts := (nChars + MAX_UCS2_CONCAT - 1) / MAX_UCS2_CONCAT;
    for i := 0 to nParts
      invariant |parts| == i
      invariant forall k: nat :: k < i ==> CarriesUcs2(parts[k], to, Piece(body, MAX_UCS2_CONCAT, k), Numbering(nParts, k))
    {
      var start := i * MAX_UCS2_CONCAT;
      var end := start + MAX_UCS2_CONCAT;
      if end > nChars {
        end := nChars;
      }
      PieceBounds(body, MAX_UCS2_CONCAT, i, start, end);
      var p := BuildUcs2Pdu(to, body[start..end], REFERENCE, ToOctet(nParts), ToOctet(i + 1));
      parts := parts + [p];
    }
  }

  datatype Outcome = Parts(parts: seq<EncodedPdu>) | UnsupportedEncoding

  /** EncodePDU: the named encoding, or the 7-bit alphabet when the body allows it. */
  method EncodePdu(to: seq<Octet>, body: Text, encoding: string) returns (r: Outcome)
    ensures r.UnsupportedEncoding? <==> encoding !in {"", "GSM7", "UCS2"}
    ensures encoding == "GSM7" || (encoding == "" && IsGsm7(body)) ==>
              r.Parts? && (Addressable(to) ==> IsGsm7Message(r.parts, to, EncodeText(body)))
    ensures encoding == "UCS2" || (encoding == "" && !IsGsm7(body)) ==> r.Parts? && IsUcs2Message(r.parts, to, body)
  {
    var enc := encoding;
    if enc == "" {
      if IsGsm7(body) {
        enc := "GSM7";
      } else {
        enc := "UCS2";
      }
    }
    if enc == "GSM7" {
      var parts := EncodeGsm7Pdus(to, body);
      r := Parts(parts);
    } else if enc == "UCS2" {
      var parts := EncodeUcs2Pdus(to, body);
      r := Parts(parts);
    } else {
      r := UnsupportedEncoding;
    }
  }

  // ---- Sizes ----

  /** A 7-bit part of any message fits the 140 octets of a TPDU, with a length of at most 160. */
  lemma Gsm7PartFits(to: seq<Octet>, codes: seq<Septet>, concat: Option<Concat>)
    requires |codes| <= if concat.Some? then MAX_GSM7_CONCAT else MAX_GSM7
    ensures var p := Gsm7Part(to, codes, concat); p.udl <= 160 && p.udOctets <= 140
  {
  }

  /** A UCS2 part fits exactly when its runes and its astral runes together number at most 67 (70 without
      a header); its length octet holds exactly up to 124 (127) of them. Counting runes is enough for
      text of the Basic Multilingual Plane only. */
  lemma Ucs2PartFits(to: seq<Octet>, runes: Text, concat: Option<Concat>)
    ensures var p := Ucs2Part(to, runes, concat);
            var units := |runes| + AstralCount(runes);
            && (p.udOctets <= 140 <==> units <= if concat.Some? then MAX_UCS2_CONCAT else MAX_UCS2)
            && (p.udl < 256 <==> units <= if concat.Some? then 124 else 127)
  {
    UnitCount(runes);
  }

  /** One part without a header, or every part under its number, each within 140 octets, and decoding them one by one
      gives the text. */
  ghost predicate IsWholeUcs2(parts: seq<EncodedPdu>, to: seq<Octet>, body: Text) {
    if |body| <= MAX_UCS2 then
      |parts| == 1 && Carries(parts[0], Ucs2Part(to, body, None)) && Ucs2Part(to, body, None).udOctets <= 140
    else
      var n := PieceCount(|body|, MAX_UCS2_CONCAT);
      && |parts| == n && JoinedRunes(body, MAX_UCS2_CONCAT, n) == body
      && forall i: nat :: i < n ==> WholePart(parts[i], to, Piece(body, MAX_UCS2_CONCAT, i), n, i)
  }

  /** Every part of the message fits, counted in units. */
  predicate Ucs2Fits(body: Text) {
    if |body| <= MAX_UCS2 then |body| + AstralCount(body) <= MAX_UCS2
    else
      var n := PieceCount(|body|, MAX_UCS2_CONCAT);
      n < 256 && forall i: nat :: i < n ==> PieceFits(Piece(body, MAX_UCS2_CONCAT, i))
  }

  predicate PieceFits(piece: Text) {
    |piece| + AstralCount(piece) <= MAX_UCS2_CONCAT
  }

  /** What goes out in UCS2 is the whole message exactly when the destination is well laid out and every part, cut by runes,
      fits counted in units. */
  lemma Ucs2MessageWhole(parts: seq<EncodedPdu>, to: seq<Octet>, body: Text)
    requires IsUcs2Message(parts, to, body)
    ensures IsWholeUcs2(parts, to, body) <==> Addressable(to) && Ucs2Fits(body)
  {
    hide Addressable, WholePart, PieceFits, Piece, JoinedRunes, Joined, Carries, AstralCount, PieceCount;
    if |body| <= MAX_UCS2 {
      Ucs2PartFits(to, body, None);
    } else {
      hide CarriesUcs2;
      var n := PieceCount(|body|, MAX_UCS2_CONCAT);
      PiecesPartition(body, MAX_UCS2_CONCAT);
      Ucs2Partwise(body, MAX_UCS2_CONCAT, n);
      SomePiece(|body|, MAX_UCS2_CONCAT);
      forall i: nat | i < n
        ensures WholePart(parts[i], to, Piece(body, MAX_UCS2_CONCAT, i), n, i)
                <==> Addressable(to) && n < 256 && PieceFits(Piece(body, MAX_UCS2_CONCAT, i))
      {
        PartWhole(parts[i], to, Piece(body, MAX_UCS2_CONCAT, i), n, i);
      }
    }
  }

  lemma SomePiece(n: nat, size: nat)
    requires 0 < size <= n
    ensures PieceCount(n, size) > 0
  {
    PiecesCover(n, size);
  }

  /** The part is carried under number i + 1 of n and fits. */
  ghost predicate WholePart(p: EncodedPdu, to: seq<Octet>, piece: Text, n: nat, i: nat) {
    var part := Ucs2Part(to, piece, Some(Concat(0x42, n, i + 1)));
    Carries(p, part) && part.udOctets <= 140
  }

  lemma PartWhole(p: EncodedPdu, to: seq<Octet>, piece: Text, n: nat, i: nat)
    requires CarriesUcs2(p, to, piece, Numbering(n, i)) && i < n
    ensures WholePart(p, to, piece, n, i) <==> Addressable(to) && n < 256 && PieceFits(piece)
  {
    hide Carries, Addressable, AstralCount, Utf16Encode, Ucs2Octets;
    var part := Ucs2Part(to, piece, Some(Concat(REFERENCE, n, i + 1)));
    Ucs2PartFits(to, piece, Some(Concat(REFERENCE, n, i + 1)));
    if n < 256 {
      assert Numbering(n, i) == Some(Concat(REFERENCE, n, i + 1));
    } else if Carries(p, part) {
      CarriedNumbers(p, part);
    }
  }

  predicate InBmp(s: Text) {
    forall i :: 0 <= i < |s| ==> !Astral(s[i])
  }

  lemma BmpHasNoAstral(s: Text)
    requires InBmp(s)
    ensures AstralCount(s) == 0
  {
  }

  lemma PieceInBmp(s: Text, size: nat, i: nat)
    requires InBmp(s)
    ensures InBmp(Piece(s, size, i))
  {
    hide Astral, CutPoint;
    CutPointsAscend(|s|, size, i);
  }

  /** Text of the Basic Multilingual Plane always fits, under 256 parts. */
  lemma BmpFits(body: Text)
    requires InBmp(body) && PieceCount(|body|, MAX_UCS2_CONCAT) < 256
    ensures Ucs2Fits(body)
  {
    hide InBmp, AstralCount, Piece;
    BmpHasNoAstral(body);
    PiecesPartition(body, MAX_UCS2_CONCAT);
    forall i: nat | i < PieceCount(|body|, MAX_UCS2_CONCAT) ensures PieceFits(Piece(body, MAX_UCS2_CONCAT, i)) {
      PieceInBmp(body, MAX_UCS2_CONCAT, i);
      BmpHasNoAstral(Piece(body, MAX_UCS2_CONCAT, i));
    }
  }

  /** Seventy-one emoji, 284 octets of UTF-8, are not sent whole: the first part has 67 of them in 274 octets behind a length
      octet that says 18. */
  lemma AstralPartOverflows(parts: seq<EncodedPdu>, to: seq<Octet>)
    requires IsUcs2Message(parts, to, Repeated(0x1F600, 71))
    ensures !IsWholeUcs2(parts, to, Repeated(0x1F600, 71))
    ensures var p := Ucs2Part(to, Piece(Repeated(0x1F600, 71), MAX_UCS2_CONCAT, 0), Some(Concat(REFERENCE, 2, 1)));
            p.udOctets == 274 && ToOctet(p.udl) == 18
  {
    var body := Repeated(0x1F600, 71);
    var piece := Piece(body, MAX_UCS2_CONCAT, 0);
    assert |piece| == 67 && PieceCount(71, MAX_UCS2_CONCAT) == 2;
    AllAstral(piece);
    UnitCount(piece);
    hide Carries, Addressable, AstralCount, Utf16Encode, IsUcs2Message, IsWholeUcs2, Piece;
    Ucs2MessageWhole(parts, to, body);
    assert !PieceFits(piece);
  }

  lemma {:induction false} AllAstral(s: Text)
    requires forall i :: 0 <= i < |s| ==> Astral(s[i])
    ensures AstralCount(s) == |s|
  {
    if s != [] { AllAstral(s[1..]); }
  }

  // ---- The body cap ----

  const MAX_SMS_BODY := 10000

  function Utf8Len(r: Rune): (n: nat)
    ensures 1 <= n <= 4
  {
    if r < 0x80 then 1 else if r < 0x800 then 2 else if r < 0x1_0000 then 3 else 4
  }

  /** `len(body)`: the octets of the text in UTF-8. */
  function Utf8Size(s: Text): nat {
    if s == [] then 0 else Utf8Len(s[0]) + Utf8Size(s[1..])
  }

  /** Bits that n octets of UTF-8 carry (section 3 of RFC 3629). */
  function Utf8Bits(n: nat): nat { if n == 1 then 7 else 5 * n + 1 }

  /** A rune takes the fewest octets that carry it. */
  lemma Utf8LenExact(r: Rune)
    ensures r < Pow2(Utf8Bits(Utf8Len(r))) && (Utf8Len(r) > 1 ==> r >= Pow2(Utf8Bits(Utf8Len(r) - 1)))
  {
    PowersOfTwo();
    hide Pow2;
  }

  lemma PowersOfTwo()
    ensures Pow2(7) == 0x80 && Pow2(11) == 0x800 && Pow2(16) == 0x1_0000 && Pow2(21) == 0x20_0000
  {
    assert Pow2(7) == 0x80;
    assert Pow2(9) == 0x200;
    assert Pow2(11) == 0x800;
    assert Pow2(13) == 0x2000;
    assert Pow2(15) == 0x8000;
    assert Pow2(16) == 0x1_0000;
    assert Pow2(18) == 0x4_0000;
    assert Pow2(20) == 0x10_0000;
    assert Pow2(21) == 0x20_0000;
  }

  lemma {:induction false} RunesWithinUtf8(s: Text)
    ensures |s| <= Utf8Size(s)
  {
    if s != [] { RunesWithinUtf8(s[1..]); }
  }

  /** Under the cap of 10000 octets no message has 256 parts, so no part number wraps and no part
      of several loses its header. */
  lemma CapPreventsWrap(body: Text)
    requires Utf8Size(body) <= MAX_SMS_BODY
    ensures PieceCount(|EncodeText(body)|, MAX_GSM7_CONCAT) <= 131
    ensures PieceCount(|body|, MAX_UCS2_CONCAT) <= 150
  {
    RunesWithinUtf8(body);
    EncodedLength(body);
  }

  /** validE164: a plus sign and seven to fifteen digits, the first not zero. */
  predicate ValidE164(to: seq<Octet>) {
    && 8 <= |to| <= 16 && to[0] == PLUS && 0x31 <= to[1] <= 0x39
    && forall i :: 2 <= i < |to| ==> 0x30 <= to[i] <= 0x39
  }

  /** A text is an E.164 number exactly when it is a plus sign, a digit from 1 to 9 and six to fourteen digits. */
  lemma E164Form(first: Octet, second: Octet, rest: seq<Octet>)
    ensures ValidE164([first, second] + rest) <==>
            && first as char == '+' && '1' <= second as char <= '9'
            && 6 <= |rest| <= 14 && forall i :: 0 <= i < |rest| ==> '0' <= rest[i] as char <= '9'
  {
    var to := [first, second] + rest;
    assert forall i :: 0 <= i < |rest| ==> rest[i] == to[i + 2];
    if ValidE164(to) {
      forall i | 0 <= i < |rest| ensures '0' <= rest[i] as char <= '9' { assert 0x30 <= to[i + 2] <= 0x39; }
    }
  }

  datatype SendOutcome = InvalidPayload | RateLimited | SendFailed | Send(parts: seq<EncodedPdu>)

  /** The checks and the encoding of doSendSMS, up to the first AT command; `allowed` is the limiter's answer.
      What goes out in the 7-bit alphabet are all septets of the message, in parts that say their number and fit, but they
      give the text only if IsGSM7 accepts it and it has no U+001B: asked for "GSM7" the gateway drops what the alphabet lacks.
      What goes out in UCS2 is the whole message exactly if its parts fit counted in units. */
  method PrepareSend(iccid: string, to: seq<Octet>, body: Text, encoding: string, allowed: bool) returns (r: SendOutcome)
    ensures r.InvalidPayload? <==> iccid == "" || to == [] || body == [] || !ValidE164(to) || Utf8Size(body) > 10000
    ensures !r.InvalidPayload? ==> (r.RateLimited? <==> !allowed)
    ensures !r.InvalidPayload? && allowed ==> (r.SendFailed? <==> encoding !in {"", "GSM7", "UCS2"})
    ensures r.Send? && (encoding == "GSM7" || (encoding == "" && IsGsm7(body))) ==>
              && IsWholeGsm7(r.parts, to, EncodeText(body))
              && (GivesText(r.parts, to, body) <==> IsGsm7(body) && 0x1B !in body)
    ensures r.Send? && (encoding == "UCS2" || (encoding == "" && !IsGsm7(body))) ==>
              IsUcs2Message(r.parts, to, body) && (IsWholeUcs2(r.parts, to, body) <==> Ucs2Fits(body))
  {
    hide IsGsm7Message, IsUcs2Message, IsWholeGsm7, IsWholeUcs2, GivesText, Ucs2Fits, EncodeText, IsGsm7, PieceCount, Utf8Size;
    if iccid == "" || to == [] || body == [] {
      return InvalidPayload;
    }
    if !ValidE164(to) {
      return InvalidPayload;
    }
    if Utf8Size(body) > MAX_SMS_BODY {
      return InvalidPayload;
    }
    if !allowed {
      return RateLimited;
    }
    var parts := EncodePdu(to, body, encoding);
    if parts.UnsupportedEncoding? {
      return SendFailed;
    }
    CapPreventsWrap(body);
    assert Addressable(to);
    WholeGsm7(parts.parts, to, EncodeText(body));
    if IsWholeGsm7(parts.parts, to, EncodeText(body)) { SentText(parts.parts, to, body); }
    if IsUcs2Message(parts.parts, to, body) { Ucs2MessageWhole(parts.parts, to, body); }
    r := Send(parts.parts);
  }

  /** One PDU without a header, or n < 256 PDUs numbered 1 to n, within the size limits, whose codes
      put together are the message's. */
  ghost predicate IsWholeGsm7(parts: seq<EncodedPdu>, to: seq<Octet>, codes: seq<Septet>) {
    exists pieces: seq<Submission> :: AreThePieces(parts, to, codes, pieces)
  }

  ghost predicate AreThePieces(parts: seq<EncodedPdu>, to: seq<Octet>, codes: seq<Septet>, pieces: seq<Submission>) {
    && |pieces| == |parts| && 0 < |parts| < 256
    && (forall i: nat :: i < |parts| ==> Carries(parts[i], pieces[i]))
    && (forall i: nat :: i < |parts| ==> GoodPiece(pieces[i], to, |parts|, i))
    && CodesOf(pieces) == codes
  }

  predicate GoodPiece(p: Submission, to: seq<Octet>, n: nat, i: nat) {
    && p.udl <= 160 && p.udOctets <= 140 && p.to == to && p.data.payload.Codes?
    && p.data.concat == if n == 1 then None else Some(Concat(0x42, n, i + 1))
  }

  function CodesOf(pieces: seq<Submission>): seq<Septet> {
    if pieces == [] then []
    else CodesOf(pieces[..|pieces| - 1]) +
         match pieces[|pieces| - 1].data.payload case Codes(c) => c case Units(_) => []
  }

  lemma WholeGsm7(parts: seq<EncodedPdu>, to: seq<Octet>, codes: seq<Septet>)
    requires PieceCount(|codes|, MAX_GSM7_CONCAT) < 256
    ensures IsGsm7Message(parts, to, codes) ==> IsWholeGsm7(parts, to, codes)
  {
    hide Carries;
    if IsGsm7Message(parts, to, codes) {
      var n := PieceCount(|codes|, MAX_GSM7_CONCAT);
      var pieces := if |codes| <= MAX_GSM7 then [Gsm7Part(to, codes, None)] else NumberedParts(to, codes, n, n);
      if |codes| <= MAX_GSM7 {
        assert pieces[..0] == [] && CodesOf(pieces) == codes;
      } else {
        NumberedGood(to, codes, n);
      }
      assert AreThePieces(parts, to, codes, pieces);
    }
  }

  lemma NumberedGood(to: seq<Octet>, codes: seq<Septet>, n: nat)
    requires n == PieceCount(|codes|, MAX_GSM7_CONCAT) && 1 < n < 256
    ensures forall i: nat :: i < n ==> GoodPiece(NumberedParts(to, codes, n, n)[i], to, n, i)
    ensures CodesOf(NumberedParts(to, codes, n, n)) == codes
  {
    PiecesPartition(codes, MAX_GSM7_CONCAT);
    NumberedCodes(to, codes, n, n);
    hide *;
    forall i: nat | i < n ensures GoodPiece(NumberedParts(to, codes, n, n)[i], to, n, i) {
      assert |Piece(codes, MAX_GSM7_CONCAT, i)| <= MAX_GSM7_CONCAT;
      GoodPart(to, Piece(codes, MAX_GSM7_CONCAT, i), n, i);
    }
  }

  lemma GoodPart(to: seq<Octet>, codes: seq<Septet>, n: nat, i: nat)
    requires |codes| <= MAX_GSM7_CONCAT && 1 < n < 256 && i < n
    ensures GoodPiece(Gsm7Part(to, codes, Numbering(n, i)), to, n, i)
  {
    Gsm7PartFits(to, codes, Numbering(n, i));
  }

  function NumberedParts(to: seq<Octet>, codes: seq<Septet>, n: nat, k: nat): (pieces: seq<Submission>)
    ensures |pieces| == k
    ensures forall i: nat :: i < k ==> pieces[i] == Gsm7Part(to, Piece(codes, MAX_GSM7_CONCAT, i), Numbering(n, i))
  {
    seq(k, i requires 0 <= i < k => Gsm7Part(to, Piece(codes, MAX_GSM7_CONCAT, i), Numbering(n, i)))
  }

  lemma {:induction false} NumberedCodes(to: seq<Octet>, codes: seq<Septet>, n: nat, k: nat)
    ensures CodesOf(NumberedParts(to, codes, n, k)) == Joined(codes, MAX_GSM7_CONCAT, k)
  {
    if k > 0 {
      NumberedCodes(to, codes, n, k - 1);
      assert NumberedParts(to, codes, n, k)[..k - 1] == NumberedParts(to, codes, n, k - 1);
    }
  }

  // ---- What the receiver makes of the parts ----

  /** The text a receiver reads from the septets of all parts together. */
  ghost predicate GivesText(parts: seq<EncodedPdu>, to: seq<Octet>, text: Text) {
    exists codes: seq<Septet> :: IsWholeGsm7(parts, to, codes) && DecodeText(codes) == text
  }

  lemma PiecesUnique(parts: seq<EncodedPdu>, to: seq<Octet>, c: seq<Septet>, d: seq<Septet>)
    requires IsWholeGsm7(parts, to, c) && IsWholeGsm7(parts, to, d)
    ensures c == d
  {
    hide Carries, GoodPiece, CodesOf;
    var ps :| AreThePieces(parts, to, c, ps);
    var qs :| AreThePieces(parts, to, d, qs);
    forall i: nat | i < |parts| ensures ps[i] == qs[i] { CarriesOne(parts[i], ps[i], qs[i]); }
    assert ps == qs;
  }

  /** The text of a 7-bit send is the body exactly when IsGSM7 accepts the body and it has no U+001B; without U+001B it is
      the body with what the alphabet lacks left out. */
  lemma SentText(parts: seq<EncodedPdu>, to: seq<Octet>, body: Text)
    requires IsWholeGsm7(parts, to, EncodeText(body))
    ensures GivesText(parts, to, body) <==> IsGsm7(body) && 0x1B !in body
    ensures 0x1B !in body ==> GivesText(parts, to, Representables(body))
  {
    hide IsWholeGsm7, EncodeText, DecodeText, IsGsm7, Representables;
    TextRoundTrip(body);
    if GivesText(parts, to, body) {
      var codes :| IsWholeGsm7(parts, to, codes) && DecodeText(codes) == body;
      PiecesUnique(parts, to, codes, EncodeText(body));
    }
    if 0x1B !in body { EncodeDecode(body); }
  }

  /** Asked for "GSM7", the gateway sends the body U+0416 as one part without a septet. */
  lemma CyrillicVanishes(parts: seq<EncodedPdu>, to: seq<Octet>)
    requires IsWholeGsm7(parts, to, EncodeText([0x416]))
    ensures EncodeText([0x416]) == [] && GivesText(parts, to, []) && !GivesText(parts, to, [0x416])
  {
    hide IsWholeGsm7, GivesText, EncodeText, DecodeText, Representable;
    NoCyrillic();
    EmptyNotPending();
    SentText(parts, to, [0x416]);
    OneRune(0x416);
    assert !IsGsm7([0x416]);
    EmptyGives(parts, to);
  }

  lemma EmptyGives(parts: seq<EncodedPdu>, to: seq<Octet>)
    requires IsWholeGsm7(parts, to, [])
    ensures GivesText(parts, to, [])
  {
    EmptyNotPending();
    hide IsWholeGsm7, DecodeText;
  }

  lemma NoCyrillic()
    ensures !Representable(0x416) && EncodeRune(0x416) == []
  {
    CodeBelowSound(0x416, 128);
    ExtBelowSound(0x416, 128);
    hide CodeBelow, ExtBelow;
    if RuneToCode(0x416).Some? { CharsetBelow(RuneToCode(0x416).value); }
  }

  lemma CharsetBelow(c: Septet)
    ensures Charset(c) < 0x400
  {
  }

  /** The texts of the first k parts, each decoded by itself and put together. */
  function JoinedText(codes: seq<Septet>, size: nat, k: nat): Text {
    if k == 0 then [] else JoinedText(codes, size, k - 1) + DecodeText(Piece(codes, size, k - 1))
  }

  lemma {:induction false} JoinedTextCleanCuts(codes: seq<Septet>, size: nat, k: nat)
    requires forall c: nat :: 0 < c < k ==> !EndsPending(codes[..CutPoint(|codes|, size, c)])
    ensures JoinedText(codes, size, k) == DecodeText(codes[..CutPoint(|codes|, size, k)])
  {
    if k > 0 {
      var a := codes[..CutPoint(|codes|, size, k - 1)];
      CutPointsAscend(|codes|, size, k - 1);
      assert codes[..CutPoint(|codes|, size, k)] == a + Piece(codes, size, k - 1);
      if k == 1 {
        EmptyNotPending();
        assert a == [];
      }
      hide DecodeText, EndsPending, CutPoint, Piece;
      JoinedTextCleanCuts(codes, size, k - 1);
      DecodeConcat(a, Piece(codes, size, k - 1));
    }
  }

  lemma EmptyNotPending()
    ensures !EndsPending([]) && DecodeText([]) == []
  {
  }

  lemma {:induction false} JoinedTextGrows(codes: seq<Septet>, size: nat, k: nat, n: nat)
    requires k <= n
    ensures JoinedText(codes, size, k) <= JoinedText(codes, size, n)
  {
    if k < n { JoinedTextGrows(codes, size, k, n - 1); }
  }

  /** A cut behind a pending ESC changes the rune there. */
  lemma SplitEscapeShows(codes: seq<Septet>, size: nat, k: nat, n: nat)
    requires 0 < k < n && CutPoint(|codes|, size, k) < CutPoint(|codes|, size, k + 1)
    requires EndsPending(codes[..CutPoint(|codes|, size, k)]) && Extension(codes[CutPoint(|codes|, size, k)]).Some?
    requires forall c: nat :: 0 < c < k ==> !EndsPending(codes[..CutPoint(|codes|, size, c)])
    ensures JoinedText(codes, size, n) != DecodeText(codes)
  {
    hide CutPoint, DecodeText, EndsPending, Extension, Charset, EscapedRune;
    var at := CutPoint(|codes|, size, k);
    var a, b, e := codes[..at], codes[at..], codes[at];
    ExtensionDiffers(e);
    JoinedTextCleanCuts(codes, size, k);
    DecodePendingCut(a, b);
    assert a + b == codes && b[0] == e;
    var t := JoinedText(codes, size, k);
    var piece := Piece(codes, size, k);
    assert piece[0] == e;
    FirstRune(piece);
    assert JoinedText(codes, size, k + 1)[|t|] == Charset(e);
    JoinedTextGrows(codes, size, k + 1, n);
    assert DecodeText(codes)[|t|] == EscapedRune(e);
  }

  lemma FirstRune(codes: seq<Septet>)
    requires codes != [] && codes[0] != ESC
    ensures DecodeText(codes) != [] && DecodeText(codes)[0] == Charset(codes[0])
  {
  }

  predicate CleanCuts(codes: seq<Septet>, size: nat)
    requires size > 0
  {
    forall c: nat :: 0 < c < PieceCount(|codes|, size) ==> !EndsPending(codes[..CutPoint(|codes|, size, c)])
  }

  /** The texts of the parts the gateway makes, each decoded by itself and put together. */
  function TextByParts(codes: seq<Septet>): Text {
    if |codes| <= MAX_GSM7 then DecodeText(codes)
    else JoinedText(codes, MAX_GSM7_CONCAT, PieceCount(|codes|, MAX_GSM7_CONCAT))
  }

  /** A receiver that decodes part by part gets the whole text exactly when the message is one part or no cut falls between
      an ESC and its extension code. */
  lemma PartwiseDecoding(body: Text)
    requires 0x1B !in body
    ensures var codes := EncodeText(body);
            TextByParts(codes) == DecodeText(codes) <==> |codes| <= MAX_GSM7 || CleanCuts(codes, MAX_GSM7_CONCAT)
  {
    hide EncodeText, DecodeText, JoinedText, CleanCuts;
    CutsDecide(body);
  }

  lemma CutsDecide(body: Text)
    requires 0x1B !in body
    ensures var codes := EncodeText(body);
            JoinedText(codes, MAX_GSM7_CONCAT, PieceCount(|codes|, MAX_GSM7_CONCAT)) == DecodeText(codes)
            <==> CleanCuts(codes, MAX_GSM7_CONCAT)
  {
    var codes := EncodeText(body);
    var size := MAX_GSM7_CONCAT;
    var n := PieceCount(|codes|, size);
    PiecesCover(|codes|, size);
    if CleanCuts(codes, size) {
      JoinedTextCleanCuts(codes, size, n);
      assert codes[..|codes|] == codes;
    } else {
      var k := FirstBadCut(codes, size, n);
      EscThenExtension(body, CutPoint(|codes|, size, k));
      SplitEscapeShows(codes, size, k, n);
    }
  }

  /** Such a body: 152 letters, a euro sign and at least seven septets more. The euro sign straddles the first cut, so a
      receiver that decodes part by part gets another text. */
  lemma EuroAtTheCut(tail: Text)
    requires 0x1B !in tail && |EncodeText(tail)| >= 7
    ensures var body := Repeated(0x41, 152) + [0x20AC] + tail;
            var codes := EncodeText(body);
            |codes| > MAX_GSM7 && TextByParts(codes) != DecodeText(codes)
  {
    hide EncodeText, EncodeRune, DecodeText, EndsPending, JoinedText, IsGsm7;
    var letters, euro := Repeated(0x41, 152), [0x20AC];
    var body := letters + euro + tail;
    var codes := EncodeText(body);
    Letters(152);
    EncodeDecode(letters);
    EuroCode();
    TextEncodeConcat(letters, euro);
    TextEncodeConcat(letters + euro, tail);
    var a := EncodeText(letters);
    assert codes == a + [ESC, 0x65] + EncodeText(tail);
    assert CutPoint(|codes|, MAX_GSM7_CONCAT, 1) == 153;
    assert codes[..153] == a + [ESC];
    DecodeConcat(a, [ESC]);
    EscPending();
    assert !CleanCuts(codes, MAX_GSM7_CONCAT);
    assert 0x1B !in body;
    PartwiseDecoding(body);
  }

  lemma EuroCode()
    ensures EncodeText([0x20AC]) == [ESC, 0x65]
  {
    OneRune(0x20AC);
    ExtensionDistinct(0x65, 128);
    ExtensionNotBasic(0x65, 128);
    assert Extension(0x65) == Some(0x20AC);
    hide CodeBelow, ExtBelow;
  }

  lemma EscPending()
    ensures EndsPending([ESC])
  {
  }

  lemma {:induction false} FirstBadCut(codes: seq<Septet>, size: nat, n: nat) returns (k: nat)
    requires exists c: nat :: 0 < c < n && EndsPending(codes[..CutPoint(|codes|, size, c)])
    ensures 0 < k < n && EndsPending(codes[..CutPoint(|codes|, size, k)])
    ensures forall c: nat :: 0 < c < k ==> !EndsPending(codes[..CutPoint(|codes|, size, c)])
  {
    k := 1;
    while !EndsPending(codes[..CutPoint(|codes|, size, k)])
      invariant 0 < k
      invariant forall c: nat :: 0 < c < k ==> !EndsPending(codes[..CutPoint(|codes|, size, c)])
      decreases n - k
    {
      k := k + 1;
    }
  }

  /** UCS2 parts hold whole runes, so decoding them part by part always gives the text. */
  lemma {:induction false} Ucs2Partwise(body: Text, size: nat, k: nat)
    ensures JoinedUnits(body, size, k) == Utf16Encode(Joined(body, size, k))
    ensures JoinedRunes(body, size, k) == Joined(body, size, k)
  {
    if k > 0 {
      Ucs2Partwise(body, size, k - 1);
      var piece := Piece(body, size, k - 1);
      EncodeConcat(Joined(body, size, k - 1), piece);
      Utf16RoundTrip(piece);
    }
  }

  function JoinedUnits(body: Text, size: nat, k: nat): seq<Unit> {
    if k == 0 then [] else JoinedUnits(body, size, k - 1) + Utf16Encode(Piece(body, size, k - 1))
  }

  function JoinedRunes(body: Text, size: nat, k: nat): Text {
    if k == 0 then [] else JoinedRunes(body, size, k - 1) + Utf16Decode(Utf16Encode(Piece(body, size, k - 1)))
  }
}
