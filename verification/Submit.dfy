/** Outgoing messages: the SMS-SUBMIT builders, measured against a reader written from section 9.1.2.3
    (semi-octets), section 9.2.2.2 (layout), section 9.2.3.16 (user data length) and section 9.2.3.24
    (user data header) of 3GPP TS 23.040. */
module Submit {
  import opened Options
  import opened Octets
  import opened Septets
  import opened Gsm7Text
  import opened Ucs2
  import opened Address
  import opened Hex

  // ---- The reader of the standard ----

  datatype Concat = Concat(ref: nat, total: nat, part: nat)

  datatype Payload = Codes(codes: seq<Septet>) | Units(units: seq<Unit>)

  datatype UserData = UserData(concat: Option<Concat>, payload: Payload)

  datatype Submission = Submission(head: Head, to: Text, addrType: Octet, dcs: Octet, udl: nat, udOctets: nat, data: UserData)

  /** The first octet, the message reference, the protocol identifier and the validity period. */
  datatype Head = Head(first: Octet, mr: Octet, pid: Octet, validity: seq<Octet>)

  /** The concatenation element among the information elements of a header. */
  function FindConcat(ies: seq<Octet>): Option<Concat> {
    if |ies| < 2 || 2 + ies[1] > |ies| then None
    else if ies[0] == 0 && ies[1] == 3 then Some(Concat(ies[2], ies[3], ies[4]))
    else FindConcat(ies[2 + ies[1]..])
  }

  /** Octets taken by the header, its length octet included. */
  function HeaderLen(udhi: bool, ud: seq<Octet>): nat {
    if !udhi then 0 else if ud == [] then 1 else ud[0] as int + 1
  }

  /** User data as one stream: in the 7-bit alphabet the length counts septets, the header is filled up to
      a septet boundary and the text starts there; in UCS2 the length counts octets. */
  function ReadUserData(udhi: bool, dcs: Octet, udl: nat, ud: seq<Octet>): Option<UserData> {
    var h := HeaderLen(udhi, ud);
    var septets := (8 * h + 6) / 7;
    if h > |ud| then None else
    var concat := if udhi then FindConcat(ud[1..h]) else None;
    if dcs == 0x00 && |ud| == PackedLen(udl, 0) && septets <= udl then
      Some(UserData(concat, Codes(UnpackedAt(ud, 7 * septets, udl - septets))))
    else if dcs == 0x08 && |ud| == udl && (udl - h) % 2 == 0 then
      Some(UserData(concat, Units(ToUnits(ud[h..]))))
    else None
  }

  /** Octets taken by n semi-octets. */
  function HalfUp(n: nat): nat { (n + 1) / 2 }

  /** Octets of the validity period, by the format bits of the first octet. */
  function ValidityLen(format: nat): nat {
    if format == 0 then 0 else if format == 2 then 1 else 7
  }

  function ReadSubmit(t: seq<Octet>): Option<Submission> {
    if |t| < 4 || t[0] % 4 != 1 then None else
    var da := HalfUp(t[2]);
    var vp := ValidityLen((t[0] / 8) % 4);
    if |t| < 7 + da + vp then None else
    var ud := t[7 + da + vp..];
    match ReadUserData((t[0] / 64) % 2 == 1, t[5 + da], t[6 + da + vp], ud)
    case None => None
    case Some(data) =>
      Some(Submission(Head(t[0], t[1], t[4 + da], t[6 + da..6 + da + vp]), StandardAddress(t[4..4 + da], t[2], t[3]), t[3],
                      t[5 + da], t[6 + da + vp], |ud|, data))
  }

  // ---- What the builders return ----

  datatype EncodedPdu = EncodedPdu(hexStr: string, length: nat, numParts: nat)

  /** The PDU is a default-SMSC octet followed by a TPDU that reads as s, and its length is that TPDU's. */
  ghost predicate Carries(p: EncodedPdu, s: Submission) {
    var raw := HexDecode(p.hexStr);
    && raw.Some? && |raw.value| > 0 && raw.value[0] == 0
    && p.length == |raw.value| - 1
    && ReadSubmit(raw.value[1..]) == Some(s)
  }

  /** A PDU carries at most one submission. */
  lemma CarriesOne(p: EncodedPdu, a: Submission, b: Submission)
    requires Carries(p, a) && Carries(p, b)
    ensures a == b
  {
    hide ReadSubmit, HexDecode;
  }

  /** Reference numbers read from a PDU are octets. */
  lemma CarriedNumbers(p: EncodedPdu, s: Submission)
    requires Carries(p, s) && s.data.concat.Some?
    ensures s.data.concat.value.total < 256
  {
    hide HexDecode, FindConcat, StandardAddress, UnpackedAt, ToUnits;
    var t := HexDecode(p.hexStr).value[1..];
    forall ies: seq<Octet> ensures FindConcat(ies).Some? ==> FindConcat(ies).value.total < 256 { FoundNumbers(ies); }
  }

  lemma {:induction false} FoundNumbers(ies: seq<Octet>)
    ensures FindConcat(ies).Some? ==> FindConcat(ies).value.total < 256
    decreases |ies|
  {
    if !(|ies| < 2 || 2 + ies[1] > |ies|) { FoundNumbers(ies[2 + ies[1]..]); }
  }

  /** Destinations the builder lays out as the standard has them. */
  predicate Addressable(to: seq<Octet>) {
    Sendable(Digits(to)) && |Digits(to)| < 256
  }

  function ConcatOf(ref: Octet, total: Octet, part: Octet): Option<Concat> {
    if total > 0 then Some(Concat(ref, total, part)) else None
  }

  function Header(ref: Octet, total: Octet, part: Octet): seq<Octet> {
    if total > 0 then [0x05, 0x00, 0x03, ref, total, part] else []
  }

  /** SMS-SUBMIT with a relative validity period of four days. */
  function HeadOf(total: Octet): Head {
    Head(FirstOctet(total), 0x00, 0x00, [0xAA])
  }

  /** What the head says, by sections 9.2.2.2 and 9.2.3.12.1: SMS-SUBMIT, duplicates not rejected, a relative validity
      period of four days, no status report, a header exactly in a part of several, no reply path, reference and protocol 0. */
  lemma HeadMeans(total: Octet)
    ensures var h := HeadOf(total);
            && h.first % 4 == 1 && (h.first / 4) % 2 == 0 && (h.first / 8) % 4 == 2 && (h.first / 32) % 2 == 0
            && ((h.first / 64) % 2 == 1 <==> total > 0) && h.first / 128 == 0
            && h.mr == 0 && h.pid == 0 && |h.validity| == 1 && (h.validity[0] as int) - 166 == 4
  {
  }

  /** SMS-SUBMIT, relative validity period, and the header bit for a part of several. */
  function FirstOctet(total: Octet): Octet {
    if total > 0 then 0x51 else 0x11
  }

  /** `byte(n)`. */
  function ToOctet(n: nat): Octet { n % 256 }

  function Tpdu(first: Octet, to: seq<Octet>, dcs: Octet, udl: Octet, ud: seq<Octet>): seq<Octet> {
    [first, 0x00, ToOctet(|Digits(to)|), AddressType(to)] + AddressOctets(Digits(to)) + [0x00, dcs, 0xAA, udl] + ud
  }

  // ---- Reading what was built ----

  lemma TpduFields(first: Octet, to: seq<Octet>, dcs: Octet, udl: Octet, ud: seq<Octet>)
    requires |Digits(to)| < 256
    ensures var t := Tpdu(first, to, dcs, udl, ud);
            var da := (|Digits(to)| + 1) / 2;
            && |t| == 8 + da + |ud| && t[0] == first && t[1] == 0x00 && t[2] == |Digits(to)| && t[3] == AddressType(to)
            && t[4..4 + da] == AddressOctets(Digits(to)) && t[4 + da] == 0x00 && t[5 + da] == dcs
            && t[6 + da..7 + da] == [0xAA] && t[7 + da] == udl && t[8 + da..] == ud
  {
  }

  lemma ReadBuilt(total: Octet, to: seq<Octet>, dcs: Octet, udl: Octet, ud: seq<Octet>)
    requires Addressable(to)
    ensures ReadSubmit(Tpdu(FirstOctet(total), to, dcs, udl, ud)) ==
            match ReadUserData(total > 0, dcs, udl, ud)
            case None => None
            case Some(data) => Some(Submission(HeadOf(total), to, AddressType(to), dcs, udl, |ud|, data))
  {
    hide ReadUserData, Sendable, StandardAddress, AddressOctets, Digits, AddressType, Tpdu;
    var first := FirstOctet(total);
    TpduFields(first, to, dcs, udl, ud);
    assert first % 4 == 1 && ValidityLen((first / 8) % 4) == 1 && ((first / 64) % 2 == 1) == (total > 0);
    hide FirstOctet;
    DestinationBack(to);
    var t := Tpdu(first, to, dcs, udl, ud);
    var da := HalfUp(t[2]);
    assert StandardAddress(t[4..4 + da], t[2], t[3]) == to;
    assert t[7 + da + 1..] == ud;
  }

  lemma {:induction false} SemiOctetsLen(data: seq<Octet>, count: nat, i: nat)
    ensures i <= count ==> |SemiOctets(data, count, i)| <= count - i
    decreases count - i
  {
    if i < count && i / 2 < |data| { SemiOctetsLen(data, count, i + 1); }
  }

  /** A destination outside the address field's range is never read back. */
  lemma NotAddressable(total: Octet, to: seq<Octet>, dcs: Octet, udl: Octet, ud: seq<Octet>)
    requires !Addressable(to)
    ensures var r := ReadSubmit(Tpdu(FirstOctet(total), to, dcs, udl, ud)); r.Some? ==> r.value.to != to
  {
    hide ReadUserData, Sendable, StandardAddress, AddressOctets, Digits, AddressType, Tpdu;
    if |Digits(to)| < 256 {
      TpduFields(FirstOctet(total), to, dcs, udl, ud);
      DestinationBack(to);
    } else {
      TypeField(FirstOctet(total), to, dcs, udl, ud);
      TooManyDigits(Tpdu(FirstOctet(total), to, dcs, udl, ud), to);
    }
  }

  lemma TypeField(first: Octet, to: seq<Octet>, dcs: Octet, udl: Octet, ud: seq<Octet>)
    ensures var t := Tpdu(first, to, dcs, udl, ud); |t| >= 4 && t[3] == AddressType(to)
  {
    hide AddressOctets, Digits, AddressType;
  }

  lemma TooManyDigits(t: seq<Octet>, to: seq<Octet>)
    requires |Digits(to)| >= 256 && |t| >= 4 && t[3] == AddressType(to)
    ensures var r := ReadSubmit(t); r.Some? ==> r.value.to != to
  {
    hide ReadUserData, StandardAddress, Digits, AddressType;
    var da := HalfUp(t[2]);
    if |t| >= 4 + da { ShortNumber(t[4..4 + da], t[2], to); }
  }

  /** A count in one octet never covers 256 digits. */
  lemma ShortNumber(data: seq<Octet>, count: Octet, to: seq<Octet>)
    requires |Digits(to)| >= 256
    ensures StandardAddress(data, count, AddressType(to)) != to
  {
    assert TypeOfNumber(UNKNOWN) == 0 && TypeOfNumber(INTERNATIONAL) == 1;
    hide TypeOfNumber, SemiOctets, DecodeText, UnpackedAt;
    SemiOctetsLen(data, count, 0);
  }

  /** A 7-bit body behind the six-octet header starts at bit 49, behind one fill bit. */
  lemma ReadCodes(ref: Octet, total: Octet, part: Octet, codes: seq<Septet>)
    ensures var fill := if total > 0 then 1 else 0;
            var ud := Header(ref, total, part) + Packed(codes, fill);
            var udl := |codes| + if total > 0 then 7 else 0;
            && |ud| == PackedLen(udl, 0)
            && ReadUserData(total > 0, 0x00, udl, ud) == Some(UserData(ConcatOf(ref, total, part), Codes(codes)))
  {
    var header := Header(ref, total, part);
    if total > 0 {
      var ud := header + Packed(codes, 1);
      assert ud[1..6] == [0x00, 0x03, ref, total, part];
      ReadsBackBehind(header, codes, 1);
    } else {
      PackUnpack(codes, 0);
      assert header + Packed(codes, 0) == Packed(codes, 0);
    }
  }

  lemma ReadUnits(ref: Octet, total: Octet, part: Octet, units: seq<Unit>)
    ensures var ud := Header(ref, total, part) + ToOctets(units);
            ReadUserData(total > 0, 0x08, |ud|, ud) == Some(UserData(ConcatOf(ref, total, part), Units(units)))
  {
    UnitsOctets(units);
    hide ToUnits, ToOctets;
    var header := Header(ref, total, part);
    var ud := header + ToOctets(units);
    assert ud[|header|..] == ToOctets(units);
    if total > 0 { assert ud[1..6] == [0x00, 0x03, ref, total, part]; }
  }

  // ---- The builders ----

  /** buildGSM7PDU: the part carries its destination, reference numbers and codes exactly when the
      destination fits its field and the length its octet. */
  method BuildGsm7Pdu(to: seq<Octet>, codes: seq<Septet>, ref: Octet, total: Octet, part: Octet)
    returns (p: EncodedPdu)
    ensures p.numParts == total
    ensures var udl := |codes| + if total > 0 then 7 else 0;
            Carries(p, Submission(HeadOf(total), to, AddressType(to), 0x00, udl, PackedLen(udl, 0),
                                  UserData(ConcatOf(ref, total, part), Codes(codes))))
            <==> Addressable(to) && udl < 256
  {
    hide ReadSubmit, Tpdu, HexEncode, Addressable, Carries, Packed, AddressOctets, OrOctet, Digits, AddressType;
    var multiPart := total > 0;
    var pdu: seq<Octet> := [];
    pdu := pdu + [0x00];
    var pduType: Octet := 0x11;
    if multiPart {
      pduType := OrOctet(pduType, 0x40);
    }
    FirstOctetBits(total);
    pdu := pdu + [pduType];
    pdu := pdu + [0x00];
    var numDigits, daType, daData := EncodeBcdAddress(to);
    pdu := pdu + [ToOctet(numDigits)];
    pdu := pdu + [daType];
    assert pdu == [0x00, FirstOctet(total), 0x00, ToOctet(numDigits), daType];
    pdu := pdu + daData;
    ghost var addressed := pdu;
    pdu := pdu + [0x00];
    pdu := pdu + [0x00];
    pdu := pdu + [0xAA];
    var udh: seq<Octet> := [];
    if multiPart {
      udh := [0x05, 0x00, 0x03, ref, total, part];
    }
    var packed := PackGsm7(codes);
    var udl := |codes|;
    if multiPart {
      udl := udl + 7;
    }
    pdu := pdu + [ToOctet(udl)];
    assert pdu == addressed + [0x00, 0x00, 0xAA, ToOctet(udl)];
    ghost var ud := Header(ref, total, part) + Packed(codes, if total > 0 then 1 else 0);
    if multiPart {
      var body := RepackWithFill(codes, 1);
      pdu := pdu + (udh + body);
    } else {
      pdu := pdu + packed;
    }
    assert pdu == addressed + [0x00, 0x00, 0xAA, ToOctet(udl)] + ud;
    Appended(FirstOctet(total), to, 0x00, ToOctet(udl), ud);
    p := EncodedPdu(HexEncode(pdu), |pdu| - 1, total);
    CodesRead(to, codes, ref, total, part);
    CarriesWhatReads(p, Tpdu(FirstOctet(total), to, 0x00, ToOctet(udl), ud),
                     Submission(HeadOf(total), to, AddressType(to), 0x00, udl, PackedLen(udl, 0), UserData(ConcatOf(ref, total, part), Codes(codes))));
  }

  /** Whether a read gives what was wanted, once the parts of the read are known. */
  lemma Decided(r: Option<Submission>, data: Option<UserData>, head: Head, to: seq<Octet>, addrType: Octet, dcs: Octet,
                udl: nat, octets: nat, want: UserData)
    requires Addressable(to) ==>
               r == match data case None => None
                               case Some(d) => Some(Submission(head, to, addrType, dcs, ToOctet(udl), octets, d))
    requires !Addressable(to) && r.Some? ==> r.value.to != to
    requires udl < 256 ==> data == Some(want)
    ensures r == Some(Submission(head, to, addrType, dcs, udl, octets, want)) <==> Addressable(to) && udl < 256
  {
  }

  /** Decided, for a TPDU that was built: `want` is what its user data says when the length fits. */
  lemma BuiltDecided(total: Octet, to: seq<Octet>, dcs: Octet, udl: nat, ud: seq<Octet>, want: UserData)
    requires udl < 256 ==> ReadUserData(total > 0, dcs, udl, ud) == Some(want)
    ensures ReadSubmit(Tpdu(FirstOctet(total), to, dcs, ToOctet(udl), ud))
               == Some(Submission(HeadOf(total), to, AddressType(to), dcs, udl, |ud|, want))
            <==> Addressable(to) && udl < 256
  {
    assert udl < 256 ==> ToOctet(udl) == udl;
    var r := BuiltParts(total, to, dcs, ToOctet(udl), ud);
    assert udl < 256 ==> r.1 == Some(want);
    Decided(r.0, r.1, HeadOf(total), to, AddressType(to), dcs, udl, |ud|, want);
  }

  lemma BuiltParts(total: Octet, to: seq<Octet>, dcs: Octet, udl: Octet, ud: seq<Octet>)
    returns (r: (Option<Submission>, Option<UserData>))
    ensures r.0 == ReadSubmit(Tpdu(FirstOctet(total), to, dcs, udl, ud))
    ensures r.1 == ReadUserData(total > 0, dcs, udl, ud)
    ensures Addressable(to) ==>
              r.0 == match r.1 case None => None
                               case Some(d) => Some(Submission(HeadOf(total), to, AddressType(to), dcs, udl, |ud|, d))
    ensures !Addressable(to) && r.0.Some? ==> r.0.value.to != to
  {
    r := (ReadSubmit(Tpdu(FirstOctet(total), to, dcs, udl, ud)), ReadUserData(total > 0, dcs, udl, ud));
    if Addressable(to) {
      ReadBuilt(total, to, dcs, udl, ud);
    } else {
      NotAddressable(total, to, dcs, udl, ud);
    }
  }

  lemma CodesRead(to: seq<Octet>, codes: seq<Septet>, ref: Octet, total: Octet, part: Octet)
    ensures var udl := |codes| + if total > 0 then 7 else 0;
            var ud := Header(ref, total, part) + Packed(codes, if total > 0 then 1 else 0);
            ReadSubmit(Tpdu(FirstOctet(total), to, 0x00, ToOctet(udl), ud))
            == Some(Submission(HeadOf(total), to, AddressType(to), 0x00, udl, PackedLen(udl, 0), UserData(ConcatOf(ref, total, part), Codes(codes))))
            <==> Addressable(to) && udl < 256
  {
    ReadCodes(ref, total, part, codes);
    BuiltDecided(total, to, 0x00, |codes| + if total > 0 then 7 else 0,
                 Header(ref, total, part) + Packed(codes, if total > 0 then 1 else 0),
                 UserData(ConcatOf(ref, total, part), Codes(codes)));
  }

  lemma UnitsRead(to: seq<Octet>, units: seq<Unit>, ref: Octet, total: Octet, part: Octet)
    ensures var ud := Header(ref, total, part) + ToOctets(units);
            ReadSubmit(Tpdu(FirstOctet(total), to, 0x08, ToOctet(|ud|), ud))
            == Some(Submission(HeadOf(total), to, AddressType(to), 0x08, |ud|, |ud|, UserData(ConcatOf(ref, total, part), Units(units))))
            <==> Addressable(to) && |ud| < 256
  {
    ReadUnits(ref, total, part, units);
    var ud := Header(ref, total, part) + ToOctets(units);
    BuiltDecided(total, to, 0x08, |ud|, ud, UserData(ConcatOf(ref, total, part), Units(units)));
  }

  /** Appending field by field gives the TPDU behind its SMSC octet. */
  lemma Appended(first: Octet, to: seq<Octet>, dcs: Octet, udl: Octet, ud: seq<Octet>)
    ensures [0x00, first, 0x00, ToOctet(|Digits(to)|), AddressType(to)] + AddressOctets(Digits(to)) + [0x00, dcs, 0xAA, udl] + ud
            == [0x00] + Tpdu(first, to, dcs, udl, ud)
  {
    SmscInFront([first, 0x00, ToOctet(|Digits(to)|), AddressType(to)], AddressOctets(Digits(to)), [0x00, dcs, 0xAA, udl], ud);
    assert [0x00] + [first, 0x00, ToOctet(|Digits(to)|), AddressType(to)]
        == [0x00, first, 0x00, ToOctet(|Digits(to)|), AddressType(to)];
  }

  lemma SmscInFront(a: seq<Octet>, b: seq<Octet>, c: seq<Octet>, d: seq<Octet>)
    ensures [0x00] + a + b + c + d == [0x00] + (a + b + c + d)
  {
  }

  lemma CarriesWhatReads(p: EncodedPdu, t: seq<Octet>, s: Submission)
    requires p.hexStr == HexEncode([0x00] + t) && p.length == |t|
    ensures Carries(p, s) <==> ReadSubmit(t) == Some(s)
  {
    HexRoundTrip([0x00] + t);
    assert ([0x00] + t)[1..] == t;
  }

  lemma FirstOctetBits(total: Octet)
    ensures FirstOctet(total) == if total > 0 then OrOctet(0x11, 0x40) else 0x11
  {
    assert Pow2(6) == 64;
    OrAbove(0x11, 1, 6);
  }

  /** buildUCS2PDU: likewise; the length octet counts octets here. */
  method BuildUcs2Pdu(to: seq<Octet>, runes: Text, ref: Octet, total: Octet, part: Octet)
    returns (p: EncodedPdu)
    ensures p.numParts == total
    ensures var udl := |Ucs2Octets(runes)| + if total > 0 then 6 else 0;
            Carries(p, Submission(HeadOf(total), to, AddressType(to), 0x08, udl, udl,
                                  UserData(ConcatOf(ref, total, part), Units(Utf16Encode(runes)))))
            <==> Addressable(to) && udl < 256
  {
    hide ReadSubmit, Tpdu, HexEncode, Addressable, Carries, AddressOctets, OrOctet, Digits, AddressType, ToOctets, Utf16Encode;
    var multiPart := total > 0;
    var body := EncodeUcs2(runes);
    var udh: seq<Octet> := [];
    if multiPart {
      udh := [0x05, 0x00, 0x03, ref, total, part];
    }
    assert udh == Header(ref, total, part);
    var numDigits, daType, daData := EncodeBcdAddress(to);
    var pdu: seq<Octet> := [];
    pdu := pdu + [0x00];
    var pduType: Octet := 0x11;
    if multiPart {
      pduType := OrOctet(pduType, 0x40);
    }
    FirstOctetBits(total);
    pdu := pdu + [pduType];
    pdu := pdu + [0x00];
    pdu := pdu + [ToOctet(numDigits)];
    pdu := pdu + [daType];
    assert pdu == [0x00, FirstOctet(total), 0x00, ToOctet(numDigits), daType];
    pdu := pdu + daData;
    ghost var addressed := pdu;
    pdu := pdu + [0x00];
    pdu := pdu + [0x08];
    pdu := pdu + [0xAA];
    var udl := |body| + |udh|;
    pdu := pdu + [ToOctet(udl)];
    assert pdu == addressed + [0x00, 0x08, 0xAA, ToOctet(udl)];
    pdu := pdu + udh;
    pdu := pdu + body;
    ghost var ud := Header(ref, total, part) + body;
    assert pdu == addressed + [0x00, 0x08, 0xAA, ToOctet(udl)] + ud;
    Appended(FirstOctet(total), to, 0x08, ToOctet(udl), ud);
    p := EncodedPdu(HexEncode(pdu), |pdu| - 1, total);
    UnitsCarried(p, to, Utf16Encode(runes), ref, total, part);
  }

  lemma UnitsCarried(p: EncodedPdu, to: seq<Octet>, units: seq<Unit>, ref: Octet, total: Octet, part: Octet)
    requires var ud := Header(ref, total, part) + ToOctets(units);
             var t := Tpdu(FirstOctet(total), to, 0x08, ToOctet(|ud|), ud);
             p.hexStr == HexEncode([0x00] + t) && p.length == |t|
    ensures var udl := |ToOctets(units)| + if total > 0 then 6 else 0;
            Carries(p, Submission(HeadOf(total), to, AddressType(to), 0x08, udl, udl, UserData(ConcatOf(ref, total, part), Units(units))))
            <==> Addressable(to) && udl < 256
  {
    hide ReadSubmit, Tpdu, HexEncode, Addressable, AddressType, ToOctets;
    var ud := Header(ref, total, part) + ToOctets(units);
    UnitsRead(to, units, ref, total, part);
    CarriesWhatReads(p, Tpdu(FirstOctet(total), to, 0x08, ToOctet(|ud|), ud),
                     Submission(HeadOf(total), to, AddressType(to), 0x08, |ud|, |ud|, UserData(ConcatOf(ref, total, part), Units(units))));
  }
}
