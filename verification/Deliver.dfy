/** Incoming messages: the SMS-DELIVER decoder (section 9.2.2.1 of 3GPP TS 23.040), its cursor form and
    a field-by-field form, and what it makes of frames laid out by the standard. */
module Deliver {
  import opened Options
  import opened Octets
  import opened Septets
  import opened Gsm7Text
  import opened Ucs2
  import opened Address
  import opened Hex
  import Submit

  datatype Alphabet = Gsm7 | EightBit | Utf16

  /** dcsEncoding. */
  function DcsAlphabet(dcs: Octet): Alphabet {
    var group := dcs / 16;
    if group == 0x00 || group == 0x0F then
      (var enc := (dcs / 4) % 4;
       if enc == 1 then EightBit else if enc == 2 then Utf16 else Gsm7)
    else if 0x08 <= group <= 0x0B then Utf16
    else if group == 0x0E && (dcs / 4) % 2 == 1 then Utf16
    else Gsm7
  }

  datatype Body = Chars(text: Text) | Raw(octets: seq<Octet>)

  datatype Reason =
    | BadHex | AfterSmsc | NotDeliver | AtOa | AtOaDigits | AtPid | AtDcs | AtScts | AtUdl | EmptyHeader | BadHeader

  datatype Decoding = Ok(smsc: Text, sender: Text, body: Body) | Err(reason: Reason)

  // ---- Field by field ----

  /** decodeSMSC: the address and the octets it claims, which may be more than there are. */
  function Smsc(raw: seq<Octet>): (Text, nat) {
    if |raw| == 0 then ([], 0)
    else if raw[0] == 0 then ([], 1)
    else if 1 + (raw[0] as int) > |raw| then ([], 1 + (raw[0] as int))
    else (AddressText(raw[2..1 + (raw[0] as int)], ((raw[0] as int) - 1) * 2, raw[1]), 1 + (raw[0] as int))
  }

  /** What is left of the user data length and the user data behind a header of h octets. */
  function LengthBehind(alphabet: Alphabet, udl: nat, h: nat): nat {
    var taken := if alphabet == Gsm7 then (h * 8 + 6) / 7 else h;
    if taken >= udl then 0 else udl - taken
  }

  function ReadBody(alphabet: Alphabet, udl: nat, ud: seq<Octet>): Body {
    match alphabet
    case Gsm7 => Chars(DecodeText(UnpackedAt(ud, 0, ClampedCount(ud, udl))))
    case Utf16 => Chars(Ucs2Text(ud[..Min(2 * udl, |ud|)]))
    case EightBit => Raw(ud[..Min(udl, |ud|)])
  }

  function Min(a: nat, b: nat): nat { if a > b then b else a }

  function ReadUserData(smsc: Text, sender: Text, udhi: bool, alphabet: Alphabet, udl: nat, ud: seq<Octet>): Decoding {
    if !udhi then Ok(smsc, sender, ReadBody(alphabet, udl, ud))
    else if ud == [] then Err(EmptyHeader)
    else
      var h := (ud[0] as int) + 1;
      if h > |ud| then Err(BadHeader)
      else Ok(smsc, sender, ReadBody(alphabet, LengthBehind(alphabet, udl, h), ud[h..]))
  }

  /** From the protocol identifier on. */
  function ReadFromPid(smsc: Text, sender: Text, udhi: bool, t: seq<Octet>): Decoding {
    if |t| < 1 then Err(AtPid)
    else if |t| < 2 then Err(AtDcs)
    else if |t| < 9 then Err(AtScts)
    else if |t| < 10 then Err(AtUdl)
    else ReadUserData(smsc, sender, udhi, DcsAlphabet(t[1]), t[9], t[10..])
  }

  function ReadTpdu(smsc: Text, t: seq<Octet>): Decoding
    requires |t| > 0
  {
    if t[0] % 4 != 0 then Err(NotDeliver)
    else if |t| < 3 then Err(AtOa)
    else
      var oa := Submit.HalfUp(t[1]);
      if |t| < 3 + oa then Err(AtOaDigits)
      else ReadFromPid(smsc, AddressText(t[3..3 + oa], t[1], t[2]), (t[0] / 64) % 2 == 1, t[3 + oa..])
  }

  function ReadDeliver(raw: seq<Octet>): Decoding {
    var (smsc, used) := Smsc(raw);
    if used >= |raw| then Err(AfterSmsc) else ReadTpdu(smsc, raw[used..])
  }

  function ReadHex(hexStr: string): Decoding {
    match HexDecode(Normalize(hexStr))
    case None => Err(BadHex)
    case Some(raw) => ReadDeliver(raw)
  }

  // ---- The cursor form ----

  method DecodeSmsc(raw: seq<Octet>) returns (smsc: Text, used: nat)
    ensures (smsc, used) == Smsc(raw)
  {
    if |raw| == 0 {
      return [], 0;
    }
    var smscLen: int := raw[0];
    if smscLen == 0 {
      return [], 1;
    }
    if 1 + smscLen > |raw| {
      return [], 1 + smscLen;
    }
    var addrType := raw[1];
    smsc := DecodeBcdAddress(raw[2..1 + smscLen], (smscLen - 1) * 2, addrType);
    used := 1 + smscLen;
  }

  /** The user data part of DecodePDU: rewrites the user data and its length when a header is there. */
  method DecodeUserData(smsc: Text, sender: Text, pduType: Octet, dcs: Octet, length: nat, rest: seq<Octet>)
    returns (r: Decoding)
    ensures r == ReadUserData(smsc, sender, (pduType / 64) % 2 == 1, DcsAlphabet(dcs), length, rest)
  {
    hide DecodeText, UnpackedAt, Ucs2Text;
    var enc := DcsAlphabet(dcs);
    var udl: int := length;
    var ud := rest;
    var udhi := (pduType / 64) % 2;
    if udhi == 1 {
      if |ud| == 0 {
        return Err(EmptyHeader);
      }
      var udhLen := (ud[0] as int) + 1;
      if udhLen > |ud| {
        return Err(BadHeader);
      }
      if enc == Gsm7 {
        var udhSeptets := (udhLen * 8 + 6) / 7;
        ud := ud[udhLen..];
        if udhSeptets >= udl {
          udl := 0;
        } else {
          udl := udl - udhSeptets;
        }
      } else {
        ud := ud[udhLen..];
        udl := udl - udhLen;
        if udl < 0 {
          udl := 0;
        }
      }
    }
    match enc
    case Gsm7 =>
      var codes := UnpackGsm7(ud, udl);
      var body := DecodeGsm7Text(codes);
      r := Ok(smsc, sender, Chars(body));
    case Utf16 =>
      var ucs2Bytes := udl * 2;
      if ucs2Bytes > |ud| {
        ucs2Bytes := |ud|;
      }
      var body := DecodeUcs2(ud[..ucs2Bytes]);
      r := Ok(smsc, sender, Chars(body));
    case EightBit =>
      if udl > |ud| {
        udl := |ud|;
      }
      r := Ok(smsc, sender, Raw(ud[..udl]));
  }

  /** DecodePDU: one cursor over the octets, checked before every read. It is in bounds on every octet string,
      and agrees with the field-by-field form. */
  method DecodePdu(hexStr: string) returns (r: Decoding)
    ensures r == ReadHex(hexStr)
  {
    hide AddressText, ReadUserData, Normalize, HexDecode;
    var decoded := HexDecode(Normalize(hexStr));
    if decoded.None? {
      return Err(BadHex);
    }
    var raw := decoded.value;
    var pos := 0;
    var smsc, smscConsumed := DecodeSmsc(raw);
    pos := pos + smscConsumed;
    if pos >= |raw| {
      return Err(AfterSmsc);
    }
    r := DecodeTpdu(raw, pos, smsc);
  }

  /** DecodePDU from its second check on, with the cursor at the first octet behind the service centre. */
  method DecodeTpdu(raw: seq<Octet>, at: nat, smsc: Text) returns (r: Decoding)
    requires at < |raw|
    ensures r == ReadTpdu(smsc, raw[at..])
  {
    hide AddressText, ReadUserData, ReadFromPid;
    var pos := at;
    ghost var t := raw[pos..];
    ghost var base := pos;
    var pduType := raw[pos];
    pos := pos + 1;
    var mti := pduType % 4;
    if mti != 0x00 {
      return Err(NotDeliver);
    }
    if pos + 2 > |raw| {
      return Err(AtOa);
    }
    var oaNumDigits: int := raw[pos];
    pos := pos + 1;
    var oaType := raw[pos];
    pos := pos + 1;
    var oaBytes := (oaNumDigits + 1) / 2;
    assert oaNumDigits == t[1] && oaType == t[2] && oaBytes == Submit.HalfUp(t[1]);
    if pos + oaBytes > |raw| {
      return Err(AtOaDigits);
    }
    SliceOfTail(raw, base, 3, 3 + oaBytes);
    var sender := DecodeBcdAddress(raw[pos..pos + oaBytes], oaNumDigits, oaType);
    pos := pos + oaBytes;
    ghost var t2 := raw[pos..];
    SliceOfTail(raw, base, 3 + oaBytes, |t|);
    assert ReadTpdu(smsc, t) == ReadFromPid(smsc, sender, (pduType / 64) % 2 == 1, t2);
    r := DecodeFromPid(raw, pos, smsc, sender, pduType);
  }

  lemma SliceOfTail(raw: seq<Octet>, base: nat, a: nat, b: nat)
    requires a <= b && base + b <= |raw|
    ensures raw[base..][a..b] == raw[base + a..base + b]
  {
  }

  /** DecodePDU from its sixth check on, with the cursor at the protocol identifier. */
  method DecodeFromPid(raw: seq<Octet>, at: nat, smsc: Text, sender: Text, pduType: Octet) returns (r: Decoding)
    requires at <= |raw|
    ensures r == ReadFromPid(smsc, sender, (pduType / 64) % 2 == 1, raw[at..])
  {
    hide ReadUserData;
    var pos := at;
    if pos >= |raw| {
      return Err(AtPid);
    }
    pos := pos + 1;
    if pos >= |raw| {
      return Err(AtDcs);
    }
    var dcs := raw[pos];
    pos := pos + 1;
    if pos + 7 > |raw| {
      return Err(AtScts);
    }
    pos := pos + 7;
    if pos >= |raw| {
      return Err(AtUdl);
    }
    var udl := raw[pos];
    pos := pos + 1;
    assert raw[pos..] == raw[at..][10..];
    r := DecodeUserData(smsc, sender, pduType, dcs, udl, raw[pos..]);
  }

  // ---- Acceptance ----

  /** The octet strings DecodePDU accepts, by the offsets of their fields. */
  predicate WellFormed(raw: seq<Octet>) {
    && |raw| > 0
    && (var p := 1 + (raw[0] as int);
        && p + 3 <= |raw| && raw[p] % 4 == 0
        && (var q := p + 3 + Submit.HalfUp(raw[p + 1]);
            && q + 10 <= |raw|
            && ((raw[p] / 64) % 2 == 1 ==> q + 10 < |raw| && q + 11 + (raw[q + 10] as int) <= |raw|)))
  }

  lemma AcceptsExactly(raw: seq<Octet>)
    ensures ReadDeliver(raw).Ok? <==> WellFormed(raw)
  {
    hide AddressText, ReadBody;
    var (smsc, used) := Smsc(raw);
    if |raw| > 0 {
      assert used == 1 + (raw[0] as int);
      if used < |raw| {
        var t := raw[used..];
        TpduAccepted(smsc, t);
        assert t[0] == raw[used];
        if |t| >= 3 {
          assert t[1] == raw[used + 1];
          var oa := Submit.HalfUp(t[1]);
          if 3 + oa + 10 < |t| { assert t[3 + oa + 10] == raw[used + 3 + oa + 10]; }
        }
      }
    }
  }

  /** Why a string is refused, by the offset at which it ends or fails: p is where the TPDU starts, q where its protocol
      identifier is. */
  function RefusalAt(raw: seq<Octet>): Reason
    requires !WellFormed(raw)
  {
    if raw == [] then AfterSmsc else
    var p := 1 + (raw[0] as int);
    if |raw| <= p then AfterSmsc
    else if raw[p] % 4 != 0 then NotDeliver
    else if |raw| < p + 3 then AtOa else
    var q := p + 3 + Submit.HalfUp(raw[p + 1]);
    if |raw| < q then AtOaDigits
    else if |raw| == q then AtPid
    else if |raw| == q + 1 then AtDcs
    else if |raw| < q + 9 then AtScts
    else if |raw| == q + 9 then AtUdl
    else if |raw| == q + 10 then EmptyHeader
    else BadHeader
  }

  lemma RefusesExactly(raw: seq<Octet>)
    ensures !WellFormed(raw) ==> ReadDeliver(raw) == Err(RefusalAt(raw))
  {
    hide AddressText, ReadBody;
    AcceptsExactly(raw);
    var (smsc, used) := Smsc(raw);
    if |raw| > 0 && used < |raw| {
      var t := raw[used..];
      assert t[0] == raw[used];
      if |t| >= 3 {
        assert t[1] == raw[used + 1];
        if t[0] % 4 == 0 && !WellFormed(raw) { TpduRefused(smsc, t); }
      }
    }
  }

  lemma TpduRefused(smsc: Text, t: seq<Octet>)
    requires |t| >= 3 && t[0] % 4 == 0 && ReadTpdu(smsc, t).Err?
    ensures var q := 3 + Submit.HalfUp(t[1]);
            ReadTpdu(smsc, t).reason ==
            if |t| < q then AtOaDigits else if |t| == q then AtPid else if |t| == q + 1 then AtDcs
            else if |t| < q + 9 then AtScts else if |t| == q + 9 then AtUdl else if |t| == q + 10 then EmptyHeader else BadHeader
  {
    hide AddressText, ReadBody;
  }

  lemma TpduAccepted(smsc: Text, t: seq<Octet>)
    requires |t| > 0
    ensures ReadTpdu(smsc, t).Ok? <==>
            && |t| >= 3 && t[0] % 4 == 0
            && (var q := 3 + Submit.HalfUp(t[1]);
                && q + 10 <= |t|
                && ((t[0] / 64) % 2 == 1 ==> q + 10 < |t| && q + 11 + (t[q + 10] as int) <= |t|))
  {
    hide AddressText, ReadBody;
    if |t| >= 3 {
      var q := 3 + Submit.HalfUp(t[1]);
      if q <= |t| {
        var t2 := t[q..];
        if |t2| > 10 { assert t2[10..][0] == t[q + 10]; }
      }
    }
  }

  // ---- Frames by the standard ----

  /** A service centre address: none, or a type and semi-octets behind a length in octets. */
  datatype Centre = DefaultCentre | Centre(addrType: Octet, data: seq<Octet>)

  predicate CentreFits(c: Centre) {
    c.Centre? ==> |c.data| < 255
  }

  function SmscField(c: Centre): seq<Octet>
    requires CentreFits(c)
  {
    match c
    case DefaultCentre => [0]
    case Centre(addrType, data) => [|data| + 1, addrType] + data
  }

  /** How the decoder reads it, and how the standard does: the semi-octets go to the filler or the end. */
  function CentreText(c: Centre): Text {
    match c
    case DefaultCentre => []
    case Centre(addrType, data) => AddressText(data, 2 * |data|, addrType)
  }

  function StandardCentre(c: Centre): Text {
    match c
    case DefaultCentre => []
    case Centre(addrType, data) => StandardAddress(data, 2 * |data|, addrType)
  }

  function NumericCentre(m: seq<Octet>): Centre {
    if m == [] then DefaultCentre else Centre(AddressType(m), AddressOctets(Digits(m)))
  }

  /** An originating address: a length in semi-octets, a type and the address. */
  datatype Originator = Originator(count: Octet, addrType: Octet, data: seq<Octet>)

  function Numeric(m: seq<Octet>): Originator
    requires |Digits(m)| < 256
  {
    Originator(|Digits(m)|, AddressType(m), AddressOctets(Digits(m)))
  }

  function Frame(c: Centre, first: Octet, oa: Originator, pid: Octet, dcs: Octet, scts: seq<Octet>,
                 udl: Octet, ud: seq<Octet>): seq<Octet>
    requires CentreFits(c)
  {
    SmscField(c) + ([first, oa.count, oa.addrType] + oa.data + ([pid, dcs] + scts + [udl] + ud))
  }

  lemma SmscDecodes(c: Centre, rest: seq<Octet>)
    requires CentreFits(c)
    ensures Smsc(SmscField(c) + rest) == (CentreText(c), |SmscField(c)|)
  {
    hide AddressText;
    if c.Centre? {
      var raw := SmscField(c) + rest;
      assert raw[0] == |c.data| + 1 && raw[1] == c.addrType;
      assert raw[2..2 + |c.data|] == c.data;
    }
  }

  /** Counted in semi-octets of whole octets, a number still comes back: the filler ends it. */
  lemma SmscText(m: seq<Octet>)
    requires AllDialable(Digits(m))
    ensures CentreText(NumericCentre(m)) == m
  {
    var digits := Digits(m);
    DigitsReadBack(digits, 2 * |AddressOctets(digits)|, 0);
    hide AddressOctets, DigitsFrom;
    assert digits[0..] == digits;
  }

  /** Every field in front of the user data is read where it was laid out, and the user data is passed on whole. What the
      address fields then say is in SinglePartByStandard. */
  lemma FrameDecodes(c: Centre, first: Octet, oa: Originator, pid: Octet, dcs: Octet, scts: seq<Octet>,
                     udl: Octet, ud: seq<Octet>)
    requires CentreFits(c) && first % 4 == 0 && |oa.data| == Submit.HalfUp(oa.count) && |scts| == 7
    ensures ReadDeliver(Frame(c, first, oa, pid, dcs, scts, udl, ud))
            == ReadUserData(CentreText(c), AddressText(oa.data, oa.count, oa.addrType), (first / 64) % 2 == 1,
                            DcsAlphabet(dcs), udl, ud)
  {
    hide AddressText, CentreText, ReadUserData, ReadTpdu, ReadFromPid, SmscField, Smsc;
    var t2 := [pid, dcs] + scts + [udl] + ud;
    var t := [first, oa.count, oa.addrType] + oa.data + t2;
    SmscDecodes(c, t);
    assert (SmscField(c) + t)[|SmscField(c)|..] == t;
    TpduReads(CentreText(c), first, oa, t2);
    PidReads(CentreText(c), AddressText(oa.data, oa.count, oa.addrType), (first / 64) % 2 == 1, pid, dcs, scts, udl, ud);
  }

  lemma PidReads(smsc: Text, sender: Text, udhi: bool, pid: Octet, dcs: Octet, scts: seq<Octet>, udl: Octet, ud: seq<Octet>)
    requires |scts| == 7
    ensures ReadFromPid(smsc, sender, udhi, [pid, dcs] + scts + [udl] + ud)
            == ReadUserData(smsc, sender, udhi, DcsAlphabet(dcs), udl, ud)
  {
    hide ReadUserData, DcsAlphabet;
    var t2 := [pid, dcs] + scts + [udl] + ud;
    assert t2[1] == dcs && t2[9] == udl && t2[10..] == ud;
  }

  lemma TpduReads(smsc: Text, first: Octet, oa: Originator, t2: seq<Octet>)
    requires first % 4 == 0 && |oa.data| == Submit.HalfUp(oa.count)
    ensures ReadTpdu(smsc, [first, oa.count, oa.addrType] + oa.data + t2)
            == ReadFromPid(smsc, AddressText(oa.data, oa.count, oa.addrType), (first / 64) % 2 == 1, t2)
  {
    hide AddressText, ReadFromPid;
    var t := [first, oa.count, oa.addrType] + oa.data + t2;
    assert t[3..3 + |oa.data|] == oa.data && t[3 + |oa.data|..] == t2;
  }

  // ---- What comes back ----

  /** A single-part message in the 7-bit alphabet: its septets are decoded whole. */
  lemma SinglePartCodes(c: Centre, first: Octet, oa: Originator, pid: Octet, dcs: Octet, scts: seq<Octet>, codes: seq<Septet>)
    requires CentreFits(c) && |oa.data| == Submit.HalfUp(oa.count) && |codes| < 256
    requires first % 4 == 0 && (first / 64) % 2 == 0 && |scts| == 7 && DcsAlphabet(dcs) == Gsm7
    ensures ReadDeliver(Frame(c, first, oa, pid, dcs, scts, |codes|, Packed(codes, 0)))
            == Ok(CentreText(c), AddressText(oa.data, oa.count, oa.addrType), Chars(DecodeText(codes)))
  {
    hide AddressText, CentreText, DecodeText, Smsc, DcsAlphabet;
    FrameDecodes(c, first, oa, pid, dcs, scts, |codes|, Packed(codes, 0));
    SeptetRoundTrip(codes);
  }

  predicate PlainCentre(c: Centre) {
    c.Centre? ==> IsPlain(c.data, 2 * |c.data|, c.addrType)
  }

  /** Between numbers, such a frame is decoded to the service centre, the sender and the text that the standard puts
      into it exactly when neither number has a semi-octet from 1010 to 1110 or another plan than the telephone plan behind
      a plus sign, and the text is in the alphabet without U+001B. */
  lemma SinglePartByStandard(c: Centre, first: Octet, oa: Originator, pid: Octet, dcs: Octet, scts: seq<Octet>, s: Text)
    requires CentreFits(c) && |oa.data| == Submit.HalfUp(oa.count) && |EncodeText(s)| < 256
    requires first % 4 == 0 && (first / 64) % 2 == 0 && |scts| == 7 && DcsAlphabet(dcs) == Gsm7
    requires (c.Centre? ==> TypeOfNumber(c.addrType) != 5) && TypeOfNumber(oa.addrType) != 5
    ensures var codes := EncodeText(s);
            ReadDeliver(Frame(c, first, oa, pid, dcs, scts, |codes|, Packed(codes, 0)))
              == Ok(StandardCentre(c), StandardAddress(oa.data, oa.count, oa.addrType), Chars(s))
            <==> PlainCentre(c) && IsPlain(oa.data, oa.count, oa.addrType) && IsGsm7(s) && 0x1B !in s
  {
    hide AddressText, StandardAddress, IsPlain, TypeOfNumber, DecodeText, EncodeText, IsGsm7, ReadDeliver, Frame, Packed, DcsAlphabet;
    SinglePartCodes(c, first, oa, pid, dcs, scts, EncodeText(s));
    TextRoundTrip(s);
    NumberAgreement(oa.data, oa.count, oa.addrType);
    if c.Centre? { NumberAgreement(c.data, 2 * |c.data|, c.addrType); }
  }

  /** With the numbers given as text: they come back with the septets, and so does the text, exactly when it is in the
      alphabet and has no U+001B. */
  lemma SinglePartGsm7(smsc: seq<Octet>, first: Octet, sender: seq<Octet>, pid: Octet, dcs: Octet, scts: seq<Octet>, s: Text)
    requires |Digits(smsc)| <= 508 && AllDialable(Digits(smsc))
    requires |Digits(sender)| < 256 && AllDialable(Digits(sender))
    requires first % 4 == 0 && (first / 64) % 2 == 0 && |scts| == 7 && DcsAlphabet(dcs) == Gsm7
    requires |EncodeText(s)| < 256
    ensures var codes := EncodeText(s);
            ReadDeliver(Frame(NumericCentre(smsc), first, Numeric(sender), pid, dcs, scts, |codes|, Packed(codes, 0)))
            == Ok(smsc, sender, Chars(DecodeText(codes)))
    ensures DecodeText(EncodeText(s)) == s <==> IsGsm7(s) && 0x1B !in s
  {
    SmscText(smsc);
    AddressRoundTrip(sender);
    hide AddressText, CentreText, DecodeText, EncodeText, IsGsm7, ReadDeliver, Frame, Packed, DcsAlphabet, AllDialable, Digits, AddressType;
    SinglePartCodes(NumericCentre(smsc), first, Numeric(sender), pid, dcs, scts, EncodeText(s));
    TextRoundTrip(s);
  }

  /** Fill bits between a header of h octets and the next septet boundary. */
  function FillBits(h: nat): nat {
    7 * ((8 * h + 6) / 7) - 8 * h
  }

  lemma FillBitsZero(h: nat)
    ensures FillBits(h) < 7
    ensures FillBits(h) == 0 <==> h % 7 == 0
  {
  }

  /** The septets that DecodePDU turns into text, for 7-bit user data behind a header. */
  function CodesBehind(udl: nat, ud: seq<Octet>): seq<Septet>
    requires |ud| > 0 && (ud[0] as int) + 1 <= |ud|
  {
    var h := (ud[0] as int) + 1;
    UnpackedAt(ud[h..], 0, ClampedCount(ud[h..], LengthBehind(Gsm7, udl, h)))
  }

  lemma BodyOfCodesBehind(smsc: Text, sender: Text, udl: nat, ud: seq<Octet>)
    requires |ud| > 0 && (ud[0] as int) + 1 <= |ud|
    ensures ReadUserData(smsc, sender, true, Gsm7, udl, ud) == Ok(smsc, sender, Chars(DecodeText(CodesBehind(udl, ud))))
  {
  }

  /** Behind a header the decoder skips octets but no fill bits, so the septets of a frame by the standard come
      back exactly when the header, length octet included, is a multiple of seven octets, or all septets are zero. */
  lemma Gsm7BehindHeader(header: seq<Octet>, codes: seq<Septet>)
    requires |header| > 0 && header[0] == |header| - 1
    ensures var ud := header + Packed(codes, FillBits(|header|));
            var udl := (8 * |header| + 6) / 7 + |codes|;
            CodesBehind(udl, ud) == codes <==> |header| % 7 == 0 || forall i :: 0 <= i < |codes| ==> codes[i] == 0
  {
    hide Packed, UnpackedAt, DecodeText;
    var h := |header|;
    var fill := FillBits(h);
    var body := Packed(codes, fill);
    var ud := header + body;
    assert ud[0] == header[0] && ud[h..] == body;
    FillBitsZero(h);
    PackedHoldsAll(|codes|, fill);
    assert LengthBehind(Gsm7, (8 * h + 6) / 7 + |codes|, h) == |codes|;
    if fill == 0 {
      PackUnpack(codes, 0);
    } else {
      MisalignedRead(codes, fill);
    }
  }

  /** The same of whole frames: a 7-bit frame with a header is decoded to the text of CodesBehind, and these are the
      septets laid out behind the fill bits exactly under that condition. */
  lemma HeaderFrame(c: Centre, first: Octet, oa: Originator, pid: Octet, dcs: Octet, scts: seq<Octet>,
                    header: seq<Octet>, codes: seq<Septet>)
    requires CentreFits(c) && |oa.data| == Submit.HalfUp(oa.count)
    requires first % 4 == 0 && (first / 64) % 2 == 1 && |scts| == 7 && DcsAlphabet(dcs) == Gsm7
    requires |header| > 0 && header[0] == |header| - 1 && (8 * |header| + 6) / 7 + |codes| < 256
    ensures var ud := header + Packed(codes, FillBits(|header|));
            var udl := (8 * |header| + 6) / 7 + |codes|;
            && ReadDeliver(Frame(c, first, oa, pid, dcs, scts, udl, ud))
               == Ok(CentreText(c), AddressText(oa.data, oa.count, oa.addrType), Chars(DecodeText(CodesBehind(udl, ud))))
            && (CodesBehind(udl, ud) == codes <==> |header| % 7 == 0 || forall i :: 0 <= i < |codes| ==> codes[i] == 0)
  {
    hide AddressText, CentreText, DecodeText, CodesBehind, ReadUserData, ReadDeliver, Frame, Packed, DcsAlphabet;
    var ud := header + Packed(codes, FillBits(|header|));
    var udl := (8 * |header| + 6) / 7 + |codes|;
    FrameDecodes(c, first, oa, pid, dcs, scts, udl, ud);
    BodyOfCodesBehind(CentreText(c), AddressText(oa.data, oa.count, oa.addrType), udl, ud);
    Gsm7BehindHeader(header, codes);
  }

  /** The gateway's own concatenated parts carry a header of six octets, so DecodePDU would not give their septets
      back, unless all are zero. */
  lemma OwnPartsMisread(ref: Octet, total: Octet, part: Octet, codes: seq<Septet>)
    requires total > 0 && exists i :: 0 <= i < |codes| && codes[i] != 0
    ensures var ud := Submit.Header(ref, total, part) + Packed(codes, 1);
            CodesBehind(7 + |codes|, ud) != codes
  {
    hide Packed, CodesBehind;
    Gsm7BehindHeader(Submit.Header(ref, total, part), codes);
    assert FillBits(6) == 1;
  }

  /** UCS2 user data: the length is in octets, the decoder takes it for characters and clamps. The text comes back
      exactly when it is empty or at most one octet follows it in the PDU. */
  lemma Ucs2UserData(smsc: Text, sender: Text, header: seq<Octet>, s: Text, extra: seq<Octet>)
    requires header == [] || header[0] == |header| - 1
    ensures var ud := header + (Ucs2Octets(s) + extra);
            var udl := |header| + |Ucs2Octets(s)|;
            ReadUserData(smsc, sender, header != [], Utf16, udl, ud) == Ok(smsc, sender, Chars(s))
            <==> s == [] || |extra| <= 1
  {
    hide ToUnits, Utf16Decode;
    var n := |Ucs2Octets(s)|;
    var ud := header + (Ucs2Octets(s) + extra);
    assert ud[|header|..] == Ucs2Octets(s) + extra;
    assert header == [] ==> ud == Ucs2Octets(s) + extra;
    UnitCount(s);
    var taken := Min(2 * n, n + |extra|);
    var shown := extra[..taken - n];
    assert (Ucs2Octets(s) + extra)[..taken] == Ucs2Octets(s) + shown;
    TrailingOctets(s, shown);
  }

  /** One letter with two octets behind it is read as two letters. */
  lemma Ucs2Overread(smsc: Text, sender: Text)
    ensures ReadUserData(smsc, sender, false, Utf16, 2, [0x00, 0x41, 0x00, 0x42]) == Ok(smsc, sender, Chars([0x41, 0x42]))
  {
    var ud := [0x00, 0x41, 0x00, 0x42];
    var a: seq<Unit>, b: seq<Unit> := [0x41, 0x42], [0x42];
    assert ud[..4] == ud && ToUnits(ud) == a;
    assert a[1..] == b && b[1..] == [];
    assert Utf16Decode(b) == [0x42] && Utf16Decode(a) == [0x41, 0x42];
  }

  /** Hexadecimal text of any case, with space around it, decodes like the octets it stands for. */
  lemma HexFrame(left: string, t: string, right: string, raw: seq<Octet>)
    requires AllSpace(left) && HexDecode(t) == Some(raw) && AllSpace(right)
    ensures ReadHex(left + t + right) == ReadDeliver(raw)
  {
    hide ReadDeliver, AllSpace, Normalize;
    NormalizeReads(left, t, right);
  }

  /** 8-bit user data comes back as it was laid out, whatever follows it. */
  lemma EightBitUserData(smsc: Text, sender: Text, header: seq<Octet>, data: seq<Octet>, extra: seq<Octet>)
    requires header == [] || header[0] == |header| - 1
    ensures ReadUserData(smsc, sender, header != [], EightBit, |header| + |data|, header + (data + extra))
            == Ok(smsc, sender, Raw(data))
  {
    var ud := header + (data + extra);
    assert ud[|header|..] == data + extra;
    assert header == [] ==> ud == data + extra;
    assert (data + extra)[..|data|] == data;
  }

  /** The user data behind a header, or without one. */
  lemma BehindHeader(smsc: Text, sender: Text, alphabet: Alphabet, header: seq<Octet>, data: seq<Octet>, udl: nat)
    requires header == [] || header[0] == |header| - 1
    ensures ReadUserData(smsc, sender, header != [], alphabet, udl, header + data)
            == Ok(smsc, sender, ReadBody(alphabet, if header == [] then udl else LengthBehind(alphabet, udl, |header|), data))
  {
    hide ReadBody, LengthBehind;
    var ud := header + data;
    assert ud[|header|..] == data;
    assert header == [] ==> ud == data;
  }

  /** When the PDU ends before its length says, what is there is decoded: all octets, all whole units, all whole septets. */
  lemma ShortUserData(smsc: Text, sender: Text, header: seq<Octet>, data: seq<Octet>, udl: nat)
    requires header == [] || header[0] == |header| - 1
    ensures |header| + |data| <= udl ==>
              ReadUserData(smsc, sender, header != [], EightBit, udl, header + data) == Ok(smsc, sender, Raw(data))
    ensures |header| + |data| <= udl ==>
              ReadUserData(smsc, sender, header != [], Utf16, udl, header + data) == Ok(smsc, sender, Chars(Ucs2Text(data)))
    ensures (8 * |header| + 6) / 7 + (8 * |data|) / 7 <= udl ==>
              ReadUserData(smsc, sender, header != [], Gsm7, udl, header + data)
              == Ok(smsc, sender, Chars(DecodeText(UnpackedAt(data, 0, (8 * |data|) / 7))))
  {
    hide ReadUserData, DecodeText, UnpackedAt, Ucs2Text;
    BehindHeader(smsc, sender, EightBit, header, data, udl);
    BehindHeader(smsc, sender, Utf16, header, data, udl);
    BehindHeader(smsc, sender, Gsm7, header, data, udl);
    assert data[..|data|] == data;
    if (8 * |header| + 6) / 7 + (8 * |data|) / 7 <= udl { AllSeptets(header, data, udl); }
  }

  lemma AllSeptets(header: seq<Octet>, data: seq<Octet>, udl: nat)
    requires (8 * |header| + 6) / 7 + (8 * |data|) / 7 <= udl
    ensures var n := if header == [] then udl else LengthBehind(Gsm7, udl, |header|);
            ClampedCount(data, n) == (8 * |data|) / 7
  {
  }

  /** When the header alone takes up the length, the body is empty. */
  lemma HeaderOnly(smsc: Text, sender: Text, alphabet: Alphabet, header: seq<Octet>, data: seq<Octet>, udl: nat)
    requires header == [] || header[0] == |header| - 1
    requires udl <= |header|
    ensures ReadUserData(smsc, sender, header != [], alphabet, udl, header + data)
            == Ok(smsc, sender, if alphabet == EightBit then Raw([]) else Chars([]))
  {
    BehindHeader(smsc, sender, alphabet, header, data, udl);
    assert data[..0] == [];
    NothingDecoded(data);
    hide ReadUserData, DecodeText, UnpackedAt, Ucs2Text;
  }

  lemma NothingDecoded(data: seq<Octet>)
    ensures DecodeText(UnpackedAt(data, 0, 0)) == [] && Ucs2Text([]) == []
  {
    assert UnpackedAt(data, 0, 0) == [] && ToUnits([]) == [];
  }

  // ---- Whole frames in UCS2 and 8-bit ----

  /** The header bit says whether there is a header, which starts with its length. */
  predicate HeaderFits(first: Octet, header: seq<Octet>) {
    && first % 4 == 0 && ((first / 64) % 2 == 1 <==> header != [])
    && (header == [] || header[0] == |header| - 1)
  }

  /** A frame in UCS2 is decoded to its text exactly when the text is empty or at most one octet follows it. */
  lemma Ucs2Frame(c: Centre, first: Octet, oa: Originator, pid: Octet, dcs: Octet, scts: seq<Octet>,
                  header: seq<Octet>, s: Text, extra: seq<Octet>)
    requires CentreFits(c) && |oa.data| == Submit.HalfUp(oa.count) && |scts| == 7
    requires HeaderFits(first, header) && DcsAlphabet(dcs) == Utf16 && |header| + |Ucs2Octets(s)| < 256
    ensures var ud := header + (Ucs2Octets(s) + extra);
            var udl := |header| + |Ucs2Octets(s)|;
            ReadDeliver(Frame(c, first, oa, pid, dcs, scts, udl, ud))
              == Ok(CentreText(c), AddressText(oa.data, oa.count, oa.addrType), Chars(s))
            <==> s == [] || |extra| <= 1
  {
    hide AddressText, CentreText, ReadUserData, ReadDeliver, Frame, DcsAlphabet, Ucs2Octets;
    var ud := header + (Ucs2Octets(s) + extra);
    FrameDecodes(c, first, oa, pid, dcs, scts, |header| + |Ucs2Octets(s)|, ud);
    Ucs2UserData(CentreText(c), AddressText(oa.data, oa.count, oa.addrType), header, s, extra);
  }

  /** A frame with 8-bit data is decoded to its data, whatever follows them. */
  lemma EightBitFrame(c: Centre, first: Octet, oa: Originator, pid: Octet, dcs: Octet, scts: seq<Octet>,
                      header: seq<Octet>, data: seq<Octet>, extra: seq<Octet>)
    requires CentreFits(c) && |oa.data| == Submit.HalfUp(oa.count) && |scts| == 7
    requires HeaderFits(first, header) && DcsAlphabet(dcs) == EightBit && |header| + |data| < 256
    ensures ReadDeliver(Frame(c, first, oa, pid, dcs, scts, |header| + |data|, header + (data + extra)))
            == Ok(CentreText(c), AddressText(oa.data, oa.count, oa.addrType), Raw(data))
  {
    hide AddressText, CentreText, ReadUserData, ReadDeliver, Frame, DcsAlphabet;
    FrameDecodes(c, first, oa, pid, dcs, scts, |header| + |data|, header + (data + extra));
    EightBitUserData(CentreText(c), AddressText(oa.data, oa.count, oa.addrType), header, data, extra);
  }

  // ---- The data coding scheme ----

  /** The alphabet by section 4 of 3GPP TS 23.038: bits 3 and 2 in the general groups 00xx and 01xx, the 7-bit alphabet
      in the reserved groups and the indication groups 1100 and 1101, UCS2 in 1110, bit 2 in 1111. */
  function StandardAlphabet(dcs: Octet): Alphabet {
    var group := dcs / 16;
    if group <= 0x07 then
      (var enc := (dcs / 4) % 4;
       if enc == 1 then EightBit else if enc == 2 then Utf16 else Gsm7)
    else if group == 0x0E then Utf16
    else if group == 0x0F && (dcs / 4) % 2 == 1 then EightBit
    else Gsm7
  }

  /** dcsEncoding follows the standard in the groups 0000, 1100 and 1101; in 1111 with the reserved bit 3 clear; in the groups
      0001 to 0111 for 7-bit text only, in 1110 with bit 2 set only, and in the reserved groups 1000 to 1011 never. */
  lemma AlphabetAgreement(dcs: Octet)
    ensures DcsAlphabet(dcs) == StandardAlphabet(dcs) <==>
            var group, enc := dcs / 16, (dcs / 4) % 4;
            || group in {0x00, 0x0C, 0x0D}
            || (group == 0x0F && enc < 2)
            || (1 <= group <= 7 && (enc == 0 || enc == 3))
            || (group == 0x0E && enc % 2 == 1)
  {
    assert (dcs / 4) % 2 == ((dcs / 4) % 4) % 2;
  }

  /** What dcsEncoding answers, coding by coding: raw octets for two quadruples of codings, UCS2 for these, and 7-bit text
      for all others. */
  lemma AlphabetOf(dcs: Octet)
    ensures DcsAlphabet(dcs) == EightBit <==> 0x04 <= dcs <= 0x07 || 0xF4 <= dcs <= 0xF7
    ensures DcsAlphabet(dcs) == Utf16 <==>
            || 0x08 <= dcs <= 0x0B || 0x80 <= dcs <= 0xBF
            || 0xE4 <= dcs <= 0xE7 || 0xEC <= dcs <= 0xEF || 0xF8 <= dcs <= 0xFB
  {
    var group, low := dcs / 16, dcs % 16;
    assert dcs == 16 * group + low;
    QuarterOf(group, low);
  }

  lemma QuarterOf(group: nat, low: nat)
    requires low < 16
    ensures ((16 * group + low) / 4) % 4 == low / 4 && ((16 * group + low) / 4) % 2 == (low / 4) % 2
  {
    assert (16 * group + low) / 4 == 4 * group + low / 4;
    ModUnique(4 * group + low / 4, 4, group, low / 4);
    ModUnique(4 * group + low / 4, 2, 2 * group + low / 4 / 2, (low / 4) % 2);
  }

  /** A class 0 ("flash") message in UCS2, coding 0x18, is read as 7-bit text. */
  lemma FlashUcs2Misread()
    ensures StandardAlphabet(0x18) == Utf16 && DcsAlphabet(0x18) == Gsm7
  {
  }
}
