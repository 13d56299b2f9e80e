/** The AT serializer as a system of steps: the one goroutine that reads the port and routes its lines, the
    worker that takes unsolicited result codes, and the caller that runs one command at a time. */
module Serializer {
  import opened Options
  import Hex

  const QUEUE_SIZE := 64

  /** A line of the port: its number, counted from the start, and its text. */
  datatype Line = Line(no: nat, text: string)

  predicate HasPrefix(s: string, p: string) { p <= s }

  const URC_PREFIXES: seq<string> := ["+CMTI:", "+RING", "+CLIP:", "+CUSD:", "+CMT:", "+CDSI:", "+CRING:"]

  /** The codes a modem sends unasked: a message has come in, a call, its number, a USSD answer, a message or a delivery
      report delivered directly, an extended ring. */
  predicate IsUrc(text: string) {
    || "+CMTI:" <= text || "+CMT:" <= text || "+CDSI:" <= text
    || "+RING" <= text || "+CRING:" <= text || "+CLIP:" <= text || "+CUSD:" <= text
  }

  /** isURC: the loop over the prefixes. */
  method IsUrcLine(line: string) returns (r: bool)
    ensures r == IsUrc(line)
  {
    for i := 0 to |URC_PREFIXES|
      invariant forall k :: 0 <= k < i ==> !HasPrefix(line, URC_PREFIXES[k])
    {
      if HasPrefix(line, URC_PREFIXES[i]) {
        assert i == 0 || i == 1 || i == 2 || i == 3 || i == 4 || i == 5 || i == 6;
        return true;
      }
    }
    assert !HasPrefix(line, URC_PREFIXES[0]) && !HasPrefix(line, URC_PREFIXES[1]) && !HasPrefix(line, URC_PREFIXES[2])
        && !HasPrefix(line, URC_PREFIXES[3]) && !HasPrefix(line, URC_PREFIXES[4]) && !HasPrefix(line, URC_PREFIXES[5])
        && !HasPrefix(line, URC_PREFIXES[6]);
    return false;
  }

  predicate IsError(text: string) {
    text == "ERROR" || HasPrefix(text, "+CME ERROR:") || HasPrefix(text, "+CMS ERROR:")
  }

  /** The lines that end a command. */
  predicate IsFinal(text: string) { text == "OK" || IsError(text) }

  predicate IsPrompt(text: string) { HasPrefix(text, ">") }

  predicate IsRejection(text: string) { text == "ERROR" || HasPrefix(text, "+CME") }

  /** What Sscanf passes over: white space, but no newline. */
  predicate IsBlank(c: char) { Hex.IsSpace(c) && c != '\n' }

  predicate IsDigit(c: char) { '0' <= c <= '9' }

  /** Sscanf(" %d") on what follows "+CMGS:": white space, a sign, digits; the rest is not looked at. A number that no
      64-bit integer holds is an error. */
  function ParseRef(text: string): Option<int>
    requires HasPrefix(text, "+CMGS:")
  {
    var t := SkipBlanks(text[6..]);
    var n :=
      if t != [] && t[0] == '-' then (match Digits(t[1..], 0, false) case Some(n) => Some(-n) case None => None)
      else if t != [] && t[0] == '+' then Digits(t[1..], 0, false)
      else Digits(t, 0, false);
    if n.Some? && -0x8000_0000_0000_0000 <= n.value < 0x8000_0000_0000_0000 then n else None
  }

  function SkipBlanks(t: string): string {
    if t != [] && IsBlank(t[0]) then SkipBlanks(t[1..]) else t
  }

  function Digits(t: string, n: int, any: bool): Option<int> {
    if t != [] && '0' <= t[0] <= '9' then Digits(t[1..], 10 * n + (t[0] as int - '0' as int), true)
    else if any then Some(n) else None
  }

  // ---- What the reference is ----

  predicate AllBlank(t: string) {
    forall i :: 0 <= i < |t| ==> IsBlank(t[i])
  }

  predicate AllDigits(t: string) {
    forall i :: 0 <= i < |t| ==> IsDigit(t[i])
  }

  predicate StartsWithDigit(t: string) { t != [] && IsDigit(t[0]) }

  /** The number a string of decimal digits stands for. */
  function Value(ds: string): nat
    requires AllDigits(ds)
  {
    if ds == [] then 0 else 10 * Value(ds[..|ds| - 1]) + (ds[|ds| - 1] as int - '0' as int)
  }

  /** A number in decimal. */
  function Decimal(n: nat): (ds: string)
    ensures ds != [] && AllDigits(ds)
  {
    var last := [('0' as int + n % 10) as char];
    if n < 10 then last else Decimal(n / 10) + last
  }

  lemma {:induction false} DecimalValue(n: nat)
    ensures Value(Decimal(n)) == n
  {
    if n >= 10 {
      DecimalValue(n / 10);
      assert Decimal(n)[..|Decimal(n)| - 1] == Decimal(n / 10);
    } else {
      assert Decimal(n)[..0] == [];
    }
  }

  /** The signs a number may have. */
  predicate IsSign(sign: string) { sign == "" || sign == "+" || sign == "-" }

  function Signed(sign: string, n: nat): int {
    if sign == "-" then 0 - (n as int) else n
  }

  predicate FitsInt64(n: int) { -9_223_372_036_854_775_808 <= n <= 9_223_372_036_854_775_807 }

  lemma {:induction false} SkipsBlanks(blanks: string, t: string)
    requires AllBlank(blanks) && (t == [] || !IsBlank(t[0]))
    ensures SkipBlanks(blanks + t) == t
  {
    hide IsBlank;
    if blanks == [] {
      assert blanks + t == t;
    } else {
      SkipsBlanks(blanks[1..], t);
      assert (blanks + t)[1..] == blanks[1..] + t;
    }
  }

  lemma {:induction false} ReadsDigits(ds: string, rest: string, any: bool)
    requires AllDigits(ds)
    ensures Digits(ds + rest, 0, any) == Digits(rest, Value(ds), any || ds != [])
    decreases |ds|
  {
    if ds == [] {
      assert ds + rest == rest;
    } else {
      var front, last := ds[..|ds| - 1], ds[|ds| - 1..];
      ReadsDigits(front, last + rest, any);
      assert ds + rest == front + (last + rest) && (last + rest)[1..] == rest;
    }
  }

  lemma DigitNotBlank(c: char)
    ensures IsDigit(c) || c == '+' || c == '-' ==> !IsBlank(c)
  {
  }

  /** The reference read from a +CMGS line: behind any white space and an optional sign, the number its digits stand for, or
      nothing when there is no digit or the number does not fit. Every line has this form (Parts). */
  lemma ReferenceRead(blanks: string, sign: string, ds: string, rest: string)
    requires AllBlank(blanks) && IsSign(sign) && AllDigits(ds) && !StartsWithDigit(rest)
    requires sign == "" && ds == "" && rest != [] ==> !IsBlank(rest[0]) && rest[0] != '+' && rest[0] != '-'
    ensures var n := Signed(sign, Value(ds));
            ParseRef("+CMGS:" + (blanks + (sign + (ds + rest)))) == if ds != "" && FitsInt64(n) then Some(n) else None
  {
    hide IsBlank, SkipBlanks, Value;
    var t := sign + (ds + rest);
    var text := "+CMGS:" + (blanks + t);
    assert text[6..] == blanks + t;
    if t != [] { DigitNotBlank(t[0]); }
    SkipsBlanks(blanks, t);
    ReadsDigits(ds, rest, false);
    if sign == "" { assert t == ds + rest; } else { assert t[1..] == ds + rest; }
    hide Digits;
    assert Digits(ds + rest, 0, false) == if ds == "" then None else Some(Value(ds)) by { EndsHere(rest, Value(ds), ds != []); }
  }

  lemma EndsHere(rest: string, n: int, any: bool)
    requires !StartsWithDigit(rest)
    ensures Digits(rest, n, any) == if any then Some(n) else None
  {
  }

  lemma {:induction false} Blanks(t: string) returns (blanks: string, rest: string)
    ensures t == blanks + rest && AllBlank(blanks) && (rest == [] || !IsBlank(rest[0]))
  {
    if t == [] || !IsBlank(t[0]) {
      blanks, rest := [], t;
    } else {
      blanks, rest := Blanks(t[1..]);
      blanks := [t[0]] + blanks;
    }
  }

  lemma {:induction false} LeadingDigits(t: string) returns (ds: string, rest: string)
    ensures t == ds + rest && AllDigits(ds) && !StartsWithDigit(rest)
  {
    if !StartsWithDigit(t) {
      ds, rest := [], t;
    } else {
      ds, rest := LeadingDigits(t[1..]);
      ds := [t[0]] + ds;
    }
  }

  /** Every +CMGS line has the parts that ReferenceRead speaks of. */
  lemma Parts(text: string) returns (blanks: string, sign: string, ds: string, rest: string)
    requires HasPrefix(text, "+CMGS:")
    ensures text == "+CMGS:" + (blanks + (sign + (ds + rest)))
    ensures AllBlank(blanks) && IsSign(sign) && AllDigits(ds) && !StartsWithDigit(rest)
    ensures sign == "" && ds == "" && rest != [] ==> !IsBlank(rest[0]) && rest[0] != '+' && rest[0] != '-'
  {
    hide IsBlank;
    var t: string;
    blanks, t := Blanks(text[6..]);
    sign := if t != [] && (t[0] == '+' || t[0] == '-') then t[..1] else "";
    ds, rest := LeadingDigits(t[|sign|..]);
    assert t == sign + t[|sign|..];
    assert text == "+CMGS:" + text[6..];
  }

  /** So a reference the modem prints in decimal is the reference read, whatever follows it. */
  lemma PrintedReference(blanks: string, n: nat, rest: string)
    requires AllBlank(blanks) && n <= 9_223_372_036_854_775_807 && !StartsWithDigit(rest)
    ensures ParseRef("+CMGS:" + (blanks + (Decimal(n) + rest))) == Some(n)
  {
    hide ParseRef, AllBlank;
    DecimalValue(n);
    ReferenceRead(blanks, "", Decimal(n), rest);
    assert "" + (Decimal(n) + rest) == Decimal(n) + rest;
  }

  // ---- One command ----

  datatype Result =
    | Response(lines: seq<string>)
    | Sent(ref: int)
    | AtError(lines: seq<string>, raw: string)
    | SendError(raw: string)
    | Rejected(raw: string)
    | BadReference
    | GaveUp(cause: Cause, stage: Stage)

  datatype Cause = TimedOut | ClosedPort | WriteFailed

  /** Where the caller stands: in Execute, or in one of the two phases of ExecuteSend. `prompt` is the number of
      lines received before the prompt. */
  datatype Stage =
    | Collecting(lines: seq<string>)
    | AwaitPrompt
    | AwaitFinal(prompt: nat, ref: int)

  datatype Mode = Running(stage: Stage) | Done(result: Result)

  /** The select case for a line in Execute and ExecuteSend; `before` is the number of lines received so far. */
  function OnLine(stage: Stage, text: string, before: nat): Mode {
    match stage
    case Collecting(lines) =>
      if text == "OK" then Done(Response(lines))
      else if text == "ERROR" then Done(AtError(lines, text))
      else if HasPrefix(text, "+CME ERROR:") then Done(AtError(lines, text))
      else if HasPrefix(text, "+CMS ERROR:") then Done(AtError(lines, text))
      else Running(Collecting(lines + [text]))
    case AwaitPrompt =>
      if HasPrefix(text, ">") then Running(AwaitFinal(before, 0))
      else if text == "ERROR" || HasPrefix(text, "+CME") then Done(Rejected(text))
      else Running(AwaitPrompt)
    case AwaitFinal(prompt, ref) =>
      if HasPrefix(text, "+CMGS:") then
        (match ParseRef(text)
         case Some(n) => Running(AwaitFinal(prompt, n))
         case None => Done(BadReference))
      else if text == "OK" then Done(Sent(ref))
      else if text == "ERROR" then Done(SendError(text))
      else if HasPrefix(text, "+CME ERROR:") then Done(SendError(text))
      else if HasPrefix(text, "+CMS ERROR:") then Done(SendError(text))
      else Running(stage)
  }

  /** A command: its channel, the lines the reader had for it, those that went into the channel and those the
      caller took out; and how many lines the reader had looked at when the command became pending and when it ceased
      to be. */
  datatype Command = Command(
    mode: Mode,
    queue: seq<Line>,
    offered: seq<Line>,
    routed: seq<Line>,
    taken: seq<Line>,
    dropped: nat,
    from: nat,
    until: nat)

  /** The reader between its steps: a line it has not classified against a command yet, a line with the command that
      was pending when it looked, or a code that did not fit its channel. */
  datatype Reader = Ready | Holding(line: Line) | Aimed(line: Line, at: Option<nat>) | UrcFull(line: Line) | UrcRetry(line: Line)

  datatype State = State(
    reader: Reader,
    seen: seq<string>,
    urcs: seq<Line>,
    urcsSent: seq<Line>,
    urcsGone: seq<Line>,
    urcsLost: seq<Line>,
    commands: seq<Command>,
    running: Option<nat>,
    closed: bool,
    owners: map<nat, nat>)    // which command a line was offered to

  const INITIAL := State(Ready, [], [], [], [], [], [], None, false, map[])

  datatype Step =
    | Scan(text: string)
    | LookAtPending
    | Route
    | UrcDropOldest
    | UrcSendAgain
    | TakeUrc
    | PortEnds
    | BeginExecute
    | BeginSend
    | Receive
    | GiveUp(cause: Cause)
    | Retire

  predicate Enabled(s: State, a: Step) {
    match a
    case Scan(text) => s.reader.Ready? && !s.closed && text != ""
    case LookAtPending => s.reader.Holding?
    case Route => s.reader.Aimed? && (s.reader.at.Some? ==> s.reader.at.value < |s.commands|)
    case UrcDropOldest => s.reader.UrcFull?
    case UrcSendAgain => s.reader.UrcRetry?
    case TakeUrc => s.urcs != []
    case PortEnds => s.reader.Ready? && !s.closed
    case BeginExecute => s.running.None? && !s.closed
    case BeginSend => s.running.None? && !s.closed
    case Receive => Runs(s) && Current(s).mode.Running? && Current(s).queue != []
    case GiveUp(cause) => Runs(s) && Current(s).mode.Running? && (cause == ClosedPort ==> s.closed)
    case Retire => Runs(s) && Current(s).mode.Done?
  }

  predicate Runs(s: State) { s.running.Some? && s.running.value < |s.commands| }

  function Current(s: State): Command
    requires Runs(s)
  {
    s.commands[s.running.value]
  }

  function SendUrc(s: State, l: Line): State {
    s.(urcs := s.urcs + [l], urcsSent := s.urcsSent + [l], reader := Ready)
  }

  /** `case p.linesCh <- line: default:`. */
  function Offer(c: Command, l: Line): Command {
    if |c.queue| < QUEUE_SIZE then c.(queue := c.queue + [l], offered := c.offered + [l], routed := c.routed + [l])
    else c.(offered := c.offered + [l], dropped := c.dropped + 1)
  }

  function TakeLine(c: Command): Command
    requires c.queue != [] && c.mode.Running?
  {
    var l := c.queue[0];
    c.(queue := c.queue[1..], taken := c.taken + [l], mode := OnLine(c.mode.stage, l.text, |c.taken|))
  }

  function Fresh(stage: Stage, from: nat): Command {
    Command(Running(stage), [], [], [], [], 0, from, from)
  }

  /** How many lines the reader has looked at: all but one that it holds. */
  function Looked(s: State): nat {
    if s.reader.Holding? && s.seen != [] then |s.seen| - 1 else |s.seen|
  }

  function Apply(s: State, a: Step): State
    requires Enabled(s, a)
  {
    match a
    case Scan(text) =>
      var l := Line(|s.seen|, text);
      var s1 := s.(seen := s.seen + [text]);
      if !IsUrc(text) then s1.(reader := Holding(l))
      else if |s.urcs| < QUEUE_SIZE then SendUrc(s1, l)
      else s1.(reader := UrcFull(l))
    case LookAtPending => s.(reader := Aimed(s.reader.line, s.running))
    case Route =>
      (match s.reader.at
       case None => s.(reader := Ready)
       case Some(i) => s.(reader := Ready, commands := s.commands[i := Offer(s.commands[i], s.reader.line)],
                          owners := s.owners[s.reader.line.no := i]))
    case UrcDropOldest =>
      if s.urcs == [] then s.(reader := UrcRetry(s.reader.line))
      else s.(urcs := s.urcs[1..], urcsGone := s.urcsGone + [s.urcs[0]], reader := UrcRetry(s.reader.line))
    case UrcSendAgain =>
      if |s.urcs| < QUEUE_SIZE then SendUrc(s, s.reader.line)
      else s.(urcsLost := s.urcsLost + [s.reader.line], reader := Ready)
    case TakeUrc => s.(urcs := s.urcs[1..], urcsGone := s.urcsGone + [s.urcs[0]])
    case PortEnds => s.(closed := true)
    case BeginExecute => s.(commands := s.commands + [Fresh(Collecting([]), Looked(s))], running := Some(|s.commands|))
    case BeginSend => s.(commands := s.commands + [Fresh(AwaitPrompt, Looked(s))], running := Some(|s.commands|))
    case Receive => s.(commands := s.commands[s.running.value := TakeLine(Current(s))])
    case GiveUp(cause) =>
      var c := Current(s);
      s.(commands := s.commands[s.running.value := c.(mode := Done(GaveUp(cause, c.mode.stage)))])
    case Retire => s.(running := None, commands := s.commands[s.running.value := Current(s).(until := Looked(s))])
  }

  predicate IsRun(s: State, steps: seq<Step>)
    decreases |steps|
  {
    steps == [] || (Enabled(s, steps[0]) && IsRun(Apply(s, steps[0]), steps[1..]))
  }

  function After(s: State, steps: seq<Step>): State
    requires IsRun(s, steps)
    decreases |steps|
  {
    if steps == [] then s else After(Apply(s, steps[0]), steps[1..])
  }

  // ---- What a mode says about the lines received ----

  function Texts(lines: seq<Line>): (t: seq<string>)
    ensures |t| == |lines|
  {
    seq(|lines|, i requires 0 <= i < |lines| => lines[i].text)
  }

  predicate NoneFinal(t: seq<string>) {
    forall i :: 0 <= i < |t| ==> !IsFinal(t[i])
  }

  predicate NoPrompt(t: seq<string>) {
    forall i :: 0 <= i < |t| ==> !IsPrompt(t[i]) && !IsRejection(t[i])
  }

  /** The lines of ExecuteSend while it waits for the final result: others, the prompt, others. */
  predicate Prompted(t: seq<string>, prompt: nat) {
    && prompt < |t| && NoPrompt(t[..prompt]) && IsPrompt(t[prompt])
    && forall i :: prompt < i < |t| ==> !IsFinal(t[i])
  }

  /** The reference of the last +CMGS line behind the prompt, 0 without one. */
  function LastRef(t: seq<string>, prompt: nat): int {
    if |t| <= prompt + 1 then 0
    else
      var last := t[|t| - 1];
      if HasPrefix(last, "+CMGS:") && ParseRef(last).Some? then ParseRef(last).value else LastRef(t[..|t| - 1], prompt)
  }

  /** What each outcome means, in terms of the lines the caller took from its channel. */
  ghost predicate ModeOk(mode: Mode, t: seq<string>) {
    match mode
    case Running(stage) => StageOk(stage, t)
    case Done(r) => ResultOk(r, t)
  }

  predicate StageOk(stage: Stage, t: seq<string>) {
    match stage
    case Collecting(lines) => t == lines && NoneFinal(lines)
    case AwaitPrompt => NoPrompt(t)
    case AwaitFinal(prompt, ref) => Prompted(t, prompt) && ref == LastRef(t, prompt)
  }

  ghost predicate ResultOk(r: Result, t: seq<string>) {
    match r
    case Response(lines) => t == lines + ["OK"] && NoneFinal(lines)
    case Sent(ref) => |t| > 0 && t[|t| - 1] == "OK" && IsSent(t[..|t| - 1], ref)
    case AtError(lines, raw) => t == lines + [raw] && NoneFinal(lines) && IsError(raw)
    case SendError(raw) => |t| > 0 && t[|t| - 1] == raw && IsError(raw) && IsPrompted(t[..|t| - 1])
    case Rejected(raw) => |t| > 0 && t[|t| - 1] == raw && IsRejection(raw) && NoPrompt(t[..|t| - 1])
    case BadReference =>
      && |t| > 0 && HasPrefix(t[|t| - 1], "+CMGS:") && ParseRef(t[|t| - 1]).None? && IsPrompted(t[..|t| - 1])
    case GaveUp(_, stage) => StageOk(stage, t)
  }

  ghost predicate IsPrompted(t: seq<string>) {
    exists prompt: nat :: Prompted(t, prompt)
  }

  ghost predicate IsSent(t: seq<string>, ref: int) {
    exists prompt: nat :: SentAs(t, prompt, ref)
  }

  ghost predicate SentAs(t: seq<string>, prompt: nat, ref: int) {
    Prompted(t, prompt) && ref == LastRef(t, prompt)
  }

  lemma CmgsNotFinal(text: string)
    requires HasPrefix(text, "+CMGS:")
    ensures !IsFinal(text)
  {
    assert text[..6] == "+CMGS:" && text[3] == 'G';
    assert "+CME ERROR:"[3] == 'E' && "+CMS ERROR:"[3] == 'S';
  }

  lemma LineKeepsModeOk(stage: Stage, t: seq<string>, text: string)
    requires StageOk(stage, t)
    ensures ModeOk(OnLine(stage, text, |t|), t + [text])
  {
    var t' := t + [text];
    assert t'[..|t|] == t;
    match stage
    case Collecting(lines) =>
    case AwaitPrompt =>
      if IsPrompt(text) { assert Prompted(t', |t|); }
    case AwaitFinal(prompt, ref) =>
      hide ParseRef, IsPrompt, IsRejection, HasPrefix;
      assert t'[..prompt] == t[..prompt];
      if HasPrefix(text, "+CMGS:") {
        CmgsNotFinal(text);
        assert Prompted(t'[..|t|], prompt);
      } else if text == "OK" {
        assert SentAs(t'[..|t|], prompt, ref);
      } else if IsError(text) {
        assert Prompted(t'[..|t|], prompt);
      }
  }

  // ---- What every run keeps ----

  /** A line carries its number and text in the input. */
  predicate Numbered(seen: seq<string>, l: Line) {
    l.no < |seen| && seen[l.no] == l.text
  }

  /** Channels are queues, and lines not dropped are all there. */
  ghost predicate QueueOk(c: Command) {
    && c.routed == c.taken + c.queue && |c.queue| <= QUEUE_SIZE
    && (c.dropped == 0 ==> c.routed == c.offered)
    && (forall l :: l in c.routed ==> l in c.offered)
  }

  /** What a command is offered are result lines of its own, in the order of the input. */
  ghost predicate OffersOk(seen: seq<string>, owners: map<nat, nat>, c: Command, i: nat) {
    && (forall k :: 0 <= k < |c.offered| ==>
          && Numbered(seen, c.offered[k]) && !IsUrc(c.offered[k].text)
          && c.offered[k].no in owners && owners[c.offered[k].no] == i)
    && (forall k :: 0 < k < |c.offered| ==> c.offered[k - 1].no < c.offered[k].no)
  }

  ghost predicate CommandOk(s: State, i: nat)
    requires i < |s.commands|
  {
    var c := s.commands[i];
    QueueOk(c) && OffersOk(s.seen, s.owners, c, i) && ModeOk(c.mode, Texts(c.taken))
  }

  ghost predicate CommandsOk(s: State) {
    forall i: nat :: i < |s.commands| ==> CommandOk(s, i)
  }

  ghost predicate ReaderOk(s: State) {
    && (!s.reader.Ready? ==> s.seen != [] && s.reader.line == Line(|s.seen| - 1, s.seen[|s.seen| - 1]))
    && (s.reader.Holding? || s.reader.Aimed? ==> !IsUrc(s.reader.line.text))
    && (s.reader.Aimed? && s.reader.at.Some? ==> s.reader.at.value < |s.commands|)
    && (s.running.Some? ==> s.running.value < |s.commands|)
    && (forall n :: n in s.owners ==> n < if s.reader.Ready? then |s.seen| else |s.seen| - 1)
  }

  /** The lines numbered `lo` to `hi - 1` that are not unsolicited codes. */
  function ResultLines(seen: seq<string>, lo: nat, hi: nat): seq<Line>
    requires lo <= hi <= |seen|
  {
    if lo == hi then []
    else ResultLines(seen, lo, hi - 1) + if IsUrc(seen[hi - 1]) then [] else [Line(hi - 1, seen[hi - 1])]
  }

  /** The end of the stretch of input that a command gets. */
  function Until(s: State, i: nat): nat
    requires i < |s.commands|
  {
    if s.running == Some(i) then Looked(s) else s.commands[i].until
  }

  /** The line the reader has in hand for a command. */
  function InHand(r: Reader, i: nat): seq<Line> {
    if r.Aimed? && r.at == Some(i) then [r.line] else []
  }

  /** A command is offered exactly the result lines that the reader looked at while it was pending. */
  ghost predicate StretchOk(s: State, i: nat)
    requires i < |s.commands|
  {
    var c := s.commands[i];
    && c.from <= Until(s, i) <= Looked(s)
    && c.offered + InHand(s.reader, i) == ResultLines(s.seen, c.from, Until(s, i))
  }

  ghost predicate StretchesOk(s: State) {
    forall i: nat :: i < |s.commands| ==> StretchOk(s, i)
  }

  function UrcLines(seen: seq<string>): seq<Line> {
    if seen == [] then []
    else UrcLines(seen[..|seen| - 1]) +
         if IsUrc(seen[|seen| - 1]) then [Line(|seen| - 1, seen[|seen| - 1])] else []
  }

  function UrcHeld(r: Reader): seq<Line> {
    if r.UrcFull? || r.UrcRetry? then [r.line] else []
  }

  /** Every code read has been sent or is being sent; none was lost after the oldest made room for it. */
  ghost predicate UrcsOk(s: State) {
    && |s.urcs| <= QUEUE_SIZE
    && s.urcsGone + s.urcs == s.urcsSent
    && s.urcsLost == []
    && (s.reader.UrcRetry? ==> |s.urcs| < QUEUE_SIZE)
    && UrcLines(s.seen) == s.urcsSent + UrcHeld(s.reader)
  }

  ghost predicate Inv(s: State) {
    CommandsOk(s) && ReaderOk(s) && UrcsOk(s) && StretchesOk(s)
  }

  // ---- Steps ----

  lemma OfferKeepsQueue(c: Command, l: Line)
    requires QueueOk(c)
    ensures QueueOk(Offer(c, l))
  {
    assert c.taken + (c.queue + [l]) == (c.taken + c.queue) + [l];
  }

  lemma TakeKeepsQueue(c: Command)
    requires QueueOk(c) && c.queue != [] && c.mode.Running?
    ensures QueueOk(TakeLine(c))
  {
    assert c.queue == [c.queue[0]] + c.queue[1..];
    assert (c.taken + [c.queue[0]]) + c.queue[1..] == c.taken + c.queue;
  }

  lemma TakeKeepsMode(c: Command)
    requires c.queue != [] && c.mode.Running? && StageOk(c.mode.stage, Texts(c.taken))
    ensures ModeOk(TakeLine(c).mode, Texts(TakeLine(c).taken))
  {
    hide ModeOk, StageOk, OnLine;
    var l := c.queue[0];
    LineKeepsModeOk(c.mode.stage, Texts(c.taken), l.text);
    assert Texts(c.taken + [l]) == Texts(c.taken) + [l.text];
  }

  lemma OfferKeepsOffers(seen: seq<string>, owners: map<nat, nat>, c: Command, i: nat, l: Line)
    requires OffersOk(seen, owners, c, i) && Numbered(seen, l) && !IsUrc(l.text) && l.no == |seen| - 1
    requires forall n :: n in owners ==> n < l.no
    ensures OffersOk(seen, owners[l.no := i], Offer(c, l), i)
  {
  }

  lemma OffersStay(seen: seq<string>, seen': seq<string>, owners: map<nat, nat>, c: Command, i: nat, n: nat, j: nat)
    requires OffersOk(seen, owners, c, i) && seen <= seen'
    ensures OffersOk(seen', owners, c, i)
    ensures n !in owners ==> OffersOk(seen, owners[n := j], c, i)
  {
  }

  lemma RouteKeepsCommands(s: State)
    requires CommandsOk(s) && ReaderOk(s) && Enabled(s, Route)
    ensures CommandsOk(Apply(s, Route))
  {
    var s' := Apply(s, Route);
    var l := s.reader.line;
    forall i: nat | i < |s'.commands| ensures CommandOk(s', i) {
      assert CommandOk(s, i);
      hide QueueOk, OffersOk, ModeOk, IsUrc;
      if s.reader.at == Some(i) {
        OfferKeepsQueue(s.commands[i], l);
        OfferKeepsOffers(s.seen, s.owners, s.commands[i], i, l);
      } else if s.reader.at.Some? {
        OffersStay(s.seen, s.seen, s.owners, s.commands[i], i, l.no, s.reader.at.value);
      }
    }
  }

  lemma ReceiveKeepsCommands(s: State)
    requires CommandsOk(s) && Enabled(s, Receive)
    ensures CommandsOk(Apply(s, Receive))
  {
    var s' := Apply(s, Receive);
    forall i: nat | i < |s'.commands| ensures CommandOk(s', i) {
      assert CommandOk(s, i);
      hide QueueOk, ModeOk, OnLine, IsUrc;
      if s.running == Some(i) {
        TakeKeepsQueue(s.commands[i]);
        TakeKeepsMode(s.commands[i]);
      }
    }
  }

  lemma BeginKeepsCommands(s: State, a: Step)
    requires CommandsOk(s) && Enabled(s, a) && (a.BeginExecute? || a.BeginSend?)
    ensures CommandsOk(Apply(s, a))
  {
    var s' := Apply(s, a);
    forall i: nat | i < |s'.commands| ensures CommandOk(s', i) {
      if i < |s.commands| { assert CommandOk(s, i); }
    }
  }

  lemma GiveUpKeepsCommands(s: State, a: Step)
    requires CommandsOk(s) && Enabled(s, a) && (a.GiveUp? || a.Retire?)
    ensures CommandsOk(Apply(s, a))
  {
    var s' := Apply(s, a);
    forall i: nat | i < |s'.commands| ensures CommandOk(s', i) {
      assert CommandOk(s, i);
      hide StageOk;
    }
  }

  lemma OthersKeepCommands(s: State, a: Step)
    requires CommandsOk(s) && Enabled(s, a)
    requires !a.Route? && !a.Receive? && !a.BeginExecute? && !a.BeginSend? && !a.GiveUp? && !a.Retire?
    ensures CommandsOk(Apply(s, a))
  {
    var s' := Apply(s, a);
    assert s.seen <= s'.seen && s'.commands == s.commands && s'.owners == s.owners;
    forall i: nat | i < |s'.commands| ensures CommandOk(s', i) {
      assert CommandOk(s, i);
      hide Apply, Enabled, QueueOk, OffersOk, ModeOk, IsUrc;
      OffersStay(s.seen, s'.seen, s.owners, s.commands[i], i, 0, 0);
    }
  }

  lemma StepKeepsCommands(s: State, a: Step)
    requires CommandsOk(s) && ReaderOk(s) && Enabled(s, a)
    ensures CommandsOk(Apply(s, a))
  {
    hide Apply, CommandsOk;
    if a.Route? {
      RouteKeepsCommands(s);
    } else if a.Receive? {
      ReceiveKeepsCommands(s);
    } else if a.BeginExecute? || a.BeginSend? {
      BeginKeepsCommands(s, a);
    } else if a.GiveUp? || a.Retire? {
      GiveUpKeepsCommands(s, a);
    } else {
      OthersKeepCommands(s, a);
    }
  }

  lemma StepKeepsReader(s: State, a: Step)
    requires ReaderOk(s) && Enabled(s, a)
    ensures ReaderOk(Apply(s, a))
  {
    hide IsUrc;
  }

  lemma {:induction false} ResultLinesStay(seen: seq<string>, seen': seq<string>, lo: nat, hi: nat)
    requires lo <= hi <= |seen| && seen <= seen'
    ensures ResultLines(seen', lo, hi) == ResultLines(seen, lo, hi)
    decreases hi
  {
    hide IsUrc;
    if lo < hi { ResultLinesStay(seen, seen', lo, hi - 1); }
  }

  lemma ScanKeepsStretch(s: State, a: Step, i: nat)
    requires a.Scan? && Enabled(s, a) && i < |s.commands| && StretchOk(s, i)
    ensures StretchOk(Apply(s, a), i)
  {
    hide IsUrc;
    ResultLinesStay(s.seen, s.seen + [a.text], s.commands[i].from, Until(s, i));
  }

  lemma LookKeepsStretch(s: State, i: nat)
    requires ReaderOk(s) && Enabled(s, LookAtPending) && i < |s.commands| && StretchOk(s, i)
    ensures StretchOk(Apply(s, LookAtPending), i)
  {
    hide IsUrc;
  }

  lemma RouteKeepsStretch(s: State, i: nat)
    requires Enabled(s, Route) && i < |s.commands| && StretchOk(s, i)
    ensures StretchOk(Apply(s, Route), i)
  {
    hide ResultLines;
  }

  lemma BeginKeepsStretch(s: State, a: Step, i: nat)
    requires ReaderOk(s) && (a.BeginExecute? || a.BeginSend?) && Enabled(s, a) && i <= |s.commands|
    requires i < |s.commands| ==> StretchOk(s, i)
    ensures StretchOk(Apply(s, a), i)
  {
    hide IsUrc;
  }

  lemma OthersKeepStretch(s: State, a: Step, i: nat)
    requires !a.Scan? && !a.LookAtPending? && !a.Route? && !a.BeginExecute? && !a.BeginSend?
    requires Enabled(s, a) && i < |s.commands| && StretchOk(s, i)
    ensures StretchOk(Apply(s, a), i)
  {
    hide IsUrc, ResultLines, OnLine;
  }

  lemma StepKeepsStretches(s: State, a: Step)
    requires StretchesOk(s) && ReaderOk(s) && Enabled(s, a)
    ensures StretchesOk(Apply(s, a))
  {
    var s' := Apply(s, a);
    assert |s'.commands| == |s.commands| + if a.BeginExecute? || a.BeginSend? then 1 else 0;
    hide Apply, StretchOk, IsUrc;
    forall i: nat | i < |s'.commands| ensures StretchOk(s', i) {
      if a.Scan? {
        ScanKeepsStretch(s, a, i);
      } else if a.LookAtPending? {
        LookKeepsStretch(s, i);
      } else if a.Route? {
        RouteKeepsStretch(s, i);
      } else if a.BeginExecute? || a.BeginSend? {
        BeginKeepsStretch(s, a, i);
      } else {
        OthersKeepStretch(s, a, i);
      }
    }
  }

  lemma UrcLinesGrow(seen: seq<string>, text: string)
    ensures UrcLines(seen + [text]) == UrcLines(seen) + if IsUrc(text) then [Line(|seen|, text)] else []
  {
    hide IsUrc;
    assert (seen + [text])[..|seen|] == seen;
  }

  lemma OldestGone(gone: seq<Line>, urcs: seq<Line>)
    requires urcs != []
    ensures (gone + [urcs[0]]) + urcs[1..] == gone + urcs
  {
    assert urcs == [urcs[0]] + urcs[1..];
  }

  lemma UrcStepKeepsUrcs(s: State, a: Step)
    requires UrcsOk(s) && Enabled(s, a) && (a.UrcDropOldest? || a.UrcSendAgain? || a.TakeUrc?)
    ensures UrcsOk(Apply(s, a))
  {
    hide IsUrc, UrcLines;
    if !a.UrcSendAgain? && s.urcs != [] { OldestGone(s.urcsGone, s.urcs); }
  }

  lemma ScanKeepsUrcs(s: State, a: Step)
    requires UrcsOk(s) && Enabled(s, a) && a.Scan?
    ensures UrcsOk(Apply(s, a))
  {
    hide IsUrc, UrcLines;
    UrcLinesGrow(s.seen, a.text);
  }

  lemma StepKeepsUrcs(s: State, a: Step)
    requires UrcsOk(s) && Enabled(s, a)
    ensures UrcsOk(Apply(s, a))
  {
    hide IsUrc, UrcLines;
    if a.UrcDropOldest? || a.UrcSendAgain? || a.TakeUrc? {
      UrcStepKeepsUrcs(s, a);
    } else if a.Scan? {
      ScanKeepsUrcs(s, a);
    } else {
      var s' := Apply(s, a);
      assert s'.urcs == s.urcs && s'.urcsGone == s.urcsGone && s'.urcsSent == s.urcsSent && s'.urcsLost == s.urcsLost;
      assert s'.seen == s.seen && UrcHeld(s'.reader) == UrcHeld(s.reader);
    }
  }

  lemma StepKeepsInv(s: State, a: Step)
    requires Inv(s) && Enabled(s, a)
    ensures Inv(Apply(s, a))
  {
    hide Apply, Enabled, CommandsOk, ReaderOk, UrcsOk, StretchesOk;
    StepKeepsStretches(s, a);
    StepKeepsCommands(s, a);
    StepKeepsReader(s, a);
    StepKeepsUrcs(s, a);
  }

  lemma {:induction false} RunKeepsInv(s: State, steps: seq<Step>)
    requires Inv(s) && IsRun(s, steps)
    ensures Inv(After(s, steps))
    decreases |steps|
  {
    if steps != [] {
      hide Apply, Enabled, Inv;
      StepKeepsInv(s, steps[0]);
      RunKeepsInv(Apply(s, steps[0]), steps[1..]);
    }
  }

  lemma Reachable(steps: seq<Step>)
    requires IsRun(INITIAL, steps)
    ensures Inv(After(INITIAL, steps))
  {
    assert Inv(INITIAL);
    RunKeepsInv(INITIAL, steps);
  }

  // ---- Theorems ----

  /** A run in which a command begins and whatever goes on after it. */
  ghost predicate IsCommandRun(before: seq<Step>, begin: Step, rest: seq<Step>) {
    && (begin.BeginExecute? || begin.BeginSend?)
    && IsRun(INITIAL, before) && Enabled(After(INITIAL, before), begin)
    && IsRun(Apply(After(INITIAL, before), begin), rest)
  }

  ghost function Begun(before: seq<Step>, begin: Step, rest: seq<Step>): State
    requires IsCommandRun(before, begin, rest)
  {
    Apply(After(INITIAL, before), begin)
  }

  ghost function Ended(before: seq<Step>, begin: Step, rest: seq<Step>): State
    requires IsCommandRun(before, begin, rest)
  {
    After(Begun(before, begin, rest), rest)
  }

  /** Where Execute can stand, and what it can return; ExecuteSend has the rest. */
  predicate OfExecute(mode: Mode) {
    match mode
    case Running(stage) => stage.Collecting?
    case Done(r) => r.Response? || r.AtError? || (r.GaveUp? && r.stage.Collecting?)
  }

  lemma LineKeepsKind(stage: Stage, text: string, before: nat)
    ensures OfExecute(OnLine(stage, text, before)) <==> stage.Collecting?
  {
    hide ParseRef, HasPrefix;
  }

  lemma BeginMarks(s: State, a: Step)
    requires Enabled(s, a) && (a.BeginExecute? || a.BeginSend?)
    ensures var s' := Apply(s, a);
            && |s'.commands| == |s.commands| + 1
            && var c := s'.commands[|s.commands|];
            c.from == Looked(s) && c.dropped == 0 && (OfExecute(c.mode) <==> a.BeginExecute?)
  {
  }

  predicate SameMarks(c: Command, d: Command) {
    d.from == c.from && (OfExecute(d.mode) <==> OfExecute(c.mode))
  }

  lemma StepKeepsMark(s: State, a: Step, i: nat)
    requires Enabled(s, a) && i < |s.commands|
    ensures i < |Apply(s, a).commands| && SameMarks(s.commands[i], Apply(s, a).commands[i])
  {
    hide OnLine, IsUrc;
    if a.Receive? {
      var c := Current(s);
      LineKeepsKind(c.mode.stage, c.queue[0].text, |c.taken|);
    }
  }

  lemma {:induction false} RunKeepsMark(s: State, steps: seq<Step>, i: nat)
    requires IsRun(s, steps) && i < |s.commands|
    ensures i < |After(s, steps).commands| && SameMarks(s.commands[i], After(s, steps).commands[i])
    decreases |steps|
  {
    if steps != [] {
      hide Apply, Enabled, OfExecute;
      StepKeepsMark(s, steps[0], i);
      RunKeepsMark(Apply(s, steps[0]), steps[1..], i);
    }
  }

  /** The state a command run ends in, and the line number its command started from. */
  lemma CommandRun(before: seq<Step>, begin: Step, rest: seq<Step>)
    requires IsCommandRun(before, begin, rest)
    ensures var i := |After(INITIAL, before).commands|;
            var s := Ended(before, begin, rest);
            && Inv(s) && i < |s.commands| && s.commands[i].from == Looked(After(INITIAL, before))
            && (OfExecute(s.commands[i].mode) <==> begin.BeginExecute?)
  {
    hide IsRun, After, Inv, Apply, Enabled, OfExecute;
    var s0 := After(INITIAL, before);
    Reachable(before);
    StepKeepsInv(s0, begin);
    BeginMarks(s0, begin);
    RunKeepsInv(Begun(before, begin, rest), rest);
    RunKeepsMark(Begun(before, begin, rest), rest, |s0.commands|);
  }

  lemma {:induction false} ResultLinesPrefix(seen: seq<string>, lo: nat, mid: nat, hi: nat)
    requires lo <= mid <= hi <= |seen|
    ensures ResultLines(seen, lo, mid) <= ResultLines(seen, lo, hi)
    decreases hi
  {
    hide IsUrc;
    if mid < hi { ResultLinesPrefix(seen, lo, mid, hi - 1); }
  }

  /** What the reader has for a command is exactly the input: every line that is no unsolicited code, from the first one it
      looks at after the command became pending to the last one it looks at before the command ceases to be, in order. */
  lemma OfferedIsTheInput(before: seq<Step>, begin: Step, rest: seq<Step>)
    requires IsCommandRun(before, begin, rest)
    ensures var i := |After(INITIAL, before).commands|;
            var first := Looked(After(INITIAL, before));
            var s := Ended(before, begin, rest);
            && i < |s.commands| && first <= Until(s, i) <= |s.seen|
            && (s.running == Some(i) ==> Until(s, i) == Looked(s))
            && s.commands[i].offered + InHand(s.reader, i) == ResultLines(s.seen, first, Until(s, i))
  {
    hide IsRun, After, IsUrc, Enabled, Apply, ResultLines, CommandsOk, ReaderOk, UrcsOk;
    CommandRun(before, begin, rest);
    assert StretchOk(Ended(before, begin, rest), |After(INITIAL, before).commands|);
  }

  /** How often the reader had a line for command i while 64 lines waited in its channel. */
  ghost function Overflows(s: State, steps: seq<Step>, i: nat): nat
    requires IsRun(s, steps)
    decreases |steps|
  {
    if steps == [] then 0
    else (if Overflow(s, steps[0], i) then 1 else 0) + Overflows(Apply(s, steps[0]), steps[1..], i)
  }

  predicate Overflow(s: State, a: Step, i: nat) {
    a.Route? && s.reader.Aimed? && s.reader.at == Some(i) && i < |s.commands| && |s.commands[i].queue| >= 64
  }

  lemma StepDrops(s: State, a: Step, i: nat)
    requires Enabled(s, a) && i < |s.commands|
    ensures i < |Apply(s, a).commands|
    ensures Apply(s, a).commands[i].dropped == s.commands[i].dropped + if Overflow(s, a, i) then 1 else 0
  {
    hide OnLine, IsUrc;
  }

  /** In every run a command loses exactly as many lines as the reader had for it while 64 were waiting. */
  lemma {:induction false} DropsExactlyWhenFull(s: State, steps: seq<Step>, i: nat)
    requires IsRun(s, steps) && i < |s.commands|
    ensures i < |After(s, steps).commands|
    ensures After(s, steps).commands[i].dropped == s.commands[i].dropped + Overflows(s, steps, i)
    decreases |steps|
  {
    if steps != [] {
      hide Apply, Enabled, Overflow;
      StepDrops(s, steps[0], i);
      DropsExactlyWhenFull(Apply(s, steps[0]), steps[1..], i);
    }
  }

  /** While fewer than 64 lines of a command wait each time the reader has one for it, the caller takes the input itself: a
      prefix of the lines, codes aside, from the first one looked at after the command began. So a response is these
      lines up to their first final result, which is "OK". */
  lemma ResponseIsExact(before: seq<Step>, begin: Step, rest: seq<Step>)
    requires IsCommandRun(before, begin, rest)
    requires Overflows(Begun(before, begin, rest), rest, |After(INITIAL, before).commands|) == 0
    ensures var s := Ended(before, begin, rest);
            var i := |After(INITIAL, before).commands|;
            var first := Looked(After(INITIAL, before));
            && i < |s.commands| && first <= |s.seen|
            && var c, input := s.commands[i], Texts(ResultLines(s.seen, first, |s.seen|));
            && Texts(c.taken) <= input && ModeOk(c.mode, Texts(c.taken))
            && (c.mode.Done? && c.mode.result.Response? ==>
                  c.mode.result.lines + ["OK"] <= input && NoneFinal(c.mode.result.lines))
  {
    hide IsRun, After, IsUrc, Enabled, ResultLines, ReaderOk, UrcsOk, Overflows, OffersOk, Apply;
    var s0 := After(INITIAL, before);
    var s := Ended(before, begin, rest);
    var i := |s0.commands|;
    CommandRun(before, begin, rest);
    assert StretchOk(s, i) && CommandOk(s, i);
    BeginMarks(s0, begin);
    DropsExactlyWhenFull(Begun(before, begin, rest), rest, i);
    var c := s.commands[i];
    assert c.offered == c.taken + c.queue;
    ResultLinesPrefix(s.seen, c.from, Until(s, i), |s.seen|);
    TextsPrefix(c.taken, ResultLines(s.seen, c.from, |s.seen|));
  }

  lemma TextsPrefix(a: seq<Line>, b: seq<Line>)
    requires a <= b
    ensures Texts(a) <= Texts(b)
  {
  }

  /** What a call returns is a result of its own kind, and says what the lines it took were, also with drops. So an Execute
      that gave up, on a timeout, a closed port or a failed write, has taken no final line. */
  lemma ResultsByKind(before: seq<Step>, begin: Step, rest: seq<Step>)
    requires IsCommandRun(before, begin, rest)
    ensures var i := |After(INITIAL, before).commands|;
            var s := Ended(before, begin, rest);
            && i < |s.commands|
            && var c := s.commands[i];
            && (OfExecute(c.mode) <==> begin.BeginExecute?) && ModeOk(c.mode, Texts(c.taken))
            && (begin.BeginExecute? && c.mode.Done? && c.mode.result.GaveUp? ==> NoneFinal(Texts(c.taken)))
  {
    hide IsRun, After, IsUrc, Enabled, Apply, ReaderOk, UrcsOk, StretchesOk, IsFinal;
    CommandRun(before, begin, rest);
    assert CommandOk(Ended(before, begin, rest), |After(INITIAL, before).commands|);
  }

  /** Also with drops, a caller only ever sees lines that were offered to its own command, in the order of the input,
      never an unsolicited code; and a result means what ResultOk says. */
  lemma CommandsSeeTheirOwn(steps: seq<Step>, i: nat)
    requires IsRun(INITIAL, steps) && i < |After(INITIAL, steps).commands|
    ensures var s := After(INITIAL, steps);
            var c := s.commands[i];
            && (forall l :: l in c.taken ==> Numbered(s.seen, l) && !IsUrc(l.text) && l.no in s.owners && s.owners[l.no] == i)
            && (c.mode.Done? ==> ResultOk(c.mode.result, Texts(c.taken)))
  {
    hide IsRun, After, IsUrc;
    Reachable(steps);
    var s := After(INITIAL, steps);
    var c := s.commands[i];
    assert CommandOk(s, i);
    forall l | l in c.taken ensures Numbered(s.seen, l) && !IsUrc(l.text) && l.no in s.owners && s.owners[l.no] == i {
      assert l in c.routed;
      var k :| 0 <= k < |c.offered| && c.offered[k] == l;
    }
  }

  /** No line reaches two commands, or one command twice. */
  lemma NoLineTwice(steps: seq<Step>, i: nat, j: nat, a: nat, b: nat)
    requires IsRun(INITIAL, steps)
    requires var cs := After(INITIAL, steps).commands;
             i < |cs| && j < |cs| && a < |cs[i].offered| && b < |cs[j].offered| && (i != j || a != b)
    ensures var cs := After(INITIAL, steps).commands; cs[i].offered[a].no != cs[j].offered[b].no
  {
    hide IsRun, After, IsUrc;
    Reachable(steps);
    var s := After(INITIAL, steps);
    assert CommandOk(s, i) && CommandOk(s, j);
    if i == j {
      if a < b { Ascending(s.commands[i].offered, a, b); } else { Ascending(s.commands[i].offered, b, a); }
    }
  }

  lemma {:induction false} Ascending(ls: seq<Line>, a: nat, b: nat)
    requires a < b < |ls| && forall k :: 0 < k < |ls| ==> ls[k - 1].no < ls[k].no
    ensures ls[a].no < ls[b].no
    decreases b
  {
    if a < b - 1 { Ascending(ls, a, b - 1); }
  }

  /** Making room always works: the second send of a code never falls through, so every unsolicited code read so far was
      sent, in order, and only the oldest ones are ever dropped. */
  lemma NewestUrcNeverLost(steps: seq<Step>)
    requires IsRun(INITIAL, steps)
    ensures var s := After(INITIAL, steps);
            && (Enabled(s, UrcSendAgain) ==> |s.urcs| < 64)
            && s.urcsLost == []
            && UrcLines(s.seen) == s.urcsGone + s.urcs + UrcHeld(s.reader)
  {
    hide IsRun, After, IsUrc, UrcLines;
    Reachable(steps);
  }

  // ---- What the worker gets ----

  /** The codes the worker takes in a run, in order. */
  ghost function UrcsTaken(s: State, steps: seq<Step>): seq<Line>
    requires IsRun(s, steps)
    decreases |steps|
  {
    if steps == [] then [] else (if steps[0].TakeUrc? then [s.urcs[0]] else []) + UrcsTaken(Apply(s, steps[0]), steps[1..])
  }

  /** How many codes the reader reads while 64 wait. */
  ghost function UrcOverflows(s: State, steps: seq<Step>): nat
    requires IsRun(s, steps)
    decreases |steps|
  {
    if steps == [] then 0
    else (if steps[0].Scan? && IsUrc(steps[0].text) && |s.urcs| >= 64 then 1 else 0) + UrcOverflows(Apply(s, steps[0]), steps[1..])
  }

  /** How many codes are thrown away. */
  ghost function UrcDrops(s: State, steps: seq<Step>): nat
    requires IsRun(s, steps)
    decreases |steps|
  {
    if steps == [] then 0
    else (if steps[0].UrcDropOldest? && s.urcs != [] then 1 else 0) + UrcDrops(Apply(s, steps[0]), steps[1..])
  }

  function Due(r: Reader): nat { if r.UrcFull? then 1 else 0 }

  lemma UrcStepAccount(s: State, a: Step)
    requires Enabled(s, a)
    ensures var s' := Apply(s, a);
            var drop := if a.UrcDropOldest? && s.urcs != [] then 1 else 0;
            && drop + Due(s'.reader) <= Due(s.reader) + (if a.Scan? && IsUrc(a.text) && |s.urcs| >= 64 then 1 else 0)
            && |s'.urcsGone| == |s.urcsGone| + drop + (if a.TakeUrc? then 1 else 0)
            && (drop == 0 ==> s'.urcsGone == s.urcsGone + if a.TakeUrc? then [s.urcs[0]] else [])
  {
    hide IsUrc, OnLine;
  }

  lemma {:induction false} UrcAccount(s: State, steps: seq<Step>)
    requires IsRun(s, steps)
    ensures UrcDrops(s, steps) + Due(After(s, steps).reader) <= Due(s.reader) + UrcOverflows(s, steps)
    ensures |After(s, steps).urcsGone| == |s.urcsGone| + UrcDrops(s, steps) + |UrcsTaken(s, steps)|
    ensures UrcDrops(s, steps) == 0 ==> After(s, steps).urcsGone == s.urcsGone + UrcsTaken(s, steps)
    decreases |steps|
  {
    if steps != [] {
      hide Apply, Enabled, IsUrc, Due;
      var a, rest := steps[0], steps[1..];
      UrcStepAccount(s, a);
      UrcAccount(Apply(s, a), rest);
      TakenOn(s.urcsGone, if a.TakeUrc? then [s.urcs[0]] else [], UrcsTaken(Apply(s, a), rest));
    }
  }

  lemma TakenOn(gone: seq<Line>, now: seq<Line>, later: seq<Line>)
    ensures (gone + now) + later == gone + (now + later)
  {
  }

  /** The worker gets every unsolicited code, in order, as long as fewer than 64 wait whenever one is read; and each code read
      while 64 wait costs at most one. */
  lemma CodesReachTheWorker(steps: seq<Step>)
    requires IsRun(INITIAL, steps)
    ensures var s := After(INITIAL, steps);
            && (UrcOverflows(INITIAL, steps) == 0 ==> UrcLines(s.seen) == UrcsTaken(INITIAL, steps) + s.urcs)
            && |UrcLines(s.seen)| <= |UrcsTaken(INITIAL, steps)| + |s.urcs| + UrcOverflows(INITIAL, steps)
                                     + |UrcHeld(s.reader)|
  {
    hide IsRun, After, IsUrc, UrcLines, UrcsTaken, UrcDrops, UrcOverflows;
    NewestUrcNeverLost(steps);
    UrcAccount(INITIAL, steps);
    NoRetry(steps);
  }

  /** Without an overflow the reader never holds a code back. */
  lemma NoRetry(steps: seq<Step>)
    requires IsRun(INITIAL, steps)
    ensures UrcOverflows(INITIAL, steps) == 0 ==> UrcHeld(After(INITIAL, steps).reader) == []
  {
    HeldOnlyAfterOverflow(INITIAL, steps);
  }

  lemma HeldStep(s: State, a: Step)
    requires Enabled(s, a) && UrcHeld(s.reader) == [] && !(a.Scan? && IsUrc(a.text) && |s.urcs| >= 64)
    ensures UrcHeld(Apply(s, a).reader) == []
  {
    hide IsUrc, OnLine;
  }

  lemma {:induction false} HeldOnlyAfterOverflow(s: State, steps: seq<Step>)
    requires IsRun(s, steps) && UrcHeld(s.reader) == []
    ensures UrcOverflows(s, steps) == 0 ==> UrcHeld(After(s, steps).reader) == []
    decreases |steps|
  {
    if steps != [] && UrcOverflows(s, steps) == 0 {
      hide Apply, Enabled, IsUrc, UrcHeld;
      HeldStep(s, steps[0]);
      HeldOnlyAfterOverflow(Apply(s, steps[0]), steps[1..]);
    }
  }

  // ---- A call that is answered ----

  /** The command under way has nothing waiting and the reader is free. */
  predicate Listening(s: State) {
    s.reader.Ready? && !s.closed && Runs(s) && Current(s).mode.Running? && Current(s).queue == []
  }

  /** What the call makes of the lines that come in, one after the other. */
  function Heard(stage: Stage, texts: seq<string>, before: nat): Mode
    decreases |texts|
  {
    if texts == [] then Running(stage)
    else
      var m := OnLine(stage, texts[0], before);
      if m.Done? then m else Heard(m.stage, texts[1..], before + 1)
  }

  /** The way of one line from the port to the caller. */
  function LineSteps(text: string): seq<Step> {
    [Scan(text), LookAtPending, Route, Receive]
  }

  lemma RunStep(s: State, a: Step, rest: seq<Step>)
    requires Enabled(s, a) && IsRun(Apply(s, a), rest)
    ensures IsRun(s, [a] + rest) && After(s, [a] + rest) == After(Apply(s, a), rest)
  {
    hide Enabled, Apply;
    assert ([a] + rest)[1..] == rest;
  }

  lemma {:induction false} RunOn(s: State, a: seq<Step>, b: seq<Step>)
    requires IsRun(s, a) && IsRun(After(s, a), b)
    ensures IsRun(s, a + b) && After(s, a + b) == After(After(s, a), b)
    decreases |a|
  {
    if a == [] {
      assert a + b == b;
    } else {
      RunHead(s, a);
      hide *;
      HeadOn(a, b);
      RunOn(Apply(s, a[0]), a[1..], b);
      RunStep(s, a[0], a[1..] + b);
    }
  }

  lemma RunHead(s: State, a: seq<Step>)
    requires IsRun(s, a) && a != []
    ensures Enabled(s, a[0]) && IsRun(Apply(s, a[0]), a[1..]) && After(s, a) == After(Apply(s, a[0]), a[1..])
  {
    hide Apply, Enabled;
  }

  lemma HeadOn<T>(a: seq<T>, b: seq<T>)
    requires a != []
    ensures [a[0]] + (a[1..] + b) == a + b
  {
  }

  /** What stays, and what one more line does. */
  ghost predicate LineHeard(s: State, s': State, text: string) {
    && s'.reader.Ready? && s'.closed == s.closed && s'.running == s.running && Runs(s) && Runs(s')
    && Current(s).mode.Running? && |Current(s').taken| == |Current(s).taken| + 1 && Current(s').queue == []
    && Current(s').mode == OnLine(Current(s).mode.stage, text, |Current(s).taken|)
  }

  lemma OneLine(s: State, text: string) returns (s': State)
    requires Listening(s) && text != "" && !IsUrc(text)
    ensures IsRun(s, LineSteps(text)) && s' == After(s, LineSteps(text)) && LineHeard(s, s', text)
  {
    hide OnLine, IsUrc;
    var s1 := Apply(s, Scan(text));
    var s2 := Apply(s1, LookAtPending);
    var s3 := Apply(s2, Route);
    s' := Apply(s3, Receive);
    assert Enabled(s, Scan(text)) && Enabled(s1, LookAtPending) && Enabled(s2, Route) && Enabled(s3, Receive);
    assert LineHeard(s, s', text);
    hide Apply, Enabled, LineHeard;
    RunStep(s3, Receive, []);
    RunStep(s2, Route, [Receive]);
    RunStep(s1, LookAtPending, [Route, Receive]);
    RunStep(s, Scan(text), [LookAtPending, Route, Receive]);
    assert [Receive] + [] == [Receive] && [Route] + [Receive] == [Route, Receive];
    assert [LookAtPending] + [Route, Receive] == [LookAtPending, Route, Receive];
    assert [Scan(text)] + [LookAtPending, Route, Receive] == LineSteps(text);
  }

  ghost predicate Plain(texts: seq<string>) {
    forall i :: 0 <= i < |texts| ==> texts[i] != "" && !IsUrc(texts[i])
  }

  /** Lines that come in one after the other are all heard, until the call ends. */
  lemma {:induction false} AllHeard(s: State, texts: seq<string>) returns (steps: seq<Step>)
    requires Listening(s) && Plain(texts)
    ensures IsRun(s, steps)
    ensures var s' := After(s, steps);
            && s'.reader.Ready? && s'.closed == s.closed && s'.running == s.running && Runs(s')
            && Current(s').mode == Heard(Current(s).mode.stage, texts, |Current(s).taken|)
    decreases |texts|
  {
    hide OnLine, IsUrc, Apply, Enabled;
    if texts == [] {
      steps := [];
    } else {
      var s1 := OneLine(s, texts[0]);
      steps := LineSteps(texts[0]);
      if Current(s1).mode.Running? {
        assert Plain(texts[1..]);
        var rest := AllHeard(s1, texts[1..]);
        RunOn(s, steps, rest);
        steps := steps + rest;
      }
    }
  }

  lemma {:induction false} HeardLines(before: seq<string>, texts: seq<string>, n: nat)
    requires NoneFinal(texts)
    ensures Heard(Collecting(before), texts + ["OK"], n) == Done(Response(before + texts))
    decreases |texts|
  {
    if texts == [] {
      assert texts + ["OK"] == ["OK"] && before + texts == before;
    } else {
      assert !IsFinal(texts[0]);
      HeardLines(before + [texts[0]], texts[1..], n + 1);
      assert (texts + ["OK"])[1..] == texts[1..] + ["OK"];
      assert (before + [texts[0]]) + texts[1..] == before + texts;
    }
  }

  /** A modem that answers is heard: whenever no command is under way and the port is open, a call can begin, and if lines
      that end nothing come in and then "OK", the call returns exactly these lines, and the next call can begin. */
  lemma AnswerReturned(s: State, texts: seq<string>) returns (steps: seq<Step>)
    requires s.running.None? && !s.closed && s.reader.Ready? && NoneFinal(texts) && Plain(texts)
    ensures IsRun(s, [BeginExecute] + steps)
    ensures var s' := After(s, [BeginExecute] + steps);
            && |s'.commands| > |s.commands| && s'.commands[|s.commands|].mode == Done(Response(texts))
            && Enabled(s', BeginExecute) && Enabled(s', BeginSend)
  {
    var s1 := Apply(s, BeginExecute);
    assert Listening(s1) && Current(s1).mode == Running(Collecting([])) && Current(s1).taken == [];
    hide IsUrc, OnLine, Heard, IsRun, After;
    HeardLines([], texts, 0);
    assert [] + texts == texts;
    PlainOk(texts);
    hide Plain;
    var heard := AllHeard(s1, texts + ["OK"]);
    var s2 := After(s1, heard);
    RetireStep(s2);
    steps := heard + [Retire];
    RetireRun(s2);
    hide Apply, Enabled, IsUrc, OnLine;
    RunOn(s1, heard, [Retire]);
    RunStep(s, BeginExecute, steps);
  }

  lemma PlainOk(texts: seq<string>)
    requires Plain(texts)
    ensures Plain(texts + ["OK"])
  {
  }

  lemma RetireStep(s: State)
    requires Runs(s) && Current(s).mode.Done? && !s.closed
    ensures Enabled(s, Retire)
    ensures var s' := Apply(s, Retire);
            && s'.running.None? && !s'.closed && |s'.commands| == |s.commands|
            && s'.commands[s.running.value].mode == Current(s).mode
  {
  }

  lemma RetireRun(s: State)
    requires Enabled(s, Retire)
    ensures IsRun(s, [Retire]) && After(s, [Retire]) == Apply(s, Retire)
  {
    hide Apply, Enabled;
    RunStep(s, Retire, []);
    assert [Retire] + [] == [Retire];
  }

  /** A modem that prompts, prints a reference and says "OK" has its reference returned by ExecuteSend. */
  lemma ReferenceReturned(s: State, n: nat) returns (steps: seq<Step>)
    requires s.running.None? && !s.closed && s.reader.Ready? && n <= 9_223_372_036_854_775_807
    ensures IsRun(s, [BeginSend] + steps)
    ensures var s' := After(s, [BeginSend] + steps);
            |s'.commands| > |s.commands| && s'.commands[|s.commands|].mode == Done(Sent(n)) && Enabled(s', BeginSend)
  {
    var s1 := Apply(s, BeginSend);
    assert Listening(s1) && Current(s1).mode == Running(AwaitPrompt) && Current(s1).taken == [];
    var texts := ["> ", "+CMGS:" + (" " + (Decimal(n) + "")), "OK"];
    SendAnswer(n);
    var heard := AllHeard(s1, texts);
    var s2 := After(s1, heard);
    RetireStep(s2);
    steps := heard + [Retire];
    RetireRun(s2);
    hide Apply, Enabled, IsUrc, OnLine;
    RunOn(s1, heard, [Retire]);
    RunStep(s, BeginSend, steps);
  }

  lemma SendAnswer(n: nat)
    requires n <= 9_223_372_036_854_775_807
    ensures var texts := ["> ", "+CMGS:" + (" " + (Decimal(n) + "")), "OK"];
            Plain(texts) && Heard(AwaitPrompt, texts, 0) == Done(Sent(n))
  {
    var line := "+CMGS:" + (" " + (Decimal(n) + ""));
    var texts := ["> ", line, "OK"];
    PrintedReference(" ", n, "");
    hide ParseRef, Decimal;
    assert line[..6] == "+CMGS:" && line[3] == 'G' && line[4] == 'S';
    assert texts[1..] == [line, "OK"] && [line, "OK"][1..] == ["OK"];
    assert Heard(AwaitFinal(0, n), ["OK"], 2) == Done(Sent(n));
    assert Heard(AwaitFinal(0, 0), [line, "OK"], 1) == Done(Sent(n));
  }
}
