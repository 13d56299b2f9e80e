/** The token bucket of the HTTP limiter, over exact reals. Times are in nanoseconds. */
module TokenBucket {

  const SECOND: real := 1_000_000_000.0
  const MINUTE: real := 60_000_000_000.0

  /** What a bucket holds, and when it was last refilled. */
  datatype Level = Level(tokens: real, at: real)

  function Rate(perMin: nat): real {
    perMin as real / MINUTE
  }

  /** Tokens that come in between two moments. */
  function Inflow(perMin: nat, from: real, to: real): real {
    (to - from) * Rate(perMin)
  }

  function Refilled(perMin: nat, b: Level, now: real): real {
    var t := b.tokens + Inflow(perMin, b.at, now);
    if t > perMin as real then perMin as real else t
  }

  function Admits(perMin: nat, b: Level, now: real): bool {
    Refilled(perMin, b, now) >= 1.0
  }

  function Next(perMin: nat, b: Level, now: real): Level {
    var t := Refilled(perMin, b, now);
    Level(if t >= 1.0 then t - 1.0 else t, now)
  }

  function FullAt(perMin: nat, start: real): Level {
    Level(perMin as real, start)
  }

  class Bucket {
    var tokens: real
    var lastRefill: real
    const maxTokens: real
    const refillRate: real
    ghost const perMin: nat

    ghost predicate Valid()
      reads this
    {
      perMin > 0 && maxTokens == perMin as real && refillRate == Rate(perMin) && 0.0 <= tokens <= maxTokens
    }

    ghost function View(): Level
      reads this
    {
      Level(tokens, lastRefill)
    }

    /** newBucket. FromEnv builds limiters for a positive rate only. */
    constructor (n: nat, now: real)
      requires n > 0
      ensures Valid() && perMin == n && View() == FullAt(n, now)
    {
      perMin := n;
      maxTokens := n as real;
      refillRate := n as real / MINUTE;
      tokens := n as real;
      lastRefill := now;
    }

    /** Allow: refills for the time passed, then takes a token or says how long to wait, a second at least. */
    method Allow(now: real) returns (ok: bool, retryAfter: real)
      requires Valid() && lastRefill <= now
      modifies this`tokens, this`lastRefill
      ensures Valid() && View() == Next(perMin, old(View()), now)
      ensures ok == Admits(perMin, old(View()), now)
      ensures ok ==> retryAfter == 0.0
      ensures !ok ==> retryAfter == WaitAfter(perMin, View())
    {
      var elapsed := now - lastRefill;
      InflowNonNegative(perMin, lastRefill, now);
      assert elapsed * refillRate == Inflow(perMin, lastRefill, now);
      hide Inflow, Rate;
      lastRefill := now;
      tokens := tokens + elapsed * refillRate;
      if tokens > maxTokens {
        tokens := maxTokens;
      }
      if tokens >= 1.0 {
        tokens := tokens - 1.0;
        return true, 0.0;
      }
      var needed := 1.0 - tokens;
      var wait := needed / refillRate;
      if wait < SECOND {
        wait := SECOND;
      }
      return false, wait;
    }
  }

  lemma RatePositive(perMin: nat)
    requires perMin > 0
    ensures Rate(perMin) > 0.0
  {
  }

  lemma MulNonNegative(x: real, y: real)
    requires x >= 0.0 && y >= 0.0
    ensures x * y >= 0.0
  {
  }

  lemma InflowNonNegative(perMin: nat, from: real, to: real)
    requires perMin > 0 && from <= to
    ensures Inflow(perMin, from, to) >= 0.0
  {
    RatePositive(perMin);
    MulNonNegative(to - from, Rate(perMin));
  }

  lemma InflowAdds(perMin: nat, a: real, b: real, c: real)
    ensures Inflow(perMin, a, b) + Inflow(perMin, b, c) == Inflow(perMin, a, c)
  {
    Distribute(b - a, c - b, Rate(perMin));
  }

  lemma Distribute(x: real, y: real, r: real)
    ensures x * r + y * r == (x + y) * r
  {
  }

  function TimeToToken(perMin: nat, b: Level): real
    requires perMin > 0
  {
    (1.0 - b.tokens) / Rate(perMin)
  }

  /** The wait a denied caller is given. */
  function WaitAfter(perMin: nat, b: Level): real
    requires perMin > 0
  {
    if TimeToToken(perMin, b) < SECOND then SECOND else TimeToToken(perMin, b)
  }

  // ---- After a denial ----

  lemma MulAtLeast(delta: real, rate: real, need: real)
    requires rate > 0.0
    ensures delta * rate >= need <==> delta >= need / rate
  {
    var q := need / rate;
    assert q * rate == need;
    if delta >= q { MulMonotone(q, delta, rate); } else { MulStrict(delta, q, rate); }
  }

  lemma MulMonotone(x: real, y: real, r: real)
    requires x <= y && r >= 0.0
    ensures x * r <= y * r
  {
    assert (y - x) * r >= 0.0;
  }

  lemma MulStrict(x: real, y: real, r: real)
    requires x < y && r > 0.0
    ensures x * r < y * r
  {
    assert (y - x) * r > 0.0;
  }

  /** With less than a token left, the next call is admitted exactly when the missing part has had time to come in. */
  lemma NextAdmission(perMin: nat, b: Level, now: real)
    requires perMin > 0 && b.tokens < 1.0
    ensures Admits(perMin, b, now) <==> now - b.at >= TimeToToken(perMin, b)
  {
    RatePositive(perMin);
    MulAtLeast(now - b.at, Rate(perMin), 1.0 - b.tokens);
  }

  /** So whoever is denied and waits as long as told is admitted, if nobody comes in between; and nobody who waits a second
      or more is told to wait longer than needed. */
  lemma WaitSuffices(perMin: nat, b: Level, now: real, later: real)
    requires perMin > 0 && !Admits(perMin, b, now) && later >= now + SECOND
    ensures Admits(perMin, Next(perMin, b, now), later) <==> later >= now + WaitAfter(perMin, Next(perMin, b, now))
  {
    NextAdmission(perMin, Next(perMin, b, now), later);
  }

  /** The Retry-After header: the wait in whole seconds, cut off. */
  function Header(perMin: nat, b: Level): int
    requires perMin > 0
  {
    var secs := (WaitAfter(perMin, b) / SECOND).Floor;
    if secs < 1 then 1 else secs
  }

  /** Waiting as the header says is enough exactly when the wait is a whole number of seconds or less than one:
      cutting off the fraction sends every other client back too early. */
  lemma HeaderSuffices(perMin: nat, b: Level)
    requires perMin > 0 && b.tokens < 1.0
    ensures Admits(perMin, b, b.at + (Header(perMin, b) as real) * SECOND)
            <==> TimeToToken(perMin, b) <= SECOND || TimeToToken(perMin, b) == (TimeToToken(perMin, b) / SECOND).Floor as real * SECOND
  {
    NextAdmission(perMin, b, b.at + (Header(perMin, b) as real) * SECOND);
    var q := TimeToToken(perMin, b) / SECOND;
    assert TimeToToken(perMin, b) == q * SECOND;
    assert q.Floor as real <= q < q.Floor as real + 1.0;
  }

  // ---- Runs ----

  ghost predicate Monotone(times: seq<real>) {
    forall i, j :: 0 <= i < j < |times| ==> times[i] <= times[j]
  }

  /** The bucket after calls at the given times. */
  function After(perMin: nat, b: Level, times: seq<real>): Level {
    if times == [] then b else Next(perMin, After(perMin, b, times[..|times| - 1]), times[|times| - 1])
  }

  /** How many of these calls are admitted. */
  function Admitted(perMin: nat, b: Level, times: seq<real>): nat {
    if times == [] then 0
    else Admitted(perMin, b, times[..|times| - 1]) +
         if Admits(perMin, After(perMin, b, times[..|times| - 1]), times[|times| - 1]) then 1 else 0
  }

  /** One a minute: the first call empties a new bucket, a second one 0.6 seconds later is denied for 59.4 seconds, the
      header says 59, and the client that comes back then is denied again. */
  lemma HeaderTooEarly()
    ensures var first := After(1, FullAt(1, 0.0), [0.0]);
            var b := After(1, FullAt(1, 0.0), [0.0, 0.6 * SECOND]);
            && !Admits(1, first, 0.6 * SECOND) && b == Next(1, first, 0.6 * SECOND)
            && Header(1, b) == 59 && !Admits(1, b, b.at + 59.0 * SECOND)
  {
    var full := FullAt(1, 0.0);
    var times := [0.0, 0.6 * SECOND];
    assert times[..1] == [0.0] && [0.0][..0] == [];
    var first := After(1, full, [0.0]);
    assert first == Next(1, full, 0.0) == Level(0.0, 0.0);
    var b := Next(1, first, 0.6 * SECOND);
    assert b == Level(0.01, 0.6 * SECOND);
    TooEarly(b);
  }

  lemma TooEarly(b: Level)
    requires b.tokens == 0.01
    ensures Header(1, b) == 59 && !Admits(1, b, b.at + 59.0 * SECOND)
  {
    assert Rate(1) == 1.0 / MINUTE;
    assert TimeToToken(1, b) == 59.4 * SECOND;
    assert WaitAfter(1, b) / SECOND == 59.4;
    NextAdmission(1, b, b.at + 59.0 * SECOND);
  }

  predicate InRange(perMin: nat, b: Level) {
    0.0 <= b.tokens <= perMin as real
  }

  lemma NextInRange(perMin: nat, b: Level, now: real)
    requires perMin > 0 && InRange(perMin, b) && b.at <= now
    ensures InRange(perMin, Next(perMin, b, now)) && Next(perMin, b, now).at == now
    ensures Next(perMin, b, now).tokens + Taken(perMin, b, now) <= b.tokens + Inflow(perMin, b.at, now)
    ensures Next(perMin, b, now).tokens + Taken(perMin, b, now) <= perMin as real
  {
    InflowNonNegative(perMin, b.at, now);
    hide Inflow, Rate;
  }

  function Taken(perMin: nat, b: Level, now: real): real {
    if Admits(perMin, b, now) then 1.0 else 0.0
  }

  /** In every run the tokens stay between nothing and a full bucket. */
  lemma {:induction false} TokensInRange(perMin: nat, b: Level, times: seq<real>)
    requires perMin > 0 && InRange(perMin, b) && Monotone(times) && (times != [] ==> b.at <= times[0])
    ensures var e := After(perMin, b, times);
            InRange(perMin, e) && e.at == if times == [] then b.at else times[|times| - 1]
  {
    if times != [] {
      hide InRange, Next;
      var front, now := times[..|times| - 1], times[|times| - 1];
      TokensInRange(perMin, b, front);
      NextInRange(perMin, After(perMin, b, front), now);
    }
  }

  /** Over any stretch of calls the bucket pays for the admissions: it was at most full at the first call, and what came
      in since covers the rest. */
  lemma {:induction false} Balance(perMin: nat, b: Level, calls: seq<real>)
    requires perMin > 0 && InRange(perMin, b) && calls != [] && Monotone(calls) && b.at <= calls[0]
    ensures After(perMin, b, calls).tokens + Admitted(perMin, b, calls) as real
            <= perMin as real + Inflow(perMin, calls[0], calls[|calls| - 1])
  {
    hide Inflow, Next, Admits, InRange;
    var front, now := calls[..|calls| - 1], calls[|calls| - 1];
    var m := After(perMin, b, front);
    TokensInRange(perMin, b, front);
    NextInRange(perMin, m, now);
    if front == [] {
      InflowNonNegative(perMin, now, now);
    } else {
      Balance(perMin, b, front);
      InflowAdds(perMin, calls[0], m.at, now);
    }
  }

  /** At most the bucket's size and what comes in: of any calls within an interval [s, t], after any earlier calls, at
      most perMin + perMin * (t - s) / 60 s are admitted. */
  lemma IntervalBound(perMin: nat, start: real, earlier: seq<real>, calls: seq<real>, s: real, t: real)
    requires perMin > 0 && Monotone([start] + earlier + calls) && s <= t
    requires forall i :: 0 <= i < |calls| ==> s <= calls[i] <= t
    ensures var b := After(perMin, FullAt(perMin, start), earlier);
            Admitted(perMin, b, calls) as real <= perMin as real + perMin as real * (t - s) / MINUTE
  {
    var b0 := FullAt(perMin, start);
    Parts(start, earlier, calls);
    TokensInRange(perMin, b0, earlier);
    InflowNonNegative(perMin, s, t);
    InflowValue(perMin, s, t);
    var b := After(perMin, b0, earlier);
    hide Inflow, After, Admitted;
    if calls != [] {
      var c, d := calls[0], calls[|calls| - 1];
      TokensInRange(perMin, b, calls);
      Balance(perMin, b, calls);
      InflowNonNegative(perMin, s, c);
      InflowNonNegative(perMin, d, t);
      InflowAdds(perMin, s, c, d);
      InflowAdds(perMin, s, d, t);
    } else {
      NoCalls(perMin, b);
    }
  }

  lemma NoCalls(perMin: nat, b: Level)
    ensures Admitted(perMin, b, []) == 0
  {
  }

  lemma InflowValue(perMin: nat, s: real, t: real)
    ensures Inflow(perMin, s, t) == perMin as real * (t - s) / MINUTE
  {
  }

  lemma Parts(start: real, earlier: seq<real>, calls: seq<real>)
    requires Monotone([start] + earlier + calls)
    ensures Monotone(earlier) && Monotone(calls) && (earlier != [] ==> start <= earlier[0])
    ensures calls != [] ==> (if earlier == [] then start else earlier[|earlier| - 1]) <= calls[0]
  {
    var all := [start] + earlier + calls;
    assert forall i :: 0 <= i < |earlier| ==> earlier[i] == all[i + 1];
    assert forall i :: 0 <= i < |calls| ==> calls[i] == all[i + 1 + |earlier|];
    assert all[0] == start;
    if calls != [] { assert all[|earlier|] <= all[1 + |earlier|]; }
  }

  // ---- Neither too many nor too few ----

  /** A run on from a run. */
  lemma {:induction false} AfterParts(perMin: nat, b: Level, times: seq<real>, k: nat)
    requires k <= |times|
    ensures After(perMin, b, times) == After(perMin, After(perMin, b, times[..k]), times[k..])
  {
    if k == |times| {
      assert times[..k] == times && times[k..] == [];
    } else {
      hide Next;
      var front := times[..|times| - 1];
      AfterParts(perMin, b, front, k);
      assert front[..k] == times[..k] && times[k..][..|times| - 1 - k] == front[k..];
    }
  }

  /** A full bucket has a token for each of its first perMin calls, whenever they come. */
  lemma {:induction false} FirstCallsAdmitted(perMin: nat, start: real, times: seq<real>)
    requires perMin > 0 && |times| <= perMin && Monotone([start] + times)
    ensures Admitted(perMin, FullAt(perMin, start), times) == |times|
    ensures After(perMin, FullAt(perMin, start), times).tokens >= (perMin - |times|) as real
  {
    if times != [] {
      var front, now := times[..|times| - 1], times[|times| - 1];
      MonotoneFront(start, times);
      FirstCallsAdmitted(perMin, start, front);
      var b := After(perMin, FullAt(perMin, start), front);
      AtLast(perMin, start, front);
      InflowNonNegative(perMin, b.at, now);
      hide Inflow, After, Admitted;
    }
  }

  lemma MonotoneFront(start: real, times: seq<real>)
    requires times != [] && Monotone([start] + times)
    ensures Monotone([start] + times[..|times| - 1])
    ensures (if |times| == 1 then start else times[|times| - 2]) <= times[|times| - 1]
  {
    var all, front := [start] + times, [start] + times[..|times| - 1];
    assert forall i :: 0 <= i < |front| ==> front[i] == all[i];
    assert all[|times| - 1] <= all[|times|];
  }

  lemma AtLast(perMin: nat, start: real, times: seq<real>)
    ensures After(perMin, FullAt(perMin, start), times).at == if times == [] then start else times[|times| - 1]
  {
  }

  /** The admissions from call k on. */
  function AdmittedFrom(perMin: nat, b: Level, times: seq<real>, k: nat): nat
    requires k <= |times|
  {
    Admitted(perMin, After(perMin, b, times[..k]), times[k..])
  }

  lemma AdmittedStep(perMin: nat, b: Level, times: seq<real>, k: nat)
    requires k < |times|
    ensures var front, now := times[..|times| - 1], times[|times| - 1];
            AdmittedFrom(perMin, b, times, k) ==
            AdmittedFrom(perMin, b, front, k) + if Admits(perMin, After(perMin, b, front), now) then 1 else 0
  {
    hide Admits, After;
    var front := times[..|times| - 1];
    AfterParts(perMin, b, front, k);
    assert front[..k] == times[..k] && times[k..][..|times| - 1 - k] == front[k..];
  }

  /** Since some moment nothing has been lost to the rim: what is left and what was admitted since are what a full bucket
      and the inflow since then give. */
  lemma {:induction false} SinceFull(perMin: nat, start: real, times: seq<real>) returns (k: nat, s: real)
    requires perMin > 0 && Monotone([start] + times)
    ensures k <= |times| && start <= s && (forall i :: k <= i < |times| ==> s <= times[i])
    ensures var b := After(perMin, FullAt(perMin, start), times);
            && s <= b.at
            && b.tokens + AdmittedFrom(perMin, FullAt(perMin, start), times, k) as real
               == perMin as real + Inflow(perMin, s, b.at)
  {
    var full := FullAt(perMin, start);
    AtLast(perMin, start, times);
    if times == [] {
      k, s := 0, start;
      NoneFrom(perMin, full, times);
      assert After(perMin, full, times) == full;
      NoInflow(perMin, start);
      hide Inflow, After, AdmittedFrom;
    } else {
      var front, now := times[..|times| - 1], times[|times| - 1];
      MonotoneFront(start, times);
      k, s := SinceFull(perMin, start, front);
      AtLast(perMin, start, front);
      var b := After(perMin, full, front);
      if b.tokens + Inflow(perMin, b.at, now) > perMin as real {
        k, s := |front|, now;
        NoneFrom(perMin, full, front);
        StartsBefore(start, times);
      }
      AdmittedStep(perMin, full, times, k);
      assert After(perMin, full, times) == Next(perMin, b, now);
      hide After, AdmittedFrom, Monotone, Next, Admits, Inflow;
      BalanceStep(perMin, b, now, s, AdmittedFrom(perMin, full, front, k));
    }
  }

  lemma BalanceStep(perMin: nat, b: Level, now: real, s: real, admitted: nat)
    requires perMin > 0 && b.at <= now
    requires b.tokens + Inflow(perMin, b.at, now) <= perMin as real ==>
               b.tokens + admitted as real == perMin as real + Inflow(perMin, s, b.at)
    requires b.tokens + Inflow(perMin, b.at, now) > perMin as real ==> s == now && admitted == 0
    ensures Next(perMin, b, now).tokens + (admitted + if Admits(perMin, b, now) then 1 else 0) as real
            == perMin as real + Inflow(perMin, s, now)
  {
    hide Inflow;
    InflowAdds(perMin, s, b.at, now);
    NoInflow(perMin, now);
  }

  lemma NoInflow(perMin: nat, now: real)
    ensures Inflow(perMin, now, now) == 0.0
  {
  }

  lemma StartsBefore(start: real, times: seq<real>)
    requires times != [] && Monotone([start] + times)
    ensures start <= times[|times| - 1]
  {
    var all := [start] + times;
    assert all[0] <= all[|times|];
  }

  lemma NoneFrom(perMin: nat, b: Level, times: seq<real>)
    ensures AdmittedFrom(perMin, b, times, |times|) == 0
  {
    assert times[|times|..] == [];
  }

  /** One more admission would be too many for the interval from s to now. */
  ghost predicate Exhausted(perMin: nat, start: real, times: seq<real>, now: real, k: nat, s: real) {
    && k <= |times| && start <= s <= now && (forall i :: k <= i < |times| ==> s <= times[i])
    && AdmittedFrom(perMin, FullAt(perMin, start), times, k) as real + 1.0
       > perMin as real + perMin as real * (now - s) / 60_000_000_000.0
  }

  /** The limiter is exact: after any calls, a call is denied exactly when one more admission would exceed, for some interval
      that ends now, a full bucket and the inflow of that interval. */
  lemma DeniedExactly(perMin: nat, start: real, times: seq<real>, now: real)
    requires perMin > 0 && Monotone([start] + times + [now])
    ensures !Admits(perMin, After(perMin, FullAt(perMin, start), times), now)
            <==> exists k: nat, s: real :: Exhausted(perMin, start, times, now, k, s)
  {
    var full := FullAt(perMin, start);
    assert [start] + times + [now] == [start] + (times + [now]);
    assert (times + [now])[..|times|] == times;
    MonotoneFront(start, times + [now]);
    if !Admits(perMin, After(perMin, full, times), now) {
      var k, s := SinceFull(perMin, start, times);
      AtLast(perMin, start, times);
      DeniedExhausts(perMin, start, times, now, k, s);
    }
    if k: nat, s: real :| Exhausted(perMin, start, times, now, k, s) {
      ExhaustedDenies(perMin, start, times, now, k, s);
    }
  }

  lemma DeniedExhausts(perMin: nat, start: real, times: seq<real>, now: real, k: nat, s: real)
    requires perMin > 0 && k <= |times| && start <= s && (forall i :: k <= i < |times| ==> s <= times[i])
    requires var b := After(perMin, FullAt(perMin, start), times);
             && s <= b.at <= now && !Admits(perMin, b, now)
             && b.tokens + AdmittedFrom(perMin, FullAt(perMin, start), times, k) as real
                == perMin as real + Inflow(perMin, s, b.at)
    ensures Exhausted(perMin, start, times, now, k, s)
  {
    var b := After(perMin, FullAt(perMin, start), times);
    InflowAdds(perMin, s, b.at, now);
    InflowValue(perMin, s, now);
    hide Inflow, After, AdmittedFrom;
  }

  lemma ExhaustedDenies(perMin: nat, start: real, times: seq<real>, now: real, k: nat, s: real)
    requires perMin > 0 && Monotone([start] + times + [now]) && Exhausted(perMin, start, times, now, k, s)
    ensures !Admits(perMin, After(perMin, FullAt(perMin, start), times), now)
  {
    var full := FullAt(perMin, start);
    var all := times + [now];
    assert all[..k] == times[..k] && all[k..] == times[k..] + [now] && all[..|all| - 1] == times;
    assert [start] + times + [now] == [start] + all[..k] + all[k..];
    AdmittedStep(perMin, full, all, k);
    hide After, Admits, Admitted;
    forall i | 0 <= i < |all[k..]| ensures s <= all[k..][i] <= now {
      NotAfter(start, times, now, k + i);
    }
    IntervalBound(perMin, start, all[..k], all[k..], s, now);
  }

  lemma NotAfter(start: real, times: seq<real>, now: real, i: nat)
    requires Monotone([start] + times + [now]) && i <= |times|
    ensures (times + [now])[i] <= now
  {
    var whole := [start] + times + [now];
    assert (times + [now])[i] == whole[i + 1] && now == whole[|times| + 1];
    if i < |times| { assert whole[i + 1] <= whole[|times| + 1]; }
  }
}
