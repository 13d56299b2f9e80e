/** The per-SIM send limiter: three sliding logs of send times, cleaned in place. Times are integers
    (nanoseconds) and a run's clock never goes back. */
module SimRateLimit {

  type Time = int

  const MINUTE: int := 60_000_000_000
  const HOUR: int := 60 * MINUTE
  const DAY: int := 24 * HOUR

  /** The events after the cutoff, in order. */
  function Kept(log: seq<Time>, cutoff: Time): seq<Time> {
    if log == [] then []
    else Kept(log[..|log| - 1], cutoff) + if log[|log| - 1] > cutoff then [log[|log| - 1]] else []
  }

  predicate Admits(log: seq<Time>, limit: int, duration: int, now: Time) {
    |Kept(log, now - duration)| < limit
  }

  /** Eviction twice is eviction once, at the later cutoff. */
  lemma {:induction false} KeptKept(log: seq<Time>, c: Time, d: Time)
    requires c <= d
    ensures Kept(Kept(log, c), d) == Kept(log, d)
  {
    if log != [] {
      var front, last := log[..|log| - 1], log[|log| - 1];
      KeptKept(front, c, d);
      if last > c {
        var k := Kept(front, c) + [last];
        assert k[..|k| - 1] == Kept(front, c) && k[|k| - 1] == last;
        assert Kept(k, d) == Kept(Kept(front, c), d) + if last > d then [last] else [];
      } else {
        assert Kept(log, c) == Kept(front, c) && Kept(log, d) == Kept(front, d);
      }
    }
  }

  lemma KeptNone(cutoff: Time)
    ensures Kept([], cutoff) == []
  {
  }

  lemma KeptStep(log: seq<Time>, r: nat, cutoff: Time)
    requires r < |log|
    ensures Kept(log[..r + 1], cutoff) == if log[r] > cutoff then Kept(log[..r], cutoff) + [log[r]] else Kept(log[..r], cutoff)
  {
    assert log[..r + 1][..r] == log[..r];
    assert Kept(log[..r], cutoff) + [] == Kept(log[..r], cutoff);
  }

  lemma {:induction false} KeptLength(log: seq<Time>, c: Time)
    ensures |Kept(log, c)| <= |log|
  {
    if log != [] { KeptLength(log[..|log| - 1], c); }
  }

  // ---- One window ----

  class Window {
    const limit: int
    const duration: int
    const buf: array<Time>
    var len: nat

    ghost predicate Valid()
      reads this
    {
      limit >= -1 && duration > 0 && buf.Length == limit + 1 && (len == 0 || len <= limit)
    }

    ghost function Log(): seq<Time>
      requires Valid()
      reads this, buf
    {
      buf[..len]
    }

    /** newWindow: room for one event more than the limit; a limit below -1 could not be allocated. */
    constructor (l: int, dur: int)
      requires l >= -1 && dur > 0
      ensures Valid() && fresh(buf) && Log() == [] && limit == l && duration == dur
    {
      limit, duration, len := l, dur, 0;
      buf := new Time[l + 1];
    }

    /** Allow: compacts the log in place over its own storage, then appends. The log never outgrows its storage. */
    method Allow(now: Time) returns (ok: bool)
      requires Valid()
      modifies this`len, buf
      ensures Valid()
      ensures ok == old(Admits(Log(), limit, duration, now))
      ensures Log() == old(Kept(Log(), now - duration)) + if ok then [now] else []
    {
      hide Kept;
      var cutoff := now - duration;
      ghost var was := buf[..len];
      var valid := 0;
      KeptNone(cutoff);
      for r := 0 to len
        invariant valid <= r && len == |was|
        invariant buf[..valid] == Kept(was[..r], cutoff)
        invariant buf[r..len] == was[r..]
      {
        KeptStep(was, r, cutoff);
        assert buf[r] == buf[r..len][0] == was[r];
        assert buf[r + 1..len] == buf[r..len][1..] == was[r + 1..];
        if buf[r] > cutoff {
          buf[valid] := buf[r];
          valid := valid + 1;
        }
      }
      assert was[..len] == was;
      len := valid;
      if len >= limit {
        return false;
      }
      buf[len] := now;
      len := len + 1;
      ok := true;
    }

    /** wouldAllow: counts without touching the log. */
    method WouldAllow(now: Time) returns (ok: bool)
      requires Valid()
      ensures ok == Admits(Log(), limit, duration, now)
    {
      var cutoff := now - duration;
      var count := 0;
      for i := 0 to len
        invariant count == |Kept(buf[..i], cutoff)|
      {
        KeptStep(buf[..len], i, cutoff);
        assert buf[..len][..i] == buf[..i] && buf[..len][..i + 1] == buf[..i + 1];
        if buf[i] > cutoff {
          count := count + 1;
        }
      }
      ok := count < limit;
    }
  }

  // ---- Three windows ----

  class SimRateLimiter {
    const perMin: Window
    const perHour: Window
    const perDay: Window

    ghost predicate Valid()
      reads this, perMin, perHour, perDay
    {
      && perMin.Valid() && perHour.Valid() && perDay.Valid()
      && perMin != perHour && perMin != perDay && perHour != perDay
      && perMin.buf != perHour.buf && perMin.buf != perDay.buf && perHour.buf != perDay.buf
      && perMin.duration == MINUTE && perHour.duration == HOUR && perDay.duration == DAY
    }

    ghost function Limits(): Limits
      reads this
    {
      LimitsOf(perMin.limit, perHour.limit, perDay.limit)
    }

    ghost function Logs(): Logs
      requires Valid()
      reads this, perMin, perHour, perDay, perMin.buf, perHour.buf, perDay.buf
    {
      LogsOf(perMin.Log(), perHour.Log(), perDay.Log())
    }

    constructor (l: Limits)
      requires l.min >= -1 && l.hour >= -1 && l.day >= -1
      ensures Valid() && Limits() == l && Logs() == LogsOf([], [], [])
    {
      perMin := new Window(l.min, MINUTE);
      perHour := new Window(l.hour, HOUR);
      perDay := new Window(l.day, DAY);
    }

    /** tryAll: three checks, then three appends that cannot fail any more; a refused call changes nothing at all. */
    method TryAll(now: Time) returns (ok: bool)
      requires Valid()
      modifies perMin`len, perHour`len, perDay`len, perMin.buf, perHour.buf, perDay.buf
      ensures Valid() && Logs() == Try(Limits(), old(Logs()), now).0
      ensures ok == Try(Limits(), old(Logs()), now).1
    {
      hide Kept;
      ok := perMin.WouldAllow(now);
      if ok {
        ok := perHour.WouldAllow(now);
      }
      if ok {
        ok := perDay.WouldAllow(now);
      }
      if ok {
        ok := perMin.Allow(now);
      }
      if ok {
        ok := perHour.Allow(now);
      }
      if ok {
        ok := perDay.Allow(now);
      }
    }
  }

  datatype Limits = LimitsOf(min: int, hour: int, day: int)

  datatype Logs = LogsOf(min: seq<Time>, hour: seq<Time>, day: seq<Time>)

  /** All windows or none. */
  function Try(l: Limits, g: Logs, now: Time): (Logs, bool) {
    if Admits(g.min, l.min, MINUTE, now) && Admits(g.hour, l.hour, HOUR, now) && Admits(g.day, l.day, DAY, now)
    then (LogsOf(Kept(g.min, now - MINUTE) + [now], Kept(g.hour, now - HOUR) + [now], Kept(g.day, now - DAY) + [now]), true)
    else (g, false)
  }

  // ---- Runs ----

  ghost predicate Monotone(times: seq<Time>) {
    forall i, j :: 0 <= i < j < |times| ==> times[i] <= times[j]
  }

  /** The logs after calls at the given times, and the times at which the call was allowed. */
  function Run(l: Limits, times: seq<Time>): (Logs, seq<Time>) {
    if times == [] then (LogsOf([], [], []), [])
    else
      var now := times[|times| - 1];
      var (g, sent) := Run(l, times[..|times| - 1]);
      var (g', ok) := Try(l, g, now);
      (g', if ok then sent + [now] else sent)
  }

  /** The limiter that remembers everything: a send is allowed when each window, counted over the whole
      history, has room. */
  function FullHistory(l: Limits, times: seq<Time>): seq<Time> {
    if times == [] then []
    else
      var now := times[|times| - 1];
      var sent := FullHistory(l, times[..|times| - 1]);
      if AdmitsAll(l, sent, now) then sent + [now] else sent
  }

  predicate AdmitsAll(l: Limits, sent: seq<Time>, now: Time) {
    Admits(sent, l.min, MINUTE, now) && Admits(sent, l.hour, HOUR, now) && Admits(sent, l.day, DAY, now)
  }

  /** What a window still holds of the history: the events within its duration of the last one. */
  function Recent(sent: seq<Time>, duration: int): seq<Time> {
    if sent == [] then [] else Kept(sent, sent[|sent| - 1] - duration)
  }

  /** Forgotten events cannot matter again: for any later moment the log decides as the history does. */
  lemma RecentDecides(sent: seq<Time>, duration: int, now: Time)
    requires sent == [] || sent[|sent| - 1] <= now
    ensures Kept(Recent(sent, duration), now - duration) == Kept(sent, now - duration)
  {
    if sent == [] {
      KeptNone(now - duration);
    } else {
      hide Kept;
      KeptKept(sent, sent[|sent| - 1] - duration, now - duration);
    }
  }

  lemma RecentAppend(sent: seq<Time>, duration: int, now: Time)
    requires duration > 0
    ensures Recent(sent + [now], duration) == Kept(sent, now - duration) + [now]
  {
    assert (sent + [now])[..|sent|] == sent;
  }

  function RecentLogs(sent: seq<Time>): Logs {
    LogsOf(Recent(sent, MINUTE), Recent(sent, HOUR), Recent(sent, DAY))
  }

  lemma TryRecent(l: Limits, sent: seq<Time>, now: Time)
    requires sent == [] || sent[|sent| - 1] <= now
    ensures Try(l, RecentLogs(sent), now)
            == if AdmitsAll(l, sent, now) then (RecentLogs(sent + [now]), true) else (RecentLogs(sent), false)
  {
    hide Kept, Recent;
    RecentDecides(sent, MINUTE, now);
    RecentDecides(sent, HOUR, now);
    RecentDecides(sent, DAY, now);
    RecentAppend(sent, MINUTE, now);
    RecentAppend(sent, HOUR, now);
    RecentAppend(sent, DAY, now);
  }

  /** Every run of the limiter decides like the one that remembers everything, and its logs are what is
      recent of that history. */
  lemma {:induction false} RunIsFullHistory(l: Limits, times: seq<Time>)
    requires Monotone(times)
    ensures var sent := FullHistory(l, times);
            && Run(l, times) == (RecentLogs(sent), sent)
            && (sent != [] ==> times != [] && sent[|sent| - 1] <= times[|times| - 1])
  {
    if times != [] {
      hide RecentLogs, AdmitsAll, Try;
      var front, now := times[..|times| - 1], times[|times| - 1];
      RunIsFullHistory(l, front);
      if front != [] { assert front[|front| - 1] == times[|times| - 2] <= now; }
      TryRecent(l, FullHistory(l, front), now);
    } else {
      assert RecentLogs([]) == LogsOf([], [], []);
    }
  }

  // ---- The bound ----

  /** Sends in the half-open interval (from, to]. */
  function Count(sent: seq<Time>, from: Time, to: Time): nat {
    if sent == [] then 0
    else Count(sent[..|sent| - 1], from, to) + if from < sent[|sent| - 1] <= to then 1 else 0
  }

  lemma {:induction false} CountWithin(sent: seq<Time>, from: Time, to: Time, cutoff: Time)
    requires cutoff <= from
    ensures Count(sent, from, to) <= |Kept(sent, cutoff)|
  {
    if sent != [] { CountWithin(sent[..|sent| - 1], from, to, cutoff); }
  }

  /** Sends in the window of the given length that ends at x. */
  function InWindow(sent: seq<Time>, duration: int, x: Time): nat {
    Count(sent, x - duration, x)
  }

  ghost predicate Bounded(sent: seq<Time>, limit: int, duration: int) {
    forall x: Time :: InWindow(sent, duration, x) <= if limit > 0 then limit else 0
  }

  /** One more admitted send at the end keeps every interval of the window's length within the limit. */
  lemma SendKeepsBound(sent: seq<Time>, limit: int, duration: int, now: Time)
    requires Bounded(sent, limit, duration) && Admits(sent, limit, duration, now)
    ensures Bounded(sent + [now], limit, duration)
  {
    forall x: Time ensures InWindow(sent + [now], duration, x) <= limit {
      assert (sent + [now])[..|sent|] == sent;
      assert InWindow(sent, duration, x) <= limit;
      if x - duration < now <= x { CountWithin(sent, x - duration, x, now - duration); }
    }
  }

  lemma {:induction false} FullHistoryBounded(l: Limits, times: seq<Time>)
    ensures var sent := FullHistory(l, times);
            Bounded(sent, l.min, MINUTE) && Bounded(sent, l.hour, HOUR) && Bounded(sent, l.day, DAY)
  {
    if times != [] {
      var front, now := times[..|times| - 1], times[|times| - 1];
      FullHistoryBounded(l, front);
      hide Bounded, Admits;
      var sent := FullHistory(l, front);
      if AdmitsAll(l, sent, now) {
        SendKeepsBound(sent, l.min, MINUTE, now);
        SendKeepsBound(sent, l.hour, HOUR, now);
        SendKeepsBound(sent, l.day, DAY, now);
      }
    }
  }

  /** In every run and for every moment x, the sends in the minute, the hour and the day ending at x stay within
      their limits, although expired events are forgotten. */
  lemma LimitsHold(l: Limits, times: seq<Time>, x: Time)
    requires Monotone(times) && l.min >= 0 && l.hour >= 0 && l.day >= 0
    ensures var sent := Run(l, times).1;
            && Count(sent, x - 60_000_000_000, x) <= l.min
            && Count(sent, x - 3_600_000_000_000, x) <= l.hour
            && Count(sent, x - 86_400_000_000_000, x) <= l.day
  {
    RunIsFullHistory(l, times);
    FullHistoryBounded(l, times);
    hide Run, FullHistory, Count;
    var sent := FullHistory(l, times);
    assert InWindow(sent, MINUTE, x) <= l.min && InWindow(sent, HOUR, x) <= l.hour && InWindow(sent, DAY, x) <= l.day;
  }

  predicate AllBy(times: seq<Time>, now: Time) {
    forall i :: 0 <= i < |times| ==> times[i] <= now
  }

  lemma {:induction false} SentEarlier(l: Limits, times: seq<Time>, now: Time)
    requires AllBy(times, now)
    ensures AllBy(FullHistory(l, times), now)
  {
    if times != [] {
      hide AdmitsAll;
      SentEarlier(l, times[..|times| - 1], now);
    }
  }

  lemma {:induction false} KeptIsCount(sent: seq<Time>, cutoff: Time, now: Time)
    requires AllBy(sent, now)
    ensures |Kept(sent, cutoff)| == Count(sent, cutoff, now)
  {
    if sent != [] { KeptIsCount(sent[..|sent| - 1], cutoff, now); }
  }

  /** And nobody is refused without need: after any run a call is allowed exactly when the sends of the minute, the hour and
      the day that end with it are below their limits, counted over all that was ever sent. */
  lemma AllowedExactly(l: Limits, times: seq<Time>, now: Time)
    requires Monotone(times + [now])
    ensures var (g, sent) := Run(l, times);
            Try(l, g, now).1 <==>
              && Count(sent, now - 60_000_000_000, now) < l.min
              && Count(sent, now - 3_600_000_000_000, now) < l.hour
              && Count(sent, now - 86_400_000_000_000, now) < l.day
  {
    var all := times + [now];
    forall i | 0 <= i < |times| ensures times[i] <= now { assert all[i] <= all[|times|]; }
    assert Monotone(times) by {
      forall i, j | 0 <= i < j < |times| ensures times[i] <= times[j] { assert all[i] <= all[j]; }
    }
    RunIsFullHistory(l, times);
    SentEarlier(l, times, now);
    hide Run, FullHistory, Count, Kept, RecentLogs, Monotone;
    var sent := FullHistory(l, times);
    TryRecent(l, sent, now);
    hide Try;
    KeptIsCount(sent, now - MINUTE, now);
    KeptIsCount(sent, now - HOUR, now);
    KeptIsCount(sent, now - DAY, now);
  }

  // ---- Two callers at once ----

  /** One window's Allow on its log. */
  function AllowOne(log: seq<Time>, limit: int, duration: int, now: Time): (seq<Time>, bool) {
    if Admits(log, limit, duration, now) then (Kept(log, now - duration) + [now], true) else (Kept(log, now - duration), false)
  }

  /** tryAll behind its checks: the appends stop at the first window that refuses. */
  function Appends(l: Limits, g: Logs, now: Time): (Logs, bool) {
    var (m, okM) := AllowOne(g.min, l.min, MINUTE, now);
    if !okM then (g.(min := m), false) else
    var (h, okH) := AllowOne(g.hour, l.hour, HOUR, now);
    if !okH then (LogsOf(m, h, g.day), false) else
    var (d, okD) := AllowOne(g.day, l.day, DAY, now);
    (LogsOf(m, h, d), okD)
  }

  /** The events of a window that count against the second of two callers: those of before that have not expired for
      either of them, and the first caller's own. */
  function Counted(log: seq<Time>, duration: int, first: Time, second: Time): nat {
    |Kept(log, (if first <= second then second else first) - duration)| + if first > second - duration then 1 else 0
  }

  /** Checks and appends are not one critical section. When a second caller, with its own reading of the clock, passes its
      checks before the first one appends, it can be refused and yet leave an event behind in the minute window: exactly
      when that window has room for both but the hour or the day has not. */
  lemma SecondCallerLeavesTrace(l: Limits, g: Logs, first: Time, second: Time)
    requires Try(l, g, first).1 && Try(l, g, second).1
    ensures var one := Appends(l, g, first);
            var two := Appends(l, one.0, second);
            && one == Try(l, g, first)
            && (!two.1 && two.0.min == Kept(one.0.min, second - MINUTE) + [second] <==>
                && Counted(g.min, MINUTE, first, second) < l.min
                && (Counted(g.hour, HOUR, first, second) >= l.hour || Counted(g.day, DAY, first, second) >= l.day))
  {
    hide Kept, Counted;
    KeptAppended(g.min, MINUTE, first, second);
    KeptAppended(g.hour, HOUR, first, second);
    KeptAppended(g.day, DAY, first, second);
    LongerByOne(Kept(Kept(g.min, first - MINUTE) + [first], second - MINUTE), second);
  }

  lemma LongerByOne(log: seq<Time>, now: Time)
    ensures log != log + [now]
  {
    assert |log + [now]| == |log| + 1;
  }

  lemma KeptAppended(log: seq<Time>, duration: int, first: Time, second: Time)
    requires duration > 0
    ensures |Kept(Kept(log, first - duration) + [first], second - duration)| == Counted(log, duration, first, second)
  {
    var k := Kept(log, first - duration);
    KeptPlus(k, first, second - duration);
    hide Kept;
    if first <= second {
      KeptKept(log, first - duration, second - duration);
    } else {
      KeptLater(log, first - duration, second - duration);
    }
  }

  lemma KeptPlus(log: seq<Time>, x: Time, cutoff: Time)
    ensures Kept(log + [x], cutoff) == Kept(log, cutoff) + if x > cutoff then [x] else []
  {
    assert (log + [x])[..|log|] == log;
  }

  /** What survives a cutoff survives an earlier one. */
  lemma {:induction false} KeptLater(log: seq<Time>, c: Time, d: Time)
    requires d <= c
    ensures Kept(Kept(log, c), d) == Kept(log, c)
  {
    if log != [] {
      var front, last := log[..|log| - 1], log[|log| - 1];
      KeptLater(front, c, d);
      assert Kept(log, c) == Kept(front, c) + if last > c then [last] else [];
      KeptPlus(Kept(front, c), last, d);
      assert last > c ==> last > d;
      assert Kept(front, c) + [] == Kept(front, c);
      hide Kept;
    }
  }

  /** Two callers a nanosecond apart under limits of two a minute and one an hour: the second is refused, and the minute
      is full with two events for one send. */
  lemma TraceLeft()
    ensures var l, g := LimitsOf(2, 1, 9), LogsOf([], [], []);
            var one := Appends(l, g, 0);
            var two := Appends(l, one.0, 1);
            Try(l, g, 0).1 && Try(l, g, 1).1 && one.1 && !two.1 && two.0.min == [0, 1] && two.0.hour == [0]
  {
    hide Kept;
    KeptNone(0 - MINUTE);
    KeptNone(0 - HOUR);
    KeptNone(0 - DAY);
    KeptNone(1 - MINUTE);
    KeptNone(1 - HOUR);
    KeptNone(1 - DAY);
    KeptPlus([], 0, 1 - MINUTE);
    KeptPlus([], 0, 1 - HOUR);
    assert [] + [0] == [0] && [0] + [1] == [0, 1];
  }
}
