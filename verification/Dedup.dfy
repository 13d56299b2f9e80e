/** Duplicate detection with a bounded record of recent messages. A key stands for (iccid, to, body): the
    fingerprint is taken to be injective. Times are integers and a run's clock never goes back. */
module Dedup {

  type Key = string
  type Time = int

  datatype Entry = Entry(key: Key, ts: Time)

  const DEFAULT_MAX_SIZE := 100

  /** An entry that makes a message a duplicate. */
  predicate Matches(e: Entry, key: Key, now: Time, window: int) {
    e.key == key && now - e.ts < window
  }

  predicate Found(entries: seq<Entry>, key: Key, now: Time, window: int) {
    exists i :: 0 <= i < |entries| && Matches(entries[i], key, now, window)
  }

  /** The last n elements, or all. */
  function Last<T>(s: seq<T>, n: nat): seq<T> {
    if |s| <= n then s else s[|s| - n..]
  }

  function Recorded(entries: seq<Entry>, maxSize: nat, e: Entry): seq<Entry> {
    Last(entries + [e], maxSize)
  }

  class Ring {
    var entries: seq<Entry>
    const maxSize: nat
    const window: int

    ghost predicate Valid()
      reads this
    {
      maxSize > 0 && |entries| <= maxSize
    }

    /** New: a size that is not positive becomes the default. */
    constructor (size: int, w: int)
      ensures Valid() && entries == [] && window == w && maxSize == (if size <= 0 then 100 else size)
    {
      maxSize := if size <= 0 then DEFAULT_MAX_SIZE else size;
      window := w;
      entries := [];
    }

    /** IsDuplicate: scans the ring; what is new is recorded, at the cost of the oldest entry when the ring is full. */
    method IsDuplicate(key: Key, now: Time) returns (dup: bool)
      requires Valid()
      modifies this`entries
      ensures Valid()
      ensures dup == old(Found(entries, key, now, window))
      ensures entries == if dup then old(entries) else Recorded(old(entries), maxSize, Entry(key, now))
    {
      for i := 0 to |entries|
        invariant entries == old(entries)
        invariant forall k :: 0 <= k < i ==> !Matches(entries[k], key, now, window)
      {
        if entries[i].key == key && now - entries[i].ts < window {
          assert Matches(entries[i], key, now, window);
          return true;
        }
      }
      if |entries| >= maxSize {
        entries := entries[1..];
      }
      entries := entries + [Entry(key, now)];
      return false;
    }
  }

  // ---- Runs ----

  datatype Call = Call(key: Key, now: Time)

  /** All messages recorded in a run of calls, the oldest first. */
  function History(calls: seq<Call>, maxSize: nat, window: int): seq<Entry> {
    if calls == [] then []
    else
      var h := History(calls[..|calls| - 1], maxSize, window);
      var c := calls[|calls| - 1];
      if Found(Last(h, maxSize), c.key, c.now, window) then h else h + [Entry(c.key, c.now)]
  }

  /** The ring's contents after a run of calls. */
  function RingAfter(calls: seq<Call>, maxSize: nat, window: int): seq<Entry> {
    if calls == [] then []
    else
      var r := RingAfter(calls[..|calls| - 1], maxSize, window);
      var c := calls[|calls| - 1];
      if Found(r, c.key, c.now, window) then r else Recorded(r, maxSize, Entry(c.key, c.now))
  }

  lemma LastOfLast<T>(s: seq<T>, e: T, n: nat)
    ensures Last(Last(s, n) + [e], n) == Last(s + [e], n)
  {
  }

  /** The ring always holds the last maxSize recorded messages. */
  lemma {:induction false} RingIsLast(calls: seq<Call>, maxSize: nat, window: int)
    ensures RingAfter(calls, maxSize, window) == Last(History(calls, maxSize, window), maxSize)
  {
    if calls != [] {
      hide Last, Found;
      RingIsLast(calls[..|calls| - 1], maxSize, window);
      var c := calls[|calls| - 1];
      LastOfLast(History(calls[..|calls| - 1], maxSize, window), Entry(c.key, c.now), maxSize);
    } else {
      assert Last<Entry>([], maxSize) == [];
    }
  }

  ghost predicate Monotone(calls: seq<Call>) {
    forall i, j :: 0 <= i < j < |calls| ==> calls[i].now <= calls[j].now
  }

  /** Two records of one key, closer in time than the window, are at least maxSize records apart. */
  ghost predicate Spaced(h: seq<Entry>, maxSize: nat, window: int) {
    forall i, j :: 0 <= i < j < |h| && h[i].key == h[j].key && h[j].ts - h[i].ts < window ==> j - i - 1 >= maxSize
  }

  /** In every run a message accepted twice within the window was pushed out in between: at least maxSize other messages
      were recorded after it. */
  lemma {:induction false} AcceptedTwiceIsSpaced(calls: seq<Call>, maxSize: nat, window: int)
    ensures Spaced(History(calls, maxSize, window), maxSize, window)
  {
    if calls != [] {
      AcceptedTwiceIsSpaced(calls[..|calls| - 1], maxSize, window);
      var h := History(calls[..|calls| - 1], maxSize, window);
      var c := calls[|calls| - 1];
      RecordKeepsSpaced(h, c, maxSize, window);
    }
  }

  lemma RecordKeepsSpaced(h: seq<Entry>, c: Call, maxSize: nat, window: int)
    requires Spaced(h, maxSize, window)
    ensures !Found(Last(h, maxSize), c.key, c.now, window) ==> Spaced(h + [Entry(c.key, c.now)], maxSize, window)
  {
    var h' := h + [Entry(c.key, c.now)];
    if !Found(Last(h, maxSize), c.key, c.now, window) {
      forall i, j | 0 <= i < j < |h'| && h'[i].key == h'[j].key && h'[j].ts - h'[i].ts < window
        ensures j - i - 1 >= maxSize
      {
        if j == |h| { MissedIsOld(h, c, maxSize, window, i); }
      }
    }
  }

  /** A match that the ring does not show lies maxSize records back or more. */
  lemma MissedIsOld(h: seq<Entry>, c: Call, maxSize: nat, window: int, i: nat)
    requires i < |h| && Matches(h[i], c.key, c.now, window) && !Found(Last(h, maxSize), c.key, c.now, window)
    ensures |h| - i - 1 >= maxSize
  {
    var r := Last(h, maxSize);
    var off := |h| - |r|;
    assert forall k :: off <= k < |h| ==> r[k - off] == h[k];
    assert forall k :: 0 <= k < |r| ==> !Matches(r[k], c.key, c.now, window);
  }

  ghost predicate InOrder(h: seq<Entry>) {
    forall i, j :: 0 <= i <= j < |h| ==> h[i].ts <= h[j].ts
  }

  lemma {:induction false} HistoryInOrder(calls: seq<Call>, maxSize: nat, window: int)
    requires Monotone(calls)
    ensures var h := History(calls, maxSize, window);
            InOrder(h) && (h != [] ==> calls != [] && h[|h| - 1].ts <= calls[|calls| - 1].now)
  {
    if calls != [] {
      HistoryInOrder(calls[..|calls| - 1], maxSize, window);
      hide Found;
    }
  }

  /** Where a key was recorded last, -1 when it never was. */
  function Newest(h: seq<Entry>, key: Key): (n: int)
    ensures -1 <= n < |h|
  {
    if h == [] then -1 else if h[|h| - 1].key == key then |h| - 1 else Newest(h[..|h| - 1], key)
  }

  lemma {:induction false} NewestIsLast(h: seq<Entry>, key: Key)
    ensures var n := Newest(h, key);
            && (n >= 0 ==> h[n].key == key)
            && forall i :: n < i < |h| ==> h[i].key != key
  {
    if h != [] { NewestIsLast(h[..|h| - 1], key); }
  }

  /** The newest record of a key decides, for any stretch of the history that ends at its end. */
  lemma NewestDecides(h: seq<Entry>, from: nat, key: Key, now: Time, window: int)
    requires InOrder(h) && from <= |h|
    ensures var n := Newest(h, key); Found(h[from..], key, now, window) <==> from <= n && now - h[n].ts < window
  {
    NewestIsLast(h, key);
    var n := Newest(h, key);
    if i :| 0 <= i < |h[from..]| && Matches(h[from..][i], key, now, window) {
      assert h[from..][i] == h[from + i];
      assert from + i <= n && h[from + i].ts <= h[n].ts;
    }
    if from <= n && now - h[n].ts < window {
      assert Matches(h[from..][n - from], key, now, window);
    }
  }

  /** After any run the ring answers like the whole history would, except exactly when the newest record of the key is
      still within the window but maxSize or more records have been made since. */
  lemma AgreesWithHistory(calls: seq<Call>, maxSize: nat, window: int, key: Key, now: Time)
    requires Monotone(calls)
    ensures var h := History(calls, maxSize, window);
            var n := Newest(h, key);
            (Found(RingAfter(calls, maxSize, window), key, now, window) == Found(h, key, now, window)
             <==> !(n >= 0 && now - h[n].ts < window && |h| - 1 - n >= maxSize))
  {
    hide Found, History, RingAfter;
    var h := History(calls, maxSize, window);
    RingIsLast(calls, maxSize, window);
    HistoryInOrder(calls, maxSize, window);
    NewestIsLast(h, key);
    hide Newest, Monotone;
    var from := if |h| <= maxSize then 0 else |h| - maxSize;
    assert Last(h, maxSize) == h[from..] && h[0..] == h;
    NewestDecides(h, from, key, now, window);
    NewestDecides(h, 0, key, now, window);
  }

  // ---- By the answers alone ----

  /** The answer to call i of a run. */
  ghost predicate IsDup(calls: seq<Call>, maxSize: nat, window: int, i: nat)
    requires i < |calls|
  {
    Found(RingAfter(calls[..i], maxSize, window), calls[i].key, calls[i].now, window)
  }

  /** How many of the calls from i to j - 1 were answered "new". */
  ghost function News(calls: seq<Call>, maxSize: nat, window: int, i: nat, j: nat): nat
    requires i <= j <= |calls|
  {
    if i == j then 0 else News(calls, maxSize, window, i, j - 1) + if IsDup(calls, maxSize, window, j - 1) then 0 else 1
  }

  lemma {:induction false} NewsAdd(calls: seq<Call>, maxSize: nat, window: int, i: nat, k: nat, j: nat)
    requires i <= k <= j <= |calls|
    ensures News(calls, maxSize, window, i, j) == News(calls, maxSize, window, i, k) + News(calls, maxSize, window, k, j)
    decreases j
  {
    if k < j {
      hide IsDup;
      NewsAdd(calls, maxSize, window, i, k, j - 1);
    }
  }

  lemma {:induction false} HistoryLength(calls: seq<Call>, maxSize: nat, window: int, j: nat)
    requires j <= |calls|
    ensures |History(calls[..j], maxSize, window)| == News(calls, maxSize, window, 0, j)
    ensures j == 0 ==> News(calls, maxSize, window, 0, j) == 0
    decreases j
  {
    if j > 0 {
      HistoryStep(calls, maxSize, window, j - 1);
      hide History, IsDup;
      HistoryLength(calls, maxSize, window, j - 1);
    }
  }

  /** A new call's record stands in the history where its number among the new ones says. */
  lemma {:induction false} RecordOf(calls: seq<Call>, maxSize: nat, window: int, i: nat, j: nat)
    requires i < j <= |calls| && !IsDup(calls, maxSize, window, i)
    ensures var h, p := History(calls[..j], maxSize, window), News(calls, maxSize, window, 0, i);
            p < |h| && h[p] == Entry(calls[i].key, calls[i].now)
    decreases j
  {
    hide *;
    HistoryStep(calls, maxSize, window, j - 1);
    if i < j - 1 { RecordOf(calls, maxSize, window, i, j - 1); } else { HistoryLength(calls, maxSize, window, i); }
  }

  /** And every record is a new call's. */
  lemma {:induction false} CallOf(calls: seq<Call>, maxSize: nat, window: int, j: nat, p: nat) returns (i: nat)
    requires j <= |calls| && p < |History(calls[..j], maxSize, window)|
    ensures i < j && !IsDup(calls, maxSize, window, i) && News(calls, maxSize, window, 0, i) == p
    ensures History(calls[..j], maxSize, window)[p] == Entry(calls[i].key, calls[i].now)
    decreases j
  {
    hide *;
    HistoryLength(calls, maxSize, window, j);
    HistoryStep(calls, maxSize, window, j - 1);
    HistoryLength(calls, maxSize, window, j - 1);
    if p < |History(calls[..j - 1], maxSize, window)| {
      i := CallOf(calls, maxSize, window, j - 1, p);
    } else {
      i := j - 1;
    }
  }

  lemma HistoryStep(calls: seq<Call>, maxSize: nat, window: int, j: nat)
    requires j < |calls|
    ensures var h, c := History(calls[..j], maxSize, window), calls[j];
            History(calls[..j + 1], maxSize, window)
            == if IsDup(calls, maxSize, window, j) then h else h + [Entry(c.key, c.now)]
  {
    assert calls[..j + 1][..j] == calls[..j];
    RingIsLast(calls[..j], maxSize, window);
    hide Found, Last;
  }

  /** Call i makes call j a duplicate: it was new, has the same key, is less than the window old, and fewer than maxSize
      calls were new in between. */
  ghost predicate Remembered(calls: seq<Call>, maxSize: nat, window: int, i: nat, j: nat)
    requires i < j < |calls|
  {
    && !IsDup(calls, maxSize, window, i)
    && calls[i].key == calls[j].key && calls[j].now - calls[i].now < window
    && News(calls, maxSize, window, i + 1, j) < maxSize
  }

  /** A message is called a duplicate exactly when an earlier message is still remembered. */
  lemma DuplicateExactly(calls: seq<Call>, maxSize: nat, window: int, j: nat)
    requires j < |calls|
    ensures IsDup(calls, maxSize, window, j) <==> exists i: nat :: i < j && Remembered(calls, maxSize, window, i, j)
  {
    hide IsDup, Remembered;
    if IsDup(calls, maxSize, window, j) { var i := RememberedCall(calls, maxSize, window, j); }
    if i: nat :| i < j && Remembered(calls, maxSize, window, i, j) { RememberedIsDup(calls, maxSize, window, i, j); }
  }

  /** Where record p of a history stands among the last n. */
  lemma LastAt<T>(h: seq<T>, n: nat, p: nat)
    requires p < |h|
    ensures |h| - p <= n ==> 0 <= p - (|h| - |Last(h, n)|) < |Last(h, n)| && Last(h, n)[p - (|h| - |Last(h, n)|)] == h[p]
  {
  }

  lemma RememberedCall(calls: seq<Call>, maxSize: nat, window: int, j: nat) returns (i: nat)
    requires j < |calls| && IsDup(calls, maxSize, window, j)
    ensures i < j && Remembered(calls, maxSize, window, i, j)
  {
    var h := History(calls[..j], maxSize, window);
    RingIsLast(calls[..j], maxSize, window);
    var r := Last(h, maxSize);
    var q :| 0 <= q < |r| && Matches(r[q], calls[j].key, calls[j].now, window);
    var p: nat := |h| - |r| + q;
    assert h[p] == r[q] && |h| - p <= maxSize;
    hide History, RingAfter, News, Last, Found;
    HistoryLength(calls, maxSize, window, j);
    i := CallOf(calls, maxSize, window, j, p);
    NewsBetween(calls, maxSize, window, i, j);
  }

  lemma RememberedIsDup(calls: seq<Call>, maxSize: nat, window: int, i: nat, j: nat)
    requires i < j < |calls| && Remembered(calls, maxSize, window, i, j)
    ensures IsDup(calls, maxSize, window, j)
  {
    hide History, RingAfter, News, Last;
    var h := History(calls[..j], maxSize, window);
    RingIsLast(calls[..j], maxSize, window);
    HistoryLength(calls, maxSize, window, j);
    NewsBetween(calls, maxSize, window, i, j);
    RecordOf(calls, maxSize, window, i, j);
    var p := News(calls, maxSize, window, 0, i);
    LastAt(h, maxSize, p);
    assert Matches(Last(h, maxSize)[p - (|h| - |Last(h, maxSize)|)], calls[j].key, calls[j].now, window);
  }

  lemma NewsBetween(calls: seq<Call>, maxSize: nat, window: int, i: nat, j: nat)
    requires i < j <= |calls| && !IsDup(calls, maxSize, window, i)
    ensures News(calls, maxSize, window, 0, j)
            == News(calls, maxSize, window, 0, i) + 1 + News(calls, maxSize, window, i + 1, j)
  {
    NewsAdd(calls, maxSize, window, 0, i + 1, j);
    hide IsDup;
  }
}
