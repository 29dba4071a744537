/** The fixed-window request limiter of the record service. */
module RateLimiting {

  // The minute of a key's last request, and how many requests it made in that minute.
  datatype Window = Window(minute: nat, count: nat)

  type Windows = map<string, Window>

  datatype Request = Request(key: string, now: nat)

  function Minute(now: nat): nat {
    now / 60
  }

  function Next(limit: nat, windows: Windows, r: Request): (Windows, bool) {
    if limit == 0 then (windows, true)
    else
      var minute := Minute(r.now);
      var count := if r.key in windows && windows[r.key].minute == minute then windows[r.key].count + 1 else 1;
      (windows[r.key := Window(minute, count)], count <= limit)
  }

  class RateLimiter {
    const limit: nat
    var windows: Windows

    constructor (limit: nat)
      ensures this.limit == limit && windows == map[]
    {
      this.limit := limit;
      windows := map[];
    }

    method Allow(key: string, now: nat) returns (allowed: bool)
      modifies this
      ensures (windows, allowed) == Next(limit, old(windows), Request(key, now))
    {
      if limit == 0 {
        return true;
      }
      var minute := now / 60;
      var entry := if key in windows then windows[key] else Window(minute, 0);
      if entry.minute != minute {
        entry := Window(minute, 0);
      }
      entry := entry.(count := entry.count + 1);
      windows := windows[key := entry];
      allowed := entry.count <= limit;
    }
  }

  /* ---------- whole runs ---------- */

  function After(limit: nat, run: seq<Request>): Windows {
    if run == [] then map[] else Next(limit, After(limit, run[..|run| - 1]), run[|run| - 1]).0
  }

  // The answer to request i of a run.
  predicate Allowed(limit: nat, run: seq<Request>, i: nat)
    requires i < |run|
  {
    Next(limit, After(limit, run[..i]), run[i]).1
  }

  predicate ClockAdvances(run: seq<Request>) {
    forall i, j :: 0 <= i < j < |run| ==> run[i].now <= run[j].now
  }

  // How many requests the key made in minute m.
  function Requested(run: seq<Request>, key: string, m: nat): nat {
    if run == [] then 0
    else
      var r := run[|run| - 1];
      Requested(run[..|run| - 1], key, m) + (if r.key == key && Minute(r.now) == m then 1 else 0)
  }

  // How many of its requests were allowed from time `first` up to `last`.
  function Granted(limit: nat, run: seq<Request>, key: string, first: nat, last: nat): nat {
    if run == [] then 0
    else
      var r := run[|run| - 1];
      Granted(limit, run[..|run| - 1], key, first, last)
        + (if r.key == key && first <= r.now <= last && Allowed(limit, run, |run| - 1) then 1 else 0)
  }

  // How many were allowed in minute m.
  function GrantedIn(limit: nat, run: seq<Request>, key: string, m: nat): nat {
    Granted(limit, run, key, 60 * m, 60 * m + 59)
  }

  // The key made a request in minute m.
  predicate Asks(r: Request, key: string, m: nat) {
    r.key == key && Minute(r.now) == m
  }

  // The key made a request in minute m and later one in another minute.
  predicate Left(run: seq<Request>, key: string, m: nat) {
    exists i, j :: 0 <= i < j < |run| && Asks(run[i], key, m) && run[j].key == key && !Asks(run[j], key, m)
  }

  // The key left minute m and came back to it.
  predicate Returns(run: seq<Request>, key: string, m: nat) {
    exists i, j, k ::
      0 <= i < j < k < |run| && Asks(run[i], key, m)
      && run[j].key == key && !Asks(run[j], key, m) && Asks(run[k], key, m)
  }

  lemma {:induction false} RequestedSome(run: seq<Request>, key: string, m: nat)
    ensures Requested(run, key, m) > 0 <==> exists i :: 0 <= i < |run| && Asks(run[i], key, m)
  {
    hide Minute;
    if run != [] {
      var before := run[..|run| - 1];
      RequestedSome(before, key, m);
      assert forall i :: 0 <= i < |before| ==> before[i] == run[i];
    }
  }

  lemma LeftLast(run: seq<Request>, key: string, m: nat)
    requires run != []
    ensures var (before, r) := (run[..|run| - 1], run[|run| - 1]);
            Left(run, key, m)
            <==> (Left(before, key, m) || (Requested(before, key, m) > 0 && r.key == key && !Asks(r, key, m)))
  {
    var before := run[..|run| - 1];
    RequestedSome(before, key, m);
    assert forall i :: 0 <= i < |before| ==> before[i] == run[i];
    hide Asks, Requested;
  }

  lemma ReturnsLast(run: seq<Request>, key: string, m: nat)
    requires run != []
    ensures var (before, r) := (run[..|run| - 1], run[|run| - 1]);
            Returns(run, key, m) <==> (Returns(before, key, m) || (Left(before, key, m) && Asks(r, key, m)))
  {
    var before := run[..|run| - 1];
    assert forall i :: 0 <= i < |before| ==> before[i] == run[i];
    hide Asks;
  }

  // What the window of a key says about minute m, whatever the clock does: while the key is in that
  // minute and has not returned to it, the window counts its requests; in another minute, requests
  // of minute m are ones it has left behind.
  predicate WindowHolds(limit: nat, run: seq<Request>, key: string, m: nat) {
    var windows := After(limit, run);
    if key !in windows then Requested(run, key, m) == 0 && !Left(run, key, m)
    else if windows[key].minute != m then Requested(run, key, m) > 0 <==> Left(run, key, m)
    else
      Requested(run, key, m) > 0
      && if Returns(run, key, m) then Left(run, key, m)
         else !Left(run, key, m) && windows[key].count == Requested(run, key, m)
  }

  lemma {:induction false} WindowsHold(limit: nat, run: seq<Request>, key: string, m: nat)
    requires limit > 0
    ensures WindowHolds(limit, run, key, m)
    ensures Returns(run, key, m) ==> Left(run, key, m)
  {
    if run != [] {
      WindowsHold(limit, run[..|run| - 1], key, m);
      LeftLast(run, key, m);
      ReturnsLast(run, key, m);
      hide Minute, Left, Returns;
    }
  }

  lemma MinuteRange(now: nat, m: nat)
    ensures Minute(now) == m <==> 60 * m <= now <= 60 * m + 59
    ensures 60 * Minute(now) <= now <= 60 * Minute(now) + 59
    ensures Minute(60 * m) == m
  {
  }

  function Min(a: nat, b: nat): nat {
    if a <= b then a else b
  }

  // A key that has not returned to a minute is allowed exactly its first `limit` requests there.
  lemma {:induction false} ExactlyTheLimit(limit: nat, run: seq<Request>, key: string, m: nat)
    requires limit > 0 && !Returns(run, key, m)
    ensures GrantedIn(limit, run, key, m) == Min(Requested(run, key, m), limit)
  {
    if run != [] {
      var (before, r) := (run[..|run| - 1], run[|run| - 1]);
      ReturnsLast(run, key, m);
      ExactlyTheLimit(limit, before, key, m);
      WindowsHold(limit, before, key, m);
      MinuteRange(r.now, m);
      hide Minute, Left, Returns;
      assert Allowed(limit, run, |run| - 1) == Next(limit, After(limit, before), r).1;
    }
  }

  // With a limit of one, a key that has returned to a minute is allowed two requests there.
  lemma {:induction false} ReturningIsAllowedTwice(run: seq<Request>, key: string, m: nat)
    ensures Requested(run, key, m) > 0 ==> GrantedIn(1, run, key, m) >= 1
    ensures Returns(run, key, m) ==> GrantedIn(1, run, key, m) >= 2
  {
    if run != [] {
      var (before, r) := (run[..|run| - 1], run[|run| - 1]);
      ReturnsLast(run, key, m);
      ReturningIsAllowedTwice(before, key, m);
      WindowsHold(1, before, key, m);
      MinuteRange(r.now, m);
      hide Minute, Left, Returns;
      assert Allowed(1, run, |run| - 1) == Next(1, After(1, before), r).1;
    }
  }

  // A key is held to every limit at once exactly when it does not return to the minute.
  lemma LimitHoldsExactlyWhen(run: seq<Request>, key: string, m: nat)
    ensures (forall limit: nat :: limit > 0 ==> GrantedIn(limit, run, key, m) <= limit)
            <==> !Returns(run, key, m)
  {
    if Returns(run, key, m) {
      ReturningIsAllowedTwice(run, key, m);
      assert GrantedIn(1, run, key, m) > 1;
    } else {
      forall limit: nat | limit > 0 ensures GrantedIn(limit, run, key, m) <= limit {
        ExactlyTheLimit(limit, run, key, m);
      }
    }
  }

  // A clock that never steps back brings no key back to a minute it has left.
  lemma AdvancingClockNeverReturns(run: seq<Request>, key: string, m: nat)
    requires ClockAdvances(run)
    ensures !Returns(run, key, m)
  {
  }

  lemma {:induction false} GrantedSplits(limit: nat, run: seq<Request>, key: string, first: nat, middle: nat, last: nat)
    requires first <= middle < last
    ensures Granted(limit, run, key, first, last)
              == Granted(limit, run, key, first, middle) + Granted(limit, run, key, middle + 1, last)
  {
    if run != [] {
      GrantedSplits(limit, run[..|run| - 1], key, first, middle, last);
      hide Allowed;
    }
  }

  lemma {:induction false} GrantedWithin(limit: nat, run: seq<Request>, key: string, first: nat, last: nat,
      from: nat, to: nat)
    requires from <= first && last <= to
    ensures Granted(limit, run, key, first, last) <= Granted(limit, run, key, from, to)
  {
    if run != [] {
      GrantedWithin(limit, run[..|run| - 1], key, first, last, from, to);
      hide Allowed;
    }
  }

  lemma {:induction false} MinutesAreBounded(limit: nat, run: seq<Request>, key: string, first: nat, last: nat, n: nat)
    requires limit > 0 && first <= last && Minute(last) == Minute(first) + n
    requires forall m: nat :: Minute(first) <= m <= Minute(last) ==> !Returns(run, key, m)
    ensures Granted(limit, run, key, first, last) <= limit * (1 + n)
    decreases n
  {
    var m := Minute(first);
    var end := 60 * m + 59;
    ExactlyTheLimit(limit, run, key, m);
    MinuteRange(first, m);
    MinuteRange(last, m);
    MinuteRange(end + 1, m + 1);
    hide Minute, Granted, Requested, Returns;
    if n == 0 {
      GrantedWithin(limit, run, key, first, last, 60 * m, end);
    } else {
      GrantedWithin(limit, run, key, first, end, 60 * m, end);
      GrantedSplits(limit, run, key, first, end, last);
      MinutesAreBounded(limit, run, key, end + 1, last, n - 1);
      OneMore(limit, n);
    }
  }

  lemma OneMore(limit: nat, n: nat)
    requires n > 0
    ensures limit + limit * (1 + (n - 1)) == limit * (1 + n)
  {
  }

  lemma Scale(limit: nat, a: int, b: int)
    requires a <= b
    ensures limit * a <= limit * b
  {
  }

  // In any w consecutive seconds a key is allowed at most limit * (1 + (w + 58) / 60) requests, when
  // it returns to none of the minutes they touch.
  lemma AnyWindowIsBounded(limit: nat, run: seq<Request>, key: string, start: nat, w: nat)
    requires limit > 0 && w >= 1
    requires forall m: nat :: Minute(start) <= m <= Minute(start + w - 1) ==> !Returns(run, key, m)
    ensures Granted(limit, run, key, start, start + w - 1) <= limit * (1 + (w + 58) / 60)
  {
    MinutesAreBounded(limit, run, key, start, start + w - 1, Minute(start + w - 1) - Minute(start));
    Scale(limit, 1 + Minute(start + w - 1) - Minute(start), 1 + (w + 58) / 60);
  }

  /* ---------- stays in a minute ---------- */

  // How many requests the key has made in minute m since it last was in another one.
  function Current(run: seq<Request>, key: string, m: nat): nat {
    if run == [] then 0
    else
      var (before, r) := (run[..|run| - 1], run[|run| - 1]);
      if r.key != key then Current(before, key, m) else if Asks(r, key, m) then Current(before, key, m) + 1 else 0
  }

  // The lengths of the stays it has ended.
  function Ended(run: seq<Request>, key: string, m: nat): seq<nat> {
    if run == [] then []
    else
      var (before, r) := (run[..|run| - 1], run[|run| - 1]);
      var current := Current(before, key, m);
      Ended(before, key, m) + (if r.key == key && !Asks(r, key, m) && current > 0 then [current] else [])
  }

  function Stays(run: seq<Request>, key: string, m: nat): seq<nat> {
    Ended(run, key, m) + (if Current(run, key, m) > 0 then [Current(run, key, m)] else [])
  }

  // The requests of each stay up to the limit, added up.
  function Capped(limit: nat, stays: seq<nat>): nat {
    if stays == [] then 0 else Capped(limit, stays[..|stays| - 1]) + Min(stays[|stays| - 1], limit)
  }

  lemma CappedNext(limit: nat, stays: seq<nat>, stay: nat)
    ensures Capped(limit, stays + [stay]) == Capped(limit, stays) + Min(stay, limit)
  {
    assert (stays + [stay])[..|stays|] == stays;
  }

  // The window counts the current stay.
  lemma {:induction false} WindowIsCurrent(limit: nat, run: seq<Request>, key: string, m: nat)
    requires limit > 0
    ensures var windows := After(limit, run);
            && (key in windows ==> windows[key].count > 0)
            && Current(run, key, m) == if key in windows && windows[key].minute == m then windows[key].count else 0
  {
    if run != [] {
      WindowIsCurrent(limit, run[..|run| - 1], key, m);
      hide Minute;
    }
  }

  // With any clock, a key is allowed in a minute the first `limit` requests of each of its stays there.
  lemma {:induction false} EachStayHasTheLimit(limit: nat, run: seq<Request>, key: string, m: nat)
    requires limit > 0
    ensures GrantedIn(limit, run, key, m) == Capped(limit, Stays(run, key, m))
  {
    if run != [] {
      var (before, r) := (run[..|run| - 1], run[|run| - 1]);
      EachStayHasTheLimit(limit, before, key, m);
      WindowIsCurrent(limit, before, key, m);
      MinuteRange(r.now, m);
      hide Minute, Capped;
      assert Allowed(limit, run, |run| - 1) == Next(limit, After(limit, before), r).1;
      CappedNext(limit, Ended(before, key, m), Current(before, key, m));
      CappedNext(limit, Ended(run, key, m), Current(run, key, m));
      assert Ended(before, key, m) + [] == Ended(before, key, m) && Ended(run, key, m) + [] == Ended(run, key, m);
    }
  }

  // A key has returned to a minute when it has stayed there more than once.
  lemma {:induction false} ReturnsAreStays(run: seq<Request>, key: string, m: nat)
    ensures Left(run, key, m) <==> Ended(run, key, m) != []
    ensures Requested(run, key, m) > 0 <==> Stays(run, key, m) != []
    ensures Returns(run, key, m) <==> |Stays(run, key, m)| > 1
  {
    if run != [] {
      var (before, r) := (run[..|run| - 1], run[|run| - 1]);
      ReturnsAreStays(before, key, m);
      LeftLast(run, key, m);
      ReturnsLast(run, key, m);
      hide Minute, Left, Returns;
    }
  }

  /* ---------- other keys ---------- */

  // The requests of one key.
  function Only(run: seq<Request>, key: string): seq<Request> {
    if run == [] then []
    else
      var (before, r) := (run[..|run| - 1], run[|run| - 1]);
      if r.key == key then Only(before, key) + [r] else Only(before, key)
  }

  predicate SameWindow(a: Windows, b: Windows, key: string) {
    (key in a <==> key in b) && (key in a ==> a[key] == b[key])
  }

  lemma {:induction false} WindowIsOwn(limit: nat, run: seq<Request>, key: string)
    ensures SameWindow(After(limit, run), After(limit, Only(run, key)), key)
  {
    if run != [] {
      var (before, r) := (run[..|run| - 1], run[|run| - 1]);
      WindowIsOwn(limit, before, key);
      if r.key == key {
        var own := Only(before, key) + [r];
        assert own[..|own| - 1] == Only(before, key) && own[|own| - 1] == r;
      }
    }
  }

  // A request's answer depends on the earlier requests of its own key alone, with any clock.
  lemma OtherKeysDoNotMatter(limit: nat, run: seq<Request>, i: nat, other: seq<Request>, j: nat)
    requires i < |run| && j < |other| && run[i] == other[j]
    requires Only(run[..i], run[i].key) == Only(other[..j], run[i].key)
    ensures Allowed(limit, run, i) == Allowed(limit, other, j)
  {
    WindowIsOwn(limit, run[..i], run[i].key);
    WindowIsOwn(limit, other[..j], run[i].key);
    hide After, Only;
  }
}
