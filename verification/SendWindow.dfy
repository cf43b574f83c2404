/**
 The sliding send window: times of recent sends kept in the key-value store, read,
 filtered and sorted by every call.  Times are milliseconds.
 */
module SendWindows {
  import opened Wrappers

  const MAX_SEND_LIMIT: int := 1000
  const MAX_WINDOW_MINUTES: int := 1440
  const DEFAULT_LIMIT: int := 20
  const DEFAULT_MINUTES: int := 60
  const SKEW: int := 60_000

  /** What the store holds under the window's key. */
  datatype Stored = Missing | Damaged | Times(times: seq<int>)

  datatype Settings = Unreadable | Settings(limit: Option<int>, minutes: Option<int>)

  datatype Verdict = Verdict(ok: bool, sent: nat, limit: int, minutes: int, retryAt: int)

  function Width(minutes: int): int {
    minutes * 60_000
  }

  // ---------------------------------------------------------------- counting

  /** How many of s lie beyond a. */
  function Above(s: seq<int>, a: int): (n: nat)
    ensures n <= |s|
  {
    if s == [] then 0 else Above(s[..|s| - 1], a) + if s[|s| - 1] > a then 1 else 0
  }

  /** How many of s lie in the window that ends at b, its start excluded. */
  function Between(s: seq<int>, a: int, b: int): (n: nat)
    ensures n <= |s|
  {
    if s == [] then 0 else Between(s[..|s| - 1], a, b) + if a < s[|s| - 1] <= b then 1 else 0
  }

  // ------------------------------------------------------------------ sorting

  function Place(s: seq<int>, x: int): (r: seq<int>)
    ensures |r| == |s| + 1
  {
    if s == [] || s[|s| - 1] <= x then s + [x] else Place(s[..|s| - 1], x) + [s[|s| - 1]]
  }

  /** sort.Slice. */
  function Sorted(s: seq<int>): (r: seq<int>)
    ensures |r| == |s|
  {
    if s == [] then [] else Place(Sorted(s[..|s| - 1]), s[|s| - 1])
  }

  predicate Ascending(s: seq<int>) {
    forall i, j :: 0 <= i < j < |s| ==> s[i] <= s[j]
  }

  lemma AboveLast(s: seq<int>, x: int, a: int)
    ensures Above(s + [x], a) == Above(s, a) + if x > a then 1 else 0
  {
    assert (s + [x])[..|s|] == s;
  }

  lemma {:induction false} PlaceAscends(s: seq<int>, x: int)
    requires Ascending(s)
    ensures Ascending(Place(s, x))
    ensures multiset(Place(s, x)) == multiset(s) + multiset{x}
    ensures forall y :: y in Place(s, x) <==> y in s || y == x
  {
    if s != [] {
      var init, last := s[..|s| - 1], s[|s| - 1];
      assert s == init + [last];
      if last > x {
        PlaceAscends(init, x);
        var p := Place(init, x);
        forall i | 0 <= i < |p| ensures p[i] <= last { assert p[i] in p; }
      }
    }
  }

  lemma {:induction false} PlaceCounts(s: seq<int>, x: int, a: int)
    ensures Above(Place(s, x), a) == Above(s, a) + if x > a then 1 else 0
  {
    if s == [] || s[|s| - 1] <= x {
      AboveLast(s, x, a);
    } else {
      PlaceCounts(s[..|s| - 1], x, a);
      AboveLast(Place(s[..|s| - 1], x), s[|s| - 1], a);
    }
  }

  /** Sorting keeps every time, and so every count. */
  lemma {:induction false} SortedKeeps(s: seq<int>)
    ensures Ascending(Sorted(s)) && multiset(Sorted(s)) == multiset(s)
    ensures forall y :: y in Sorted(s) <==> y in s
  {
    hide Place;
    if s != [] {
      var init := s[..|s| - 1];
      SortedKeeps(init);
      PlaceAscends(Sorted(init), s[|s| - 1]);
      assert s == init + [s[|s| - 1]];
    }
  }

  lemma {:induction false} SortedCounts(s: seq<int>, a: int)
    ensures Above(Sorted(s), a) == Above(s, a)
  {
    hide Place;
    if s != [] {
      SortedCounts(s[..|s| - 1], a);
      PlaceCounts(Sorted(s[..|s| - 1]), s[|s| - 1], a);
    }
  }

  // ------------------------------------------------------------ specification

  function Kept(times: seq<int>, from: int, to: int): (r: seq<int>)
    ensures |r| <= |times|
  {
    if times == [] then []
    else
      var init, t := Kept(times[..|times| - 1], from, to), times[|times| - 1];
      if from < t <= to then init + [t] else init
  }

  function Recent(kv: Stored, now: int, minutes: int): seq<int> {
    if kv.Times? then Sorted(Kept(kv.times, now - Width(minutes), now + SKEW)) else []
  }

  /** r holds the stored times later than the window's start and at most a minute ahead, each as often as it is stored, ascending. */
  ghost predicate IsRecent(r: seq<int>, kv: Stored, now: int, minutes: int) {
    && (forall i, j :: 0 <= i < j < |r| ==> r[i] <= r[j])
    && (kv.Times? ==> forall y: int :: multiset(r)[y] == if now - minutes * 60000 < y <= now + 60000 then multiset(kv.times)[y] else 0)
    && (!kv.Times? ==> r == [])
  }

  lemma {:induction false} KeptExactly(times: seq<int>, from: int, to: int, y: int)
    ensures multiset(Kept(times, from, to))[y] == if from < y <= to then multiset(times)[y] else 0
  {
    if times != [] {
      KeptExactly(times[..|times| - 1], from, to, y);
      assert times == times[..|times| - 1] + [times[|times| - 1]];
    }
  }

  lemma RecentExactly(kv: Stored, now: int, minutes: int)
    ensures IsRecent(Recent(kv, now, minutes), kv, now, minutes)
  {
    hide Sorted, Kept;
    if kv.Times? {
      var from, to := now - Width(minutes), now + SKEW;
      SortedKeeps(Kept(kv.times, from, to));
      forall y: int ensures multiset(Kept(kv.times, from, to))[y] == if from < y <= to then multiset(kv.times)[y] else 0 {
        KeptExactly(kv.times, from, to, y);
      }
    }
  }

  predicate InBounds(limit: int, minutes: int) {
    1 <= limit <= MAX_SEND_LIMIT && 1 <= minutes <= MAX_WINDOW_MINUTES
  }

  function Or(o: Option<int>, d: int): int {
    if o.Some? then o.value else d
  }

  function Judged(kv: Stored, now: int, limit: int, minutes: int): Verdict
    requires InBounds(limit, minutes)
  {
    var r := Recent(kv, now, minutes);
    Verdict(|r| < limit, |r|, limit, minutes, if |r| < limit then 0 else r[|r| - limit] + Width(minutes))
  }

  /** What Admit answers: None for a refusal to judge. */
  function Admitted(kv: Stored, now: Option<int>, s: Settings): Option<Verdict> {
    if s.Unreadable? || now.None? then None
    else
      var limit, minutes := Or(s.limit, DEFAULT_LIMIT), Or(s.minutes, DEFAULT_MINUTES);
      if InBounds(limit, minutes) then Some(Judged(kv, now.value, limit, minutes)) else None
  }

  /** Settings that read, within their bounds; one that is not set stands at its default, which is. */
  predicate SettingsOK(s: Settings) {
    s.Settings? && (s.limit.Some? ==> 1 <= s.limit.value <= 1000) && (s.minutes.Some? ==> 1 <= s.minutes.value <= 1440)
  }

  function Newest(s: seq<int>): seq<int> {
    if |s| > MAX_SEND_LIMIT then s[|s| - MAX_SEND_LIMIT..] else s
  }

  function Recorded(kv: Stored, now: int, minutes: int): Stored {
    Times(Newest(Recent(kv, now, minutes) + [now]))
  }

  // ---------------------------------------------------------------- the program

  class SendWindow {
    var kv: Stored

    constructor ()
      ensures kv == Missing
    {
      kv := Missing;
    }

    /** recent; get: whether the store answered. */
    method ReadRecent(now: int, minutes: int, get: bool) returns (r: Option<seq<int>>)
      ensures r == if get then Some(Recent(kv, now, minutes)) else None
      ensures get ==> IsRecent(r.value, kv, now, minutes)
    {
      RecentExactly(kv, now, minutes);
      if !get {
        return None;
      }
      if !kv.Times? {
        return Some([]);
      }
      var times := kv.times;
      var from, to := now - minutes * 60_000, now + SKEW;
      var kept: seq<int> := [];
      var i := 0;
      while i < |times|
        invariant 0 <= i <= |times|
        invariant kept == Kept(times[..i], from, to)
      {
        assert times[..i + 1][..i] == times[..i];
        var t := times[i];
        if t > from && t <= to {
          kept := kept + [t];
        }
        i := i + 1;
      }
      assert times[..i] == times;
      return Some(Sorted(kept));
    }

    method Admit(now: Option<int>, s: Settings, get: bool) returns (v: Option<Verdict>)
      ensures v == if get then Admitted(kv, now, s) else None
      ensures v.Some? <==> get && now.Some? && SettingsOK(s)
      ensures v.Some? ==> exists r ::
                && IsRecent(r, kv, now.value, v.value.minutes)
                && v.value.limit == (if s.limit.Some? then s.limit.value else 20)
                && v.value.minutes == (if s.minutes.Some? then s.minutes.value else 60)
                && v.value.sent == |r| && (v.value.ok <==> |r| < v.value.limit)
                && (v.value.ok ==> v.value.retryAt == 0)
                && (!v.value.ok ==> 0 < v.value.limit <= |r| && v.value.retryAt == r[|r| - v.value.limit] + v.value.minutes * 60000)
    {
      hide Sorted, Kept, IsRecent;
      if s.Unreadable? {
        return None;
      }
      var limit, minutes := DEFAULT_LIMIT, DEFAULT_MINUTES;
      if s.limit.Some? { limit := s.limit.value; }
      if s.minutes.Some? { minutes := s.minutes.value; }
      if limit < 1 || limit > MAX_SEND_LIMIT || minutes < 1 || minutes > MAX_WINDOW_MINUTES || now.None? {
        return None;
      }
      var read := ReadRecent(now.value, minutes, get);
      if read.None? {
        return None;
      }
      var recent := read.value;
      var ok, retryAt := |recent| < limit, 0;
      if !ok {
        retryAt := recent[|recent| - limit] + minutes * 60_000;
      }
      return Some(Verdict(ok, |recent|, limit, minutes, retryAt));
    }

    /** Record; get and put: whether the store answered the read and took the write. */
    method Record(now: Option<int>, v: Verdict, get: bool, put: bool) returns (ok: bool)
      modifies this
      ensures ok <==> now.Some? && get && put
      ensures kv == if ok then Recorded(old(kv), now.value, v.minutes) else old(kv)
      ensures ok ==> exists r ::
                && IsRecent(r, old(kv), now.value, v.minutes)
                && kv == Times(if |r| + 1 > 1000 then (r + [now.value])[|r| + 1 - 1000..] else r + [now.value])
    {
      hide IsRecent;
      if now.None? {
        return false;
      }
      var read := ReadRecent(now.value, v.minutes, get);
      if read.None? {
        return false;
      }
      var recent := read.value + [now.value];
      if |recent| > MAX_SEND_LIMIT {
        recent := recent[|recent| - MAX_SEND_LIMIT..];
      }
      if !put {
        return false;
      }
      kv := Times(recent);
      return true;
    }
  }

  // ------------------------------------------------------------------- every run

  /** The store, every send recorded so far, and the last time a call was given. */
  datatype World = World(kv: Stored, log: seq<int>, clock: int)

  /** One call at a time; counts: the send went, or may have gone. */
  datatype Send = Send(now: int, counts: bool)

  function Do(w: World, s: Send, limit: int, minutes: int): World
    requires InBounds(limit, minutes)
  {
    if Judged(w.kv, s.now, limit, minutes).ok && s.counts
    then World(Recorded(w.kv, s.now, minutes), w.log + [s.now], s.now)
    else w.(clock := s.now)
  }

  ghost predicate Run(ws: seq<World>, sends: seq<Send>, limit: int, minutes: int) {
    && InBounds(limit, minutes)
    && |ws| == |sends| + 1
    && ws[0].kv == Missing && ws[0].log == []
    && forall i :: 0 <= i < |sends| ==> sends[i].now >= ws[i].clock && ws[i + 1] == Do(ws[i], sends[i], limit, minutes)
  }

  ghost predicate NoLater(s: seq<int>, clock: int) {
    forall i :: 0 <= i < |s| ==> s[i] <= clock
  }

  function TimesOf(kv: Stored): seq<int> {
    if kv.Times? then kv.times else []
  }

  /** The store holds exactly the recorded sends that can still count, and no window was ever overfull. */
  ghost predicate Inv(w: World, limit: int, minutes: int) {
    && NoLater(w.log, w.clock) && NoLater(TimesOf(w.kv), w.clock)
    && (forall a :: a >= w.clock - Width(minutes) ==> Above(w.log, a) == Above(TimesOf(w.kv), a))
    && WithinLimit(w.log, limit, minutes)
  }

  /** How many sends the window that ends at x contains. */
  function InWindow(log: seq<int>, minutes: int, x: int): nat {
    Between(log, x - Width(minutes), x)
  }

  ghost predicate WithinLimit(log: seq<int>, limit: int, minutes: int) {
    forall x :: InWindow(log, minutes, x) <= limit
  }

  lemma {:induction false} KeptBounds(times: seq<int>, from: int, to: int)
    ensures NoLater(Kept(times, from, to), to)
    ensures forall i :: 0 <= i < |Kept(times, from, to)| ==> Kept(times, from, to)[i] > from
  {
    if times != [] { KeptBounds(times[..|times| - 1], from, to); }
  }

  /** Beyond the window's start, the kept times count as the stored ones do. */
  lemma {:induction false} KeptCounts(times: seq<int>, from: int, to: int, a: int)
    requires a >= from && NoLater(times, to)
    ensures Above(Kept(times, from, to), a) == Above(times, a)
    ensures a == from ==> |Kept(times, from, to)| == Above(times, a)
  {
    if times != [] {
      var init, t := times[..|times| - 1], times[|times| - 1];
      assert t <= to && NoLater(init, to);
      KeptCounts(init, from, to, a);
      AboveLast(Kept(init, from, to), t, a);
      AboveLast(init, t, a);
      assert times == init + [t];
      hide Above, NoLater;
    }
  }

  lemma NoLaterMono(s: seq<int>, a: int, b: int)
    requires NoLater(s, a) && a <= b
    ensures NoLater(s, b)
  {}

  /** What a call reads: the stored times of its window, sorted. */
  lemma RecentCounts(kv: Stored, now: int, minutes: int, a: int)
    requires NoLater(TimesOf(kv), now + SKEW) && a >= now - Width(minutes)
    ensures Above(Recent(kv, now, minutes), a) == Above(TimesOf(kv), a)
    ensures |Recent(kv, now, minutes)| == Above(TimesOf(kv), now - Width(minutes))
    ensures Ascending(Recent(kv, now, minutes))
    ensures forall i :: 0 <= i < |Recent(kv, now, minutes)| ==> Recent(kv, now, minutes)[i] > now - Width(minutes)
  {
    hide Sorted, Above, Kept;
    if kv.Times? {
      var from, to := now - Width(minutes), now + SKEW;
      var k := Kept(kv.times, from, to);
      KeptCounts(kv.times, from, to, a);
      KeptCounts(kv.times, from, to, from);
      KeptBounds(kv.times, from, to);
      SortedKeeps(k);
      SortedCounts(k, a);
      forall i | 0 <= i < |Sorted(k)| ensures Sorted(k)[i] > from { assert Sorted(k)[i] in Sorted(k); assert Sorted(k)[i] in k; }
    } else {
      NothingAbove(a);
      NothingAbove(now - Width(minutes));
    }
  }

  lemma NothingAbove(a: int)
    ensures Above([], a) == 0
  {}

  lemma BetweenLast(s: seq<int>, x: int, a: int, b: int)
    ensures Between(s + [x], a, b) == Between(s, a, b) + if a < x <= b then 1 else 0
  {
    assert (s + [x])[..|s|] == s;
  }

  lemma {:induction false} BetweenAtMostAbove(s: seq<int>, a: int, b: int)
    ensures Between(s, a, b) <= Above(s, a)
    ensures NoLater(s, b) ==> Between(s, a, b) == Above(s, a)
  {
    if s != [] { BetweenAtMostAbove(s[..|s| - 1], a, b); }
  }

  lemma {:induction false} AboveMono(s: seq<int>, a: int, b: int)
    requires a <= b
    ensures Above(s, b) <= Above(s, a)
  {
    if s != [] { AboveMono(s[..|s| - 1], a, b); }
  }

  /** Recording a send that was admitted leaves no window overfull. */
  lemma RecordedWithin(w: World, now: int, limit: int, minutes: int)
    requires InBounds(limit, minutes) && Inv(w, limit, minutes) && now >= w.clock
    requires Judged(w.kv, now, limit, minutes).ok
    ensures WithinLimit(w.log + [now], limit, minutes)
  {
    hide Above, Between, Recent;
    var width := Width(minutes);
    NoLaterMono(TimesOf(w.kv), w.clock, now + SKEW);
    RecentCounts(w.kv, now, minutes, now - width);
    assert Above(w.log, now - width) < limit;
    forall x ensures InWindow(w.log + [now], minutes, x) <= limit {
      assert InWindow(w.log, minutes, x) <= limit;
      BetweenLast(w.log, now, x - width, x);
      if x >= now {
        BetweenAtMostAbove(w.log, x - width, x);
        AboveMono(w.log, now - width, x - width);
      }
    }
  }

  lemma StoredMatches(w: World, now: int, limit: int, minutes: int, a: int)
    requires InBounds(limit, minutes) && Inv(w, limit, minutes) && now >= w.clock && a >= now - Width(minutes)
    requires Judged(w.kv, now, limit, minutes).ok
    ensures Above(w.log + [now], a) == Above(TimesOf(Recorded(w.kv, now, minutes)), a)
  {
    hide Above, Recent;
    var r := Recent(w.kv, now, minutes);
    NoLaterMono(TimesOf(w.kv), w.clock, now + SKEW);
    RecentCounts(w.kv, now, minutes, a);
    AboveLast(w.log, now, a);
    AboveLast(r, now, a);
  }

  lemma RecordedNoLater(w: World, now: int, limit: int, minutes: int)
    requires InBounds(limit, minutes) && Inv(w, limit, minutes) && now >= w.clock
    requires Judged(w.kv, now, limit, minutes).ok
    ensures NoLater(TimesOf(Recorded(w.kv, now, minutes)), now)
  {
    hide Above, Sorted, Kept, Between;
    if w.kv.Times? {
      var k := Kept(w.kv.times, now - Width(minutes), now + SKEW);
      KeptWithin(w.kv.times, now - Width(minutes), now + SKEW);
      SortedKeeps(k);
      forall i | 0 <= i < |Sorted(k)| ensures Sorted(k)[i] <= now { assert Sorted(k)[i] in Sorted(k); assert Sorted(k)[i] in k; }
    }
  }

  lemma {:induction false} KeptWithin(times: seq<int>, from: int, to: int)
    ensures forall i :: 0 <= i < |Kept(times, from, to)| ==> Kept(times, from, to)[i] in times
  {
    if times != [] {
      KeptWithin(times[..|times| - 1], from, to);
    }
  }

  lemma StepKeeps(w: World, s: Send, limit: int, minutes: int)
    requires InBounds(limit, minutes) && Inv(w, limit, minutes) && s.now >= w.clock
    ensures Inv(Do(w, s, limit, minutes), limit, minutes)
  {
    hide Above, Between, Recorded, WithinLimit;
    var v := Do(w, s, limit, minutes);
    NoLaterMono(w.log, w.clock, s.now);
    NoLaterMono(TimesOf(w.kv), w.clock, s.now);
    if Judged(w.kv, s.now, limit, minutes).ok && s.counts {
      RecordedWithin(w, s.now, limit, minutes);
      RecordedNoLater(w, s.now, limit, minutes);
      forall a | a >= s.now - Width(minutes) ensures Above(v.log, a) == Above(TimesOf(v.kv), a) {
        StoredMatches(w, s.now, limit, minutes, a);
      }
    }
  }

  lemma {:induction false} RunKeeps(ws: seq<World>, sends: seq<Send>, limit: int, minutes: int, n: nat)
    requires Run(ws, sends, limit, minutes) && n <= |sends|
    ensures Inv(ws[n], limit, minutes)
  {
    hide Do;
    if n > 0 {
      RunKeeps(ws, sends, limit, minutes, n - 1);
      StepKeeps(ws[n - 1], sends[n - 1], limit, minutes);
    }
  }

  /** In every run, no window of the set length ever contains more recorded sends than the limit. */
  lemma NoWindowOverfull(ws: seq<World>, sends: seq<Send>, limit: int, minutes: int, n: nat, x: int)
    requires Run(ws, sends, limit, minutes) && n <= |sends|
    ensures InWindow(ws[n].log, minutes, x) <= limit
  {
    hide InWindow, Above, Do;
    RunKeeps(ws, sends, limit, minutes, n);
  }

  /** In every run, a call is admitted exactly when fewer sends than the limit were recorded in the window ending now. */
  lemma AdmitIsExact(ws: seq<World>, sends: seq<Send>, limit: int, minutes: int, n: nat, now: int)
    requires Run(ws, sends, limit, minutes) && n <= |sends| && now >= ws[n].clock
    ensures Judged(ws[n].kv, now, limit, minutes).ok <==> InWindow(ws[n].log, minutes, now) < limit
    ensures Judged(ws[n].kv, now, limit, minutes).sent == InWindow(ws[n].log, minutes, now)
  {
    hide Do, Between, Above, Recent;
    var w := ws[n];
    RunKeeps(ws, sends, limit, minutes, n);
    NoLaterMono(TimesOf(w.kv), w.clock, now + SKEW);
    NoLaterMono(w.log, w.clock, now);
    RecentCounts(w.kv, now, minutes, now - Width(minutes));
    BetweenAtMostAbove(w.log, now - Width(minutes), now);
  }

  /** The same of what Admit answers, over its settings: 20 sends in 60 minutes where they are not set. */
  lemma AdmitIsExactForSettings(ws: seq<World>, sends: seq<Send>, s: Settings, n: nat, now: int)
    requires SettingsOK(s)
    requires Run(ws, sends, if s.limit.Some? then s.limit.value else 20, if s.minutes.Some? then s.minutes.value else 60)
    requires n <= |sends| && now >= ws[n].clock
    ensures var limit, minutes := if s.limit.Some? then s.limit.value else 20, if s.minutes.Some? then s.minutes.value else 60;
            && Admitted(ws[n].kv, Some(now), s).Some?
            && (Admitted(ws[n].kv, Some(now), s).value.ok <==> Between(ws[n].log, now - minutes * 60000, now) < limit)
  {
    hide Judged, Between, Run;
    AdmitIsExact(ws, sends, if s.limit.Some? then s.limit.value else 20, if s.minutes.Some? then s.minutes.value else 60, n, now);
  }

  /** The sends of a window are those later than its start and no later than its end. */
  lemma {:induction false} BetweenCounts(log: seq<int>, a: int, b: int) returns (at: seq<nat>)
    ensures |at| == Between(log, a, b)
    ensures forall i, j :: 0 <= i < j < |at| ==> at[i] < at[j]
    ensures forall k :: k in at <==> 0 <= k < |log| && a < log[k] <= b
  {
    if log == [] {
      at := [];
    } else {
      var m := |log| - 1;
      var init := BetweenCounts(log[..m], a, b);
      at := if a < log[m] <= b then init + [m] else init;
      forall i | 0 <= i < |init| ensures init[i] < m { assert init[i] in init; }
    }
  }

  // --------------------------------------------------------------- the retry time

  /** In an ascending list, at least k lie beyond a exactly when the k-th from the end does. */
  lemma {:induction false} AboveAscending(r: seq<int>, k: nat, a: int)
    requires Ascending(r) && 1 <= k <= |r|
    ensures Above(r, a) >= k <==> r[|r| - k] > a
  {
    var init := r[..|r| - 1];
    if r[|r| - 1] <= a {
      NoneAbove(r, a);
    } else if k > 1 {
      AboveAscending(init, k - 1, a);
    }
  }

  lemma {:induction false} NoneAbove(r: seq<int>, a: int)
    requires NoLater(r, a)
    ensures Above(r, a) == 0
  {
    if r != [] { NoneAbove(r[..|r| - 1], a); }
  }

  /**
   A refusal's retry time is the earliest later time at which the same store admits:
   every call from now on is admitted exactly when it comes at that time or after it.
   */
  lemma RetryIsExact(kv: Stored, now: int, limit: int, minutes: int, x: int)
    requires InBounds(limit, minutes) && NoLater(TimesOf(kv), now + SKEW)
    requires !Judged(kv, now, limit, minutes).ok && x >= now
    ensures Judged(kv, now, limit, minutes).retryAt > now
    ensures Judged(kv, x, limit, minutes).ok <==> x >= Judged(kv, now, limit, minutes).retryAt
  {
    hide Above, Recent;
    var a := x - Width(minutes);
    RecentCounts(kv, now, minutes, a);
    NoLaterMono(TimesOf(kv), now + SKEW, x + SKEW);
    RecentCounts(kv, x, minutes, a);
    AboveAscending(Recent(kv, now, minutes), limit, a);
  }

  /** In every run a refusal's retry time is exact, if nothing more is sent. */
  lemma RetryIsExactInRuns(ws: seq<World>, sends: seq<Send>, limit: int, minutes: int, n: nat, now: int, x: int)
    requires Run(ws, sends, limit, minutes) && n <= |sends| && now >= ws[n].clock && x >= now
    requires !Judged(ws[n].kv, now, limit, minutes).ok
    ensures Judged(ws[n].kv, now, limit, minutes).retryAt > now
    ensures Judged(ws[n].kv, x, limit, minutes).ok <==> x >= Judged(ws[n].kv, now, limit, minutes).retryAt
  {
    hide Do, Between, Above, Recent, Judged;
    RunKeeps(ws, sends, limit, minutes, n);
    NoLaterMono(TimesOf(ws[n].kv), ws[n].clock, now + SKEW);
    RetryIsExact(ws[n].kv, now, limit, minutes, x);
  }
}
