/** Free time from busy intervals: the filter, the sort, the gap walk, and a listing that was cut short. */
module FreeTime {
  import opened Wrappers

  /** An event as the answer shows it: whether it holds time at all, and its span where that reads. */
  datatype Event = Event(holds: bool, span: Option<(int, int)>)

  type Span = (int, int)

  /** span: an end before the start does not read. */
  function Readable(e: Event): bool {
    e.span.Some? && e.span.value.0 <= e.span.value.1
  }

  /** The stretch [p, q] and an event share time; a zero-length event counts as its instant. */
  predicate Meets(h: Span, p: int, q: int) {
    h.0 < q && h.1 > p
  }

  ghost predicate Clear(held: seq<Span>, p: int, q: int) {
    forall i :: 0 <= i < |held| ==> !Meets(held[i], p, q)
  }

  predicate Inside(slot: Span, p: int, q: int) {
    slot.0 <= p && q <= slot.1
  }

  ghost predicate InSome(free: seq<Span>, p: int, q: int) {
    exists i :: 0 <= i < |free| && Inside(free[i], p, q)
  }

  /** Every slot is in the window, long enough and free of every event. */
  ghost predicate SlotsFree(free: seq<Span>, from: int, to: int, held: seq<Span>, need: int) {
    forall i :: 0 <= i < |free| ==>
      from <= free[i].0 && free[i].1 <= to && free[i].1 - free[i].0 >= need && Clear(held, free[i].0, free[i].1)
  }

  ghost predicate Ordered(free: seq<Span>) {
    forall i, j :: 0 <= i < j < |free| ==> free[i].1 <= free[j].0
  }

  /** A stretch of the needed length that meets no event lies in one of the slots. */
  ghost predicate Complete(free: seq<Span>, from: int, to: int, held: seq<Span>, need: int) {
    forall p, q :: from <= p && q <= to && q - p >= need && Clear(held, p, q) ==> InSome(free, p, q)
  }

  ghost predicate IsFreeTime(free: seq<Span>, from: int, to: int, held: seq<Span>, need: int) {
    SlotsFree(free, from, to, held, need) && Ordered(free) && Complete(free, from, to, held, need)
  }

  predicate Starts(held: seq<Span>) {
    forall i, j :: 0 <= i < j < |held| ==> held[i].0 <= held[j].0
  }

  predicate Forward(held: seq<Span>) {
    forall i :: 0 <= i < |held| ==> held[i].0 <= held[i].1
  }

  // ------------------------------------------------------------------ the walk

  /** Up to the cursor, every stretch that counts is in a slot. */
  ghost predicate CompleteUpTo(free: seq<Span>, cursor: int, from: int, to: int, held: seq<Span>, need: int) {
    forall p, q :: from <= p && q <= to && q - p >= need && Clear(held, p, q) ==> p >= cursor || InSome(free, p, q)
  }

  /** Slots found so far end at or before the cursor. */
  ghost predicate EndBy(free: seq<Span>, cursor: int) {
    forall i :: 0 <= i < |free| ==> free[i].1 <= cursor
  }

  method Add(free: seq<Span>, s: int, e: int, need: int) returns (r: seq<Span>)
    ensures r == if e - s >= need then free + [(s, e)] else free
  {
    if e - s >= need {
      return free + [(s, e)];
    }
    return free;
  }

  lemma InSomeGrows(free: seq<Span>, more: seq<Span>, p: int, q: int)
    requires InSome(free, p, q)
    ensures InSome(free + more, p, q)
  {
    var i :| 0 <= i < |free| && Inside(free[i], p, q);
    assert (free + more)[i] == free[i];
  }

  /** One event behind, the cursor moves on and completeness with it. */
  lemma Advance(free: seq<Span>, r: seq<Span>, cursor: int, next: int, i: nat, from: int, to: int, held: seq<Span>, need: int)
    requires CompleteUpTo(free, cursor, from, to, held, need) && i < |held| && need > 0
    requires next == if held[i].1 > cursor then held[i].1 else cursor
    requires r == if held[i].0 > cursor && held[i].0 - cursor >= need then free + [(cursor, held[i].0)] else free
    ensures CompleteUpTo(r, next, from, to, held, need)
  {
    forall p, q | from <= p && q <= to && q - p >= need && Clear(held, p, q) ensures p >= next || InSome(r, p, q) {
      if InSome(free, p, q) {
        InSomeGrows(free, [(cursor, held[i].0)], p, q);
      } else {
        assert !Meets(held[i], p, q);
        if held[i].1 > p {
          assert Inside(r[|r| - 1], p, q);
        }
      }
    }
  }

  lemma SlotBeforeEvent(held: seq<Span>, i: nat, cursor: int, s: int)
    requires Starts(held) && i <= |held|
    requires forall k :: 0 <= k < i ==> held[k].1 <= cursor
    requires i < |held| ==> s <= held[i].0
    ensures Clear(held, cursor, s)
  {}

  /** gaps. */
  method Gaps(from: int, to: int, held: seq<Span>, need: int) returns (free: seq<Span>)
    requires Starts(held) && Forward(held) && need > 0
    ensures IsFreeTime(free, from, to, held, need)
  {
    hide Clear, InSome;
    free := [];
    var cursor, i := from, 0;
    while i < |held| && held[i].0 < to
      invariant 0 <= i <= |held| && from <= cursor
      invariant forall k :: 0 <= k < i ==> held[k].1 <= cursor && held[k].0 < to
      invariant SlotsFree(free, from, to, held, need) && Ordered(free) && EndBy(free, cursor)
      invariant CompleteUpTo(free, cursor, from, to, held, need)
    {
      var h := held[i];
      ghost var before, at := free, cursor;
      if h.0 > cursor {
        SlotBeforeEvent(held, i, cursor, h.0);
        free := Add(free, cursor, h.0, need);
      }
      if h.1 > cursor {
        cursor := h.1;
      }
      Advance(before, free, at, cursor, i, from, to, held, need);
      i := i + 1;
    }
    ghost var before := free;
    SlotBeforeEvent(held, i, cursor, to);
    if to > cursor {
      free := Add(free, cursor, to, need);
    }
    LastGap(before, free, cursor, from, to, held, need);
  }

  lemma LastGap(free: seq<Span>, r: seq<Span>, cursor: int, from: int, to: int, held: seq<Span>, need: int)
    requires CompleteUpTo(free, cursor, from, to, held, need) && need > 0
    requires r == if to > cursor && to - cursor >= need then free + [(cursor, to)] else free
    ensures Complete(r, from, to, held, need)
  {
    forall p, q | from <= p && q <= to && q - p >= need && Clear(held, p, q) ensures InSome(r, p, q) {
      if InSome(free, p, q) {
        InSomeGrows(free, [(cursor, to)], p, q);
      } else {
        assert Inside(r[|r| - 1], p, q);
      }
    }
  }

  // ------------------------------------------------------------ what slots mean

  /** A stretch of some length lies in at most one slot. */
  lemma AtMostOneSlot(free: seq<Span>, p: int, q: int, i: nat, j: nat)
    requires Ordered(free) && p < q && i < |free| && j < |free| && Inside(free[i], p, q) && Inside(free[j], p, q)
    ensures i == j
  {}

  lemma CompleteAt(free: seq<Span>, from: int, to: int, held: seq<Span>, need: int, p: int, q: int)
    requires IsFreeTime(free, from, to, held, need) && from <= p && q <= to && q - p >= need && Clear(held, p, q)
    ensures InSome(free, p, q)
  {
    hide Clear, InSome, Ordered, SlotsFree;
  }

  lemma SlotAt(free: seq<Span>, from: int, to: int, held: seq<Span>, need: int, i: nat)
    requires IsFreeTime(free, from, to, held, need) && i < |free|
    ensures from <= free[i].0 && free[i].1 <= to && free[i].1 - free[i].0 >= need && Clear(held, free[i].0, free[i].1)
  {
    hide Clear, Complete, Ordered;
  }

  lemma OrderedOf(free: seq<Span>, from: int, to: int, held: seq<Span>, need: int)
    requires IsFreeTime(free, from, to, held, need)
    ensures Ordered(free)
  {}

  /** A slot of one answer is a slot of any other. */
  lemma SlotShared(f: seq<Span>, g: seq<Span>, from: int, to: int, held: seq<Span>, need: int, i: nat)
    requires need > 0 && i < |f| && IsFreeTime(f, from, to, held, need) && IsFreeTime(g, from, to, held, need)
    ensures f[i] in g
  {
    hide Clear, IsFreeTime, Ordered;
    SlotAt(f, from, to, held, need, i);
    CompleteAt(g, from, to, held, need, f[i].0, f[i].1);
    var j :| 0 <= j < |g| && Inside(g[j], f[i].0, f[i].1);
    SlotAt(g, from, to, held, need, j);
    CompleteAt(f, from, to, held, need, g[j].0, g[j].1);
    var k :| 0 <= k < |f| && Inside(f[k], g[j].0, g[j].1);
    OrderedOf(f, from, to, held, need);
    AtMostOneSlot(f, f[i].0, f[i].1, i, k);
  }

  predicate Later(f: seq<Span>) {
    forall i, j :: 0 <= i < j < |f| ==> f[i].0 < f[j].0
  }

  lemma FirstIsFirst(f: seq<Span>, g: seq<Span>)
    requires Later(f) && Later(g) && f != [] && g != [] && forall y :: y in f <==> y in g
    ensures f[0] == g[0]
  {
    assert f[0] in g && g[0] in f;
    var i :| 0 <= i < |g| && g[i] == f[0];
    var j :| 0 <= j < |f| && f[j] == g[0];
  }

  lemma RestOf(f: seq<Span>)
    requires Later(f) && f != []
    ensures Later(f[1..]) && forall y :: y in f[1..] <==> y in f && y != f[0]
  {
    assert f == [f[0]] + f[1..];
  }

  /** Two lists of the same slots in order of start are one list. */
  lemma {:induction false} LaterUnique(f: seq<Span>, g: seq<Span>)
    requires Later(f) && Later(g) && forall y :: y in f <==> y in g
    ensures f == g
  {
    hide Later;
    assert f != [] ==> f[0] in g;
    assert g != [] ==> g[0] in f;
    if f != [] && g != [] {
      FirstIsFirst(f, g);
      RestOf(f);
      RestOf(g);
      LaterUnique(f[1..], g[1..]);
      assert f == [f[0]] + f[1..] && g == [g[0]] + g[1..];
    }
  }

  lemma SlotsAreLater(f: seq<Span>, from: int, to: int, held: seq<Span>, need: int)
    requires need > 0 && IsFreeTime(f, from, to, held, need)
    ensures Later(f)
  {
    hide Clear, Complete;
  }

  /** The properties above leave one answer only. */
  lemma FreeTimeIsUnique(f: seq<Span>, g: seq<Span>, from: int, to: int, held: seq<Span>, need: int)
    requires need > 0 && IsFreeTime(f, from, to, held, need) && IsFreeTime(g, from, to, held, need)
    ensures f == g
  {
    hide IsFreeTime, Later;
    forall y | y in f ensures y in g { var i :| 0 <= i < |f| && f[i] == y; SlotShared(f, g, from, to, held, need, i); }
    forall y | y in g ensures y in f { var i :| 0 <= i < |g| && g[i] == y; SlotShared(g, f, from, to, held, need, i); }
    SlotsAreLater(f, from, to, held, need);
    SlotsAreLater(g, from, to, held, need);
    LaterUnique(f, g);
  }

  // --------------------------------------------------------- the filter and sort

  function Held(items: seq<Event>): seq<Span> {
    if items == [] then []
    else
      var init, e := Held(items[..|items| - 1]), items[|items| - 1];
      if e.holds && e.span.Some? then init + [e.span.value] else init
  }

  function Place(s: seq<Span>, x: Span): seq<Span> {
    if s == [] || s[|s| - 1].0 <= x.0 then s + [x] else Place(s[..|s| - 1], x) + [s[|s| - 1]]
  }

  /** slices.SortFunc by start. */
  function SortByStart(s: seq<Span>): seq<Span> {
    if s == [] then [] else Place(SortByStart(s[..|s| - 1]), s[|s| - 1])
  }

  lemma {:induction false} PlaceStarts(s: seq<Span>, x: Span)
    requires Starts(s)
    ensures Starts(Place(s, x)) && forall y :: y in Place(s, x) <==> y in s || y == x
  {
    if s != [] {
      var init, last := s[..|s| - 1], s[|s| - 1];
      assert s == init + [last];
      if last.0 > x.0 {
        PlaceStarts(init, x);
        var p := Place(init, x);
        forall i | 0 <= i < |p| ensures p[i].0 <= last.0 { assert p[i] in p; }
      }
    }
  }

  lemma {:induction false} SortStarts(s: seq<Span>)
    ensures Starts(SortByStart(s)) && forall y :: y in SortByStart(s) <==> y in s
  {
    if s != [] {
      var init := s[..|s| - 1];
      SortStarts(init);
      PlaceStarts(SortByStart(init), s[|s| - 1]);
      assert s == init + [s[|s| - 1]];
    }
  }

  lemma {:induction false} HeldIs(items: seq<Event>)
    requires forall i :: 0 <= i < |items| && items[i].holds ==> Readable(items[i])
    ensures forall y :: y in Held(items) <==> exists i :: 0 <= i < |items| && items[i].holds && items[i].span == Some(y)
  {
    if items != [] {
      var init := items[..|items| - 1];
      HeldIs(init);
      assert forall i :: 0 <= i < |init| ==> init[i] == items[i];
    }
  }

  /** busy: the spans that hold time, by start; not ok when one of them does not read. */
  method Busy(items: seq<Event>) returns (held: seq<Span>, ok: bool)
    ensures ok <==> forall i :: 0 <= i < |items| && items[i].holds ==> Readable(items[i])
    ensures ok ==> Starts(held) && Forward(held)
    ensures ok ==> forall y :: y in held <==> exists i :: 0 <= i < |items| && items[i].holds && items[i].span == Some(y)
  {
    var kept: seq<Span>, i := [], 0;
    while i < |items|
      invariant 0 <= i <= |items|
      invariant forall k :: 0 <= k < i && items[k].holds ==> Readable(items[k])
      invariant kept == Held(items[..i])
    {
      assert items[..i + 1][..i] == items[..i];
      if items[i].holds {
        if !Readable(items[i]) {
          return [], false;
        }
        kept := kept + [items[i].span.value];
      }
      i := i + 1;
    }
    assert items[..i] == items;
    HeldIs(items);
    SortStarts(kept);
    held, ok := SortByStart(kept), true;
    forall k | 0 <= k < |held| ensures held[k].0 <= held[k].1 { assert held[k] in held; assert held[k] in kept; }
  }

  // ---------------------------------------------------------- a cut-short listing

  /** How far the calendar was read: to the window's end, or to the last item's start where that falls inside. */
  function ReadTo(items: seq<Event>, cut: bool, from: int, to: int): int {
    if !cut then to
    else if items != [] && Readable(items[|items| - 1]) && from < items[|items| - 1].span.value.0 < to
    then items[|items| - 1].span.value.0
    else from
  }

  /** The last item of the listing reads, and starts inside the window. */
  predicate LastInside(items: seq<Event>, from: int, to: int) {
    && items != [] && items[|items| - 1].span.Some?
    && items[|items| - 1].span.value.0 <= items[|items| - 1].span.value.1
    && from < items[|items| - 1].span.value.0 < to
  }

  /** The part of availability that turns a listing into free time. */
  method Availability(items: seq<Event>, cut: bool, from: int, to: int, need: int)
    returns (free: seq<Span>, upto: int, ok: bool)
    requires need > 0
    ensures upto == ReadTo(items, cut, from, to)
    ensures !cut ==> upto == to
    ensures cut && LastInside(items, from, to) ==> upto == items[|items| - 1].span.value.0
    ensures cut && !LastInside(items, from, to) ==> upto == from
    ensures ok <==> forall i :: 0 <= i < |items| && items[i].holds ==> Readable(items[i])
    ensures ok ==> exists held :: IsFreeTime(free, from, upto, held, need)
                                  && forall y :: y in held <==> exists i :: 0 <= i < |items| && items[i].holds && items[i].span == Some(y)
  {
    hide IsFreeTime;
    upto := to;
    if cut {
      upto := from;
      if |items| > 0 {
        var last := items[|items| - 1];
        if Readable(last) && last.span.value.0 > from && last.span.value.0 < to {
          upto := last.span.value.0;
        }
      }
    }
    var held, good := Busy(items);
    if !good {
      return [], upto, false;
    }
    free := Gaps(from, upto, held, need);
    ok := true;
  }

  /** A listing cut short claims all the time up to its last item's start: each stretch there of the needed length that meets no event. */
  lemma CutClaimsWhatWasRead(items: seq<Event>, from: int, to: int, held: seq<Span>, need: int, free: seq<Span>, p: int, q: int)
    requires LastInside(items, from, to) && need > 0
    requires IsFreeTime(free, from, ReadTo(items, true, from, to), held, need)
    requires from <= p && q <= items[|items| - 1].span.value.0 && q - p >= need && Clear(held, p, q)
    ensures InSome(free, p, q)
  {
    hide Clear, InSome, Ordered, SlotsFree, IsFreeTime;
    CompleteAt(free, from, ReadTo(items, true, from, to), held, need, p, q);
  }

  /** A listing in start order: what was read, then what was not. */
  ghost predicate InStartOrder(items: seq<Event>, unread: seq<Event>) {
    forall i, j :: 0 <= i < |items| && 0 <= j < |unread| && Readable(items[i]) && Readable(unread[j]) ==>
      items[i].span.value.0 <= unread[j].span.value.0
  }

  /**
   A listing cut short, given in start order, never claims time at or after the first unread
   event's start; so its slots are free of every event, read or not.
   */
  lemma CutNeverOverclaims(items: seq<Event>, unread: seq<Event>, from: int, to: int, held: seq<Span>, need: int, free: seq<Span>, i: nat, j: nat)
    requires InStartOrder(items, unread) && need > 0
    requires IsFreeTime(free, from, ReadTo(items, true, from, to), held, need)
    requires i < |free| && j < |unread| && Readable(unread[j])
    ensures free[i].1 <= unread[j].span.value.0 && !Meets(unread[j].span.value, free[i].0, free[i].1)
  {
    hide Clear, Complete, Ordered;
    assert free[i].1 <= ReadTo(items, true, from, to);
  }
}
