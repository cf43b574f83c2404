/** Every run of the mailbox channel: no message before the saved cursor is ever lost. */
module MailboxRuns {
  import opened Mailbox
  import opened Wrappers

  /** The part of the history that a rebaseline passes over. */
  datatype Gap = Gap(from: nat, upto: nat)

  /** The store, the mailbox's history up to now, and what has happened to its messages. */
  datatype World = World(kv: State, history: seq<Record>, now: nat, acked: set<Arrival>, gone: set<nat>, gaps: set<Gap>, base: nat)

  /** Before the first call. */
  const EMPTY: World := World(State(None, NOTHING_PENDING, 0), [], 0, {}, {}, {}, 0)

  datatype Step = Grow(records: seq<Record>, upto: nat) | Call(recorded: seq<Arrival>, net: Net) | StartWatch(puts: nat)

  // ------------------------------------------------------- the mailbox's contract

  ghost predicate Ascending(rs: seq<Record>) {
    forall i, j :: 0 <= i < j < |rs| ==> rs[i].id < rs[j].id
  }

  /** The history records placed after a cursor, in order. */
  function After(h: seq<Record>, c: nat): seq<Record> {
    if h == [] then [] else if h[0].id > c then h else After(h[1..], c)
  }

  /** A listing is a first part of what comes after the cursor, and all of it when no page remains. */
  ghost predicate Honest(w: World, c: nat, l: Listing) {
    l.Listed? ==>
      && l.records <= After(w.history, c)
      && (!l.more ==> l.records == After(w.history, c))
      && (l.current.Some? ==> c <= l.current.value <= w.now)
  }

  ghost predicate Enabled(w: World, s: Step) {
    match s
    case Grow(records, upto) =>
      upto >= w.now && Ascending(records) && forall i :: 0 <= i < |records| ==> w.now < records[i].id <= upto
    case Call(recorded, net) =>
      && (net.profile.Some? ==> net.profile.value == w.now)
      && (Confirmed(w.kv, recorded).cursor.Some? ==> Honest(w, Confirmed(w.kv, recorded).cursor.value, net.listing))
    case StartWatch(_) => true
  }

  /** Mail before the first saved cursor was never asked for. */
  function Based(w: World, kv: State): nat {
    if w.kv.cursor.None? && kv.cursor.Some? then kv.cursor.value else w.base
  }

  /** What a call that found the history expired passes over, once its batch is stored. */
  function Passed(s: State, o: Outcome, net: Net): set<Gap> {
    if net.listing.Expired? && s.cursor.Some? && net.profile.Some? && o.out != [] && net.puts >= 2
      then {Gap(s.cursor.value, net.profile.value)} else {}
  }

  /** The messages a call was told are absent from the mailbox: of those listed, or of the recent ones where the history had expired. */
  function Missing(s: State, net: Net): set<nat> {
    if s.cursor.None? then {}
    else match net.listing
      case Unlisted => {}
      case Expired =>
        if net.recent.None? then {} else set i | 0 <= i < |net.recent.value| && net.fetch(net.recent.value[i]).Absent? :: net.recent.value[i]
      case Listed(rs, _, _) =>
        set r, i | r in rs && 0 <= i < |r.ids| && net.fetch(r.ids[i]).Absent? :: r.ids[i]
  }

  function Do(w: World, s: Step): World {
    match s
    case Grow(records, upto) => w.(history := w.history + records, now := upto)
    case Call(recorded, net) =>
      var o := Sync(w.kv, recorded, net);
      w.(kv := o.kv, acked := w.acked + (set a | a in recorded), gone := w.gone + Missing(Confirmed(w.kv, recorded), net),
         gaps := w.gaps + Passed(Confirmed(w.kv, recorded), o, net), base := Based(w, o.kv))
    case StartWatch(puts) =>
      var kv := Watch(w.kv, w.now, puts);
      w.(kv := kv, base := Based(w, kv))
  }

  ghost predicate Run(ws: seq<World>, steps: seq<Step>) {
    && |ws| == |steps| + 1
    && ws[0] == EMPTY
    && forall i :: 0 <= i < |steps| ==> Enabled(ws[i], steps[i]) && ws[i + 1] == Do(ws[i], steps[i])
  }

  // ------------------------------------------------------------------ invariants

  /** The host acknowledged the message, it was absent when fetched, or an acknowledged notice covers it. */
  predicate Settled(r: Record, i: nat, acked: set<Arrival>, gone: set<nat>)
    requires i < |r.ids|
  {
    || Mail(r.ids[i]) in acked
    || r.ids[i] in gone
    || (i >= MAX_ARRIVALS && CutNotice(r.id) in acked)
  }

  /**
   The record lies in a part passed over whose notice the host acknowledged.  A gap notice
   is known by the cursor it was written for alone, so acknowledging the notice of one
   rebaseline also covers a later and longer part passed over from the same cursor.
   */
  predicate Covered(r: Record, acked: set<Arrival>, gaps: set<Gap>) {
    exists g :: g in gaps && g.from < r.id <= g.upto && GapNotice(g.from) in acked
  }

  ghost predicate Fine(r: Record, acked: set<Arrival>, w: World) {
    RecordSettled(r, acked, w.gone) || Covered(r, acked, w.gaps)
  }

  ghost predicate SettledThrough(w: World, upto: nat, acked: set<Arrival>) {
    forall r :: r in w.history && w.base < r.id <= upto ==> Fine(r, acked, w)
  }

  ghost predicate RecordSettled(r: Record, acked: set<Arrival>, gone: set<nat>) {
    forall i :: 0 <= i < |r.ids| ==> Settled(r, i, acked, gone)
  }

  function Set(ids: seq<Arrival>): set<Arrival> {
    set a | a in ids
  }

  ghost predicate History(w: World) {
    Ascending(w.history) && forall i :: 0 <= i < |w.history| ==> w.history[i].id <= w.now
  }

  /** Everything up to the cursor is settled. */
  ghost predicate CursorGood(w: World, cursor: Option<nat>) {
    cursor.Some? ==> cursor.value <= w.now && SettledThrough(w, cursor.value, w.acked)
  }

  /** Everything up to where a batch leads is settled once the batch is acknowledged. */
  ghost predicate PendingGood(w: World, p: Pending) {
    p.next.Some? ==> p.next.value <= w.now && SettledThrough(w, p.next.value, w.acked + Set(p.ids))
  }

  ghost predicate Inv(w: World) {
    && History(w)
    && CursorGood(w, w.kv.cursor)
    && PendingGood(w, w.kv.pend)
    && (w.kv.cursor.None? ==> w.kv.pend.next.None?)
  }

  // --------------------------------------------------------------- what one walk does

  lemma SettledMono(r: Record, a: set<Arrival>, b: set<Arrival>, g: set<nat>, h: set<nat>)
    requires RecordSettled(r, a, g) && a <= b && g <= h
    ensures RecordSettled(r, b, h)
  {
    forall i | 0 <= i < |r.ids| ensures Settled(r, i, b, h) {
      assert Settled(r, i, a, g);
    }
  }

  lemma FineMono(r: Record, a: set<Arrival>, b: set<Arrival>, w: World, v: World)
    requires Fine(r, a, w) && a <= b && w.gone <= v.gone && w.gaps <= v.gaps
    ensures Fine(r, b, v)
  {
    hide RecordSettled;
    if RecordSettled(r, a, w.gone) { SettledMono(r, a, b, w.gone, v.gone); }
  }

  /** A walk only adds. */
  lemma {:induction false} TakeAdds(ids: seq<nat>, w: Walk, net: Net)
    ensures var t := Take(ids, w, net); Set(w.out) <= Set(t.out) && w.absent <= t.absent
    ensures var t := Take(ids, w, net);
            !t.stopped ==> forall i :: 0 <= i < |ids| ==> Mail(ids[i]) in t.out || ids[i] in t.absent
    ensures |Take(ids, w, net).out| <= |w.out| + |ids|
    decreases |ids|
  {
    if ids != [] {
      var v := match net.fetch(ids[0])
        case Failed => w
        case Absent => w.(absent := w.absent + {ids[0]})
        case Arrives(ms) => w.(out := w.out + [Mail(ids[0])], lastMS := if ms > w.lastMS then ms else w.lastMS);
      TakeAdds(ids[1..], v, net);
      var t := Take(ids, w, net);
      if !net.fetch(ids[0]).Failed? {
        assert net.fetch(ids[0]).Arrives? ==> Mail(ids[0]) in Set(v.out);
        forall i | 0 <= i < |ids| && !t.stopped ensures Mail(ids[i]) in t.out || ids[i] in t.absent {
          if i > 0 { assert ids[i] == ids[1..][i - 1]; }
        }
      }
    }
  }

  /** Only a message whose fetch answered that it is absent is counted so. */
  lemma {:induction false} TakeMisses(ids: seq<nat>, w: Walk, net: Net)
    ensures forall id :: id in Take(ids, w, net).absent ==> id in w.absent || (id in ids && net.fetch(id).Absent?)
    decreases |ids|
  {
    if ids != [] {
      var v := match net.fetch(ids[0])
        case Failed => w
        case Absent => w.(absent := w.absent + {ids[0]})
        case Arrives(ms) => w.(out := w.out + [Mail(ids[0])], lastMS := if ms > w.lastMS then ms else w.lastMS);
      TakeMisses(ids[1..], v, net);
      assert forall id :: id in ids[1..] ==> id in ids;
    }
  }

  lemma {:induction false} WalkMisses(rs: seq<Record>, next: nat, w: Walk, net: Net, listed: seq<Record>)
    requires forall r :: r in rs ==> r in listed
    ensures forall id :: id in WalkFrom(rs, next, w, net).w.absent ==>
              id in w.absent || exists r :: r in listed && id in r.ids && net.fetch(id).Absent?
    decreases |rs|
  {
    hide Take;
    if rs != [] && !(|rs[0].ids| > MAX_ARRIVALS - |w.out| && w.out != []) {
      var room := MAX_ARRIVALS - |w.out|;
      TakeMisses(Cut(rs[0], room), w, net);
      assert rs[0] in listed && forall id :: id in Cut(rs[0], room) ==> id in rs[0].ids;
      var t := WalkRecord(rs[0], w, net);
      if !t.stopped { WalkMisses(rs[1..], rs[0].id, t, net, listed); }
    }
  }

  lemma BackwardsSame(hits: seq<nat>)
    ensures forall id :: id in Backwards(hits) <==> id in hits
  {
    if hits != [] {
      BackwardsSame(hits[..|hits| - 1]);
      assert hits == hits[..|hits| - 1] + [hits[|hits| - 1]];
    }
  }

  /** Whatever a call counts as absent was answered so in that very call. */
  lemma AbsentWasAnswered(kv: State, recorded: seq<Arrival>, net: Net)
    ensures forall id :: id in Sync(kv, recorded, net).absent ==> net.fetch(id).Absent?
    ensures Sync(kv, recorded, net).absent <= Missing(Confirmed(kv, recorded), net)
  {
    hide WalkFrom, Take, Confirmed;
    var s := Confirmed(kv, recorded);
    var start := Walk([], s.lastMS, {}, false);
    if s.cursor.Some? && net.listing.Listed? {
      WalkMisses(net.listing.records, s.cursor.value, start, net, net.listing.records);
    } else if s.cursor.Some? && net.listing.Expired? && net.recent.Some? {
      BackwardsSame(Newest(net.recent.value));
      TakeMisses(Backwards(Newest(net.recent.value)), start, net);
    }
  }

  /** A record walked to its end is settled by what was handed over. */
  lemma RecordWalked(r: Record, w: Walk, net: Net)
    requires !(|r.ids| > MAX_ARRIVALS - |w.out| && w.out != [])
    ensures var t := WalkRecord(r, w, net); Set(w.out) <= Set(t.out) && w.absent <= t.absent
    ensures var t := WalkRecord(r, w, net); !t.stopped ==> RecordSettled(r, Set(t.out), t.absent)
    ensures |WalkRecord(r, w, net).out| <= MAX_ARRIVALS + 1 || WalkRecord(r, w, net).out == w.out
  {
    hide Take;
    var room := MAX_ARRIVALS - |w.out|;
    TakeAdds(Cut(r, room), w, net);
    var t := WalkRecord(r, w, net);
    if !t.stopped {
      forall i | 0 <= i < |r.ids| ensures Settled(r, i, Set(t.out), t.absent) {
        if i < |Cut(r, room)| { assert Cut(r, room)[i] == r.ids[i]; }
      }
    }
  }

  ghost predicate AllSettled(rs: seq<Record>, next: nat, acked: set<Arrival>, gone: set<nat>) {
    forall i :: 0 <= i < |rs| && rs[i].id <= next ==> RecordSettled(rs[i], acked, gone)
  }

  /** The walk leaves every record up to the point it names settled, and names one it was given. */
  lemma {:induction false} WalkSettles(rs: seq<Record>, next: nat, w: Walk, net: Net)
    requires Ascending(rs) && forall i :: 0 <= i < |rs| ==> next < rs[i].id
    ensures var x := WalkFrom(rs, next, w, net);
            Set(w.out) <= Set(x.w.out) && w.absent <= x.w.absent
            && AllSettled(rs, x.next, Set(x.w.out), x.w.absent)
            && (x.next == next || exists i :: 0 <= i < |rs| && rs[i].id == x.next)
    ensures var x := WalkFrom(rs, next, w, net);
            !x.more ==> forall i :: 0 <= i < |rs| ==> rs[i].id <= x.next
    decreases |rs|
  {
    hide Take, WalkRecord, RecordSettled;
    if rs != [] && !(|rs[0].ids| > MAX_ARRIVALS - |w.out| && w.out != []) {
      RecordWalked(rs[0], w, net);
      var t := WalkRecord(rs[0], w, net);
      if !t.stopped {
        WalkSettles(rs[1..], rs[0].id, t, net);
        var x := WalkFrom(rs, next, w, net);
        assert x == WalkFrom(rs[1..], rs[0].id, t, net);
        SettledMono(rs[0], Set(t.out), Set(x.w.out), t.absent, x.w.absent);
        forall i | 0 <= i < |rs| && rs[i].id <= x.next ensures RecordSettled(rs[i], Set(x.w.out), x.w.absent) {
          if i > 0 { assert rs[i] == rs[1..][i - 1]; }
        }
        if x.next != rs[0].id {
          var k :| 0 <= k < |rs[1..]| && rs[1..][k].id == x.next;
          assert rs[k + 1].id == x.next;
        }
        if !x.more {
          forall i | 0 <= i < |rs| ensures rs[i].id <= x.next {
            if i > 0 { assert rs[i] == rs[1..][i - 1]; }
          }
        }
      }
    }
  }

  lemma {:induction false} AfterHolds(h: seq<Record>, c: nat)
    requires Ascending(h)
    ensures var a := After(h, c);
            Ascending(a) && (forall i :: 0 <= i < |a| ==> a[i].id > c && a[i] in h)
            && forall r :: r in h && r.id > c ==> r in a
    decreases |h|
  {
    if h != [] {
      HeadFirst(h);
      if h[0].id <= c { AfterHolds(h[1..], c); }
    }
  }

  lemma HeadFirst(h: seq<Record>)
    requires Ascending(h) && h != []
    ensures Ascending(h[1..]) && h[0] in h
    ensures forall r :: r in h <==> r == h[0] || r in h[1..]
    ensures forall i :: 0 <= i < |h| ==> h[0].id <= h[i].id
  {
    assert h == [h[0]] + h[1..];
  }

  /** A record at or before the end of a first part of an ascending list is in that part. */
  lemma WithinPrefix(l: seq<Record>, a: seq<Record>, r: Record, next: nat)
    requires l <= a && Ascending(a) && r in a && r.id <= next
    requires l == a || exists k :: 0 <= k < |l| && l[k].id == next
    ensures r in l
  {
    var j :| 0 <= j < |a| && a[j] == r;
    if l != a {
      var k :| 0 <= k < |l| && l[k].id == next;
      assert a[k] == l[k];
      assert j <= k;
      assert l[j] == a[j];
    }
  }

  // ------------------------------------------------------------------- every step

  lemma PartOf(l: seq<Record>, a: seq<Record>, c: nat)
    requires l <= a && Ascending(a) && forall i :: 0 <= i < |a| ==> a[i].id > c
    ensures Ascending(l) && forall i :: 0 <= i < |l| ==> c < l[i].id
  {}

  lemma NextIsListed(w: World, l: seq<Record>, a: seq<Record>, next: nat)
    requires History(w) && l <= a && forall i :: 0 <= i < |a| ==> a[i] in w.history
    requires exists k :: 0 <= k < |l| && l[k].id == next
    ensures next <= w.now
  {
    var k :| 0 <= k < |l| && l[k].id == next;
    assert a[k] == l[k];
  }

  /** Where a call's walk ends, everything since its cursor is settled by what it handed over. */
  lemma ReachSettles(w: World, c: nat, l: Listing, lastMS: int, net: Net)
    requires Inv(w) && l.Listed? && Honest(w, c, l) && c <= w.now
    ensures var y := Onward(l, WalkFrom(l.records, c, Walk([], lastMS, {}, false), net));
            y.next <= w.now && forall r :: r in w.history && c < r.id <= y.next ==> RecordSettled(r, Set(y.w.out), y.w.absent)
  {
    hide WalkFrom, RecordSettled, Set, After, CursorGood, PendingGood;
    var a := After(w.history, c);
    AfterHolds(w.history, c);
    PartOf(l.records, a, c);
    var x := WalkFrom(l.records, c, Walk([], lastMS, {}, false), net);
    WalkSettles(l.records, c, Walk([], lastMS, {}, false), net);
    var y := Onward(l, x);
    if x.next != c { NextIsListed(w, l.records, a, x.next); }
    forall r | r in w.history && c < r.id <= y.next ensures RecordSettled(r, Set(y.w.out), y.w.absent) {
      WithinPrefix(l.records, a, r, y.next);
      var i :| 0 <= i < |l.records| && l.records[i] == r;
    }
  }

  lemma SettledGrows(w: World, v: World, upto: nat, a: set<Arrival>, b: set<Arrival>)
    requires SettledThrough(w, upto, a) && a <= b && w.gone <= v.gone && w.gaps <= v.gaps
    requires v.history == w.history && w.base <= v.base
    ensures SettledThrough(v, upto, b)
  {
    hide Fine;
    forall r | r in v.history && v.base < r.id <= upto ensures Fine(r, b, v) {
      FineMono(r, a, b, w, v);
    }
  }

  /** The world once the host's list is in: the confirmed state is good too. */
  lemma ConfirmKeeps(w: World, v: World, recorded: seq<Arrival>)
    requires Inv(w) && v.history == w.history && v.now == w.now && v.base == w.base
    requires w.gone <= v.gone && w.gaps <= v.gaps
    requires v.acked == w.acked + Set(recorded)
    ensures CursorGood(v, w.kv.cursor) && PendingGood(v, w.kv.pend)
    ensures CursorGood(v, Confirmed(w.kv, recorded).cursor)
  {
    hide SettledThrough;
    if w.kv.cursor.Some? { SettledGrows(w, v, w.kv.cursor.value, w.acked, v.acked); }
    if w.kv.pend.next.Some? {
      var n, ids := w.kv.pend.next.value, w.kv.pend.ids;
      SettledGrows(w, v, n, w.acked + Set(ids), v.acked + Set(ids));
      if AllHeld(ids, recorded) {
        assert Set(ids) <= Set(recorded);
        SettledGrows(w, v, n, w.acked + Set(ids), v.acked);
      }
    }
  }

  /** Extending from a settled cursor to where the walk ended. */
  lemma ExtendSettled(v: World, c: nat, next: nat, out: set<Arrival>, absent: set<nat>)
    requires SettledThrough(v, c, v.acked) && absent <= v.gone
    requires forall r :: r in v.history && c < r.id <= next ==> RecordSettled(r, out, absent)
    ensures SettledThrough(v, next, v.acked + out)
  {
    hide RecordSettled, Covered;
    forall r | r in v.history && v.base < r.id <= next ensures Fine(r, v.acked + out, v) {
      if r.id <= c { FineMono(r, v.acked, v.acked + out, v, v); }
      else { SettledMono(r, out, v.acked + out, absent, v.gone); }
    }
  }

  /** Extending from a settled cursor over a part passed over behind a notice. */
  lemma PassOver(v: World, c: nat, next: nat, out: set<Arrival>)
    requires SettledThrough(v, c, v.acked) && GapNotice(c) in out && Gap(c, next) in v.gaps
    ensures SettledThrough(v, next, v.acked + out)
  {
    hide RecordSettled;
    forall r | r in v.history && v.base < r.id <= next ensures Fine(r, v.acked + out, v) {
      if r.id <= c { FineMono(r, v.acked, v.acked + out, v, v); }
    }
  }

  lemma SyncKeeps(w: World, recorded: seq<Arrival>, net: Net)
    requires Inv(w) && Enabled(w, Call(recorded, net))
    ensures Inv(Do(w, Call(recorded, net)))
  {
    hide SettledThrough, WalkFrom, Set, RecordSettled, Missing;
    var v := Do(w, Call(recorded, net));
    var s := Confirmed(w.kv, recorded);
    assert v.acked == w.acked + Set(recorded) by { SetOf(recorded); }
    if w.kv.cursor.None? {
      assert s == w.kv;
      BaselineKeeps(w, v);
    } else {
      AbsentWasAnswered(w.kv, recorded, net);
      ConfirmKeeps(w, v, recorded);
      if net.listing.Listed? {
        var c := s.cursor.value;
        ReachSettles(w, c, net.listing, s.lastMS, net);
        var y := Onward(net.listing, WalkFrom(net.listing.records, c, Walk([], s.lastMS, {}, false), net));
        ExtendSettled(v, c, y.next, Set(y.w.out), y.w.absent);
        if y.w.out == [] { SetOfNothing(v.acked); }
      } else if net.listing.Expired? && s.cursor.Some? {
        if net.profile.Some? && net.puts >= 2 { RebaselineKeeps(v, s, w.kv, net); }
      }
    }
  }

  lemma RebaselineKeeps(v: World, s: State, kv: State, net: Net)
    requires s.cursor.Some? && SettledThrough(v, s.cursor.value, v.acked)
    requires Passed(s, Rebaselined(kv, s, net), net) <= v.gaps
    requires net.listing.Expired? && net.profile.Some? && net.puts >= 2
    ensures var o := Rebaselined(kv, s, net);
            o.out != [] ==> o.kv.pend == Pending(o.out, net.profile) && SettledThrough(v, net.profile.value, v.acked + Set(o.out))
  {
    hide SettledThrough, Take, Backwards, Newest;
    var o := Rebaselined(kv, s, net);
    if o.out != [] {
      assert o.out[0] == GapNotice(s.cursor.value);
      assert Gap(s.cursor.value, net.profile.value) in Passed(s, o, net);
      PassOver(v, s.cursor.value, net.profile.value, Set(o.out));
    }
  }

  lemma SetOf(ids: seq<Arrival>)
    ensures Set(ids) == set a | a in ids
  {}

  lemma SetOfNothing(acked: set<Arrival>)
    ensures acked + Set([]) == acked
  {}

  /** A first cursor, at the mailbox's present place, leaves nothing before it to settle. */
  lemma BaselineKeeps(w: World, v: World)
    requires Inv(w) && w.kv.cursor.None? && v.history == w.history && v.now == w.now
    requires v.kv.pend.next.None?
    requires v.kv.cursor.Some? ==> v.kv.cursor.value == w.now && v.base == w.now
    ensures Inv(v)
  {}

  lemma GrowKeeps(w: World, records: seq<Record>, upto: nat)
    requires Inv(w) && Enabled(w, Grow(records, upto))
    ensures Inv(Do(w, Grow(records, upto)))
  {
    hide RecordSettled, Set;
    var v := Do(w, Grow(records, upto));
    GrownHistory(w.history, records, w.now, upto);
    assert forall r :: r in v.history && r.id <= w.now ==> r in w.history;
  }

  lemma GrownHistory(h: seq<Record>, records: seq<Record>, now: nat, upto: nat)
    requires Ascending(h) && Ascending(records) && upto >= now
    requires forall i :: 0 <= i < |h| ==> h[i].id <= now
    requires forall i :: 0 <= i < |records| ==> now < records[i].id <= upto
    ensures Ascending(h + records)
    ensures forall i :: 0 <= i < |h + records| ==> (h + records)[i].id <= upto
  {}

  lemma StepKeeps(w: World, s: Step)
    requires Inv(w) && Enabled(w, s)
    ensures Inv(Do(w, s))
  {
    hide Inv, Enabled, Do;
    match s
    case Grow(records, upto) => GrowKeeps(w, records, upto);
    case Call(recorded, net) => SyncKeeps(w, recorded, net);
    case StartWatch(puts) => WatchKeeps(w, puts);
  }

  lemma WatchKeeps(w: World, puts: nat)
    requires Inv(w)
    ensures Inv(Do(w, StartWatch(puts)))
  {
    hide SettledThrough, Set;
    if w.kv.cursor.None? { BaselineKeeps(w, Do(w, StartWatch(puts))); }
  }

  lemma {:induction false} RunKeeps(ws: seq<World>, steps: seq<Step>, n: nat)
    requires Run(ws, steps) && n <= |steps|
    ensures Inv(ws[n])
  {
    hide Enabled, Do;
    if n == 0 {
      Start(ws[0]);
    } else {
      RunKeeps(ws, steps, n - 1);
      StepKeeps(ws[n - 1], steps[n - 1]);
    }
  }

  lemma Start(w: World)
    requires w == EMPTY
    ensures Inv(w)
  {}

  /**
   In every run, whatever the host acknowledges and wherever save's three writes are cut
   short: each inbox message at or before the saved cursor (and after the first one) was
   acknowledged, was absent from the mailbox when fetched, is covered by an acknowledged
   cut notice, or lies in a part of an expired history whose notice was acknowledged.
   */
  lemma NoMessageIsLost(ws: seq<World>, steps: seq<Step>, n: nat, r: Record, i: nat)
    requires Run(ws, steps) && n <= |steps|
    requires r in ws[n].history && i < |r.ids|
    requires ws[n].kv.cursor.Some? && ws[n].base < r.id <= ws[n].kv.cursor.value
    ensures Settled(r, i, ws[n].acked, ws[n].gone) || Covered(r, ws[n].acked, ws[n].gaps)
  {
    hide Enabled, Do, Run, Settled, Covered;
    RunKeeps(ws, steps, n);
  }

  /** No call of the run found its history expired. */
  predicate NeverExpired(steps: seq<Step>) {
    forall i :: 0 <= i < |steps| && steps[i].Call? ==> !steps[i].net.listing.Expired?
  }

  lemma {:induction false} NothingPassed(ws: seq<World>, steps: seq<Step>, n: nat)
    requires Run(ws, steps) && NeverExpired(steps) && n <= |steps|
    ensures ws[n].gaps == {}
  {
    hide Enabled, Sync;
    if n > 0 { NothingPassed(ws, steps, n - 1); }
  }

  /** Without an expired history each such message was acknowledged, absent, or cut off behind an acknowledged notice of its own record. */
  lemma NoMessageIsSkipped(ws: seq<World>, steps: seq<Step>, n: nat, r: Record, i: nat)
    requires Run(ws, steps) && NeverExpired(steps) && n <= |steps|
    requires r in ws[n].history && i < |r.ids|
    requires ws[n].kv.cursor.Some? && ws[n].base < r.id <= ws[n].kv.cursor.value
    ensures ws[n].gaps == {} && Settled(r, i, ws[n].acked, ws[n].gone)
  {
    hide Enabled, Do, Run, Settled;
    NoMessageIsLost(ws, steps, n, r, i);
    NothingPassed(ws, steps, n);
  }

  lemma {:induction false} WalkHandsOverFew(rs: seq<Record>, next: nat, w: Walk, net: Net)
    requires |w.out| <= MAX_ARRIVALS + 1
    ensures |WalkFrom(rs, next, w, net).w.out| <= MAX_ARRIVALS + 1
    decreases |rs|
  {
    hide WalkRecord;
    if rs != [] && !(|rs[0].ids| > MAX_ARRIVALS - |w.out| && w.out != []) {
      RecordWalked(rs[0], w, net);
      WalkHandsOverFew(rs[1..], rs[0].id, WalkRecord(rs[0], w, net), net);
    }
  }

  /** One call hands over at most six messages and a notice. */
  lemma OneCallHandsOverFew(kv: State, recorded: seq<Arrival>, net: Net)
    ensures |Sync(kv, recorded, net).out| <= MAX_ARRIVALS + 1
  {
    hide WalkFrom, Take;
    var s := Confirmed(kv, recorded);
    var start := Walk([], s.lastMS, {}, false);
    if s.cursor.Some? && net.listing.Listed? {
      WalkHandsOverFew(net.listing.records, s.cursor.value, start, net);
    } else if s.cursor.Some? && net.listing.Expired? && net.recent.Some? {
      TakeAdds(Backwards(Newest(net.recent.value)), start, net);
    }
  }

  // ------------------------------------------------------ when the cursor moves back

  /** An older batch is still stored beside a newer cursor. */
  predicate Stale(kv: State) {
    kv.cursor.Some? && kv.pend.next.Some? && kv.pend.next.value < kv.cursor.value
  }

  /** b is no earlier a place than a; having none is earlier than any. */
  predicate NoEarlier(a: Option<nat>, b: Option<nat>) {
    a.Some? ==> b.Some? && a.value <= b.value
  }

  /** A walk never names a place before the one it started from. */
  lemma ReachOnward(w: World, c: nat, l: Listing, lastMS: int, net: Net)
    requires Ascending(w.history) && l.Listed? && Honest(w, c, l)
    ensures Onward(l, WalkFrom(l.records, c, Walk([], lastMS, {}, false), net)).next >= c
  {
    hide WalkFrom, After, AllSettled, Set;
    AfterHolds(w.history, c);
    PartOf(l.records, After(w.history, c), c);
    WalkSettles(l.records, c, Walk([], lastMS, {}, false), net);
  }

  /** A batch is stored only once there is a cursor, and neither leads past the mailbox's present place. */
  predicate Begun(w: World) {
    && (w.kv.cursor.None? ==> w.kv.pend.next.None?)
    && (w.kv.cursor.Some? ==> w.kv.cursor.value <= w.now)
    && (w.kv.pend.next.Some? ==> w.kv.pend.next.value <= w.now)
  }

  /** From a store that holds no older batch the cursor never moves back, and an older batch is left only by a save cut after its first write. */
  lemma FreshNeverGoesBack(w: World, recorded: seq<Arrival>, net: Net)
    requires Ascending(w.history) && Begun(w) && !Stale(w.kv) && Enabled(w, Call(recorded, net))
    ensures var kv := Sync(w.kv, recorded, net).kv;
            NoEarlier(w.kv.cursor, kv.cursor) && (Stale(kv) ==> net.puts == 1)
  {
    hide WalkFrom, AllHeld, Honest;
    var s := Confirmed(w.kv, recorded);
    if s.cursor.Some? && net.listing.Listed? {
      ReachOnward(w, s.cursor.value, net.listing, s.lastMS, net);
    }
  }

  /** From a store that holds one, acknowledging it moves the cursor back as soon as one write succeeds and nothing is read. */
  lemma StaleGoesBack(kv: State, recorded: seq<Arrival>, net: Net)
    requires Stale(kv) && AllHeld(kv.pend.ids, recorded) && net.puts >= 1
    requires net.listing.Listed? && net.listing.records == [] && net.listing.current.None?
    ensures Sync(kv, recorded, net).kv.cursor == kv.pend.next
  {}

  /** A mailbox that answers with an empty first page. */
  function EmptyPage(): Net {
    Net(None, Listed([], None, true), None, _ => Absent, _ => true, 3)
  }

  /** The cursor can move back from a world in one step exactly when its store holds an older batch. */
  lemma GoesBackExactlyFromStale(w: World)
    requires Ascending(w.history) && Begun(w)
    ensures (exists s :: Enabled(w, s) && !NoEarlier(w.kv.cursor, Do(w, s).kv.cursor)) <==> Stale(w.kv)
  {
    hide Sync, Honest;
    if Stale(w.kv) {
      var s := Call(w.kv.pend.ids, EmptyPage());
      StaleGoesBack(w.kv, w.kv.pend.ids, EmptyPage());
      EmptyPageIsHonest(w, Confirmed(w.kv, w.kv.pend.ids).cursor);
      assert Enabled(w, s) && !NoEarlier(w.kv.cursor, Do(w, s).kv.cursor);
    } else {
      forall s | Enabled(w, s) ensures NoEarlier(w.kv.cursor, Do(w, s).kv.cursor) {
        if s.Call? { FreshNeverGoesBack(w, s.recorded, s.net); }
      }
    }
  }

  lemma EmptyPageIsHonest(w: World, cursor: Option<nat>)
    ensures cursor.Some? ==> Honest(w, cursor.value, EmptyPage().listing)
  {}

  /** No call's save is cut after exactly its first write. */
  predicate NeverCutAfterOne(steps: seq<Step>) {
    forall i :: 0 <= i < |steps| && steps[i].Call? ==> steps[i].net.puts != 1
  }

  lemma {:induction false} RunStaysFresh(ws: seq<World>, steps: seq<Step>, n: nat)
    requires Run(ws, steps) && NeverCutAfterOne(steps) && n <= |steps|
    ensures !Stale(ws[n].kv) && Begun(ws[n])
  {
    hide Enabled, Sync, Honest;
    if n > 0 {
      RunStaysFresh(ws, steps, n - 1);
      RunKeeps(ws, steps, n - 1);
      RunKeeps(ws, steps, n);
      if steps[n - 1].Call? { FreshNeverGoesBack(ws[n - 1], steps[n - 1].recorded, steps[n - 1].net); }
    }
  }

  /** In every run in which no save is cut after exactly its first write, the cursor never moves back. */
  lemma {:induction false} CursorIsMonotone(ws: seq<World>, steps: seq<Step>, m: nat, n: nat)
    requires Run(ws, steps) && NeverCutAfterOne(steps) && m <= n <= |steps|
    ensures NoEarlier(ws[m].kv.cursor, ws[n].kv.cursor)
    decreases n
  {
    hide Enabled, Do, Stale;
    if m < n {
      CursorIsMonotone(ws, steps, m, n - 1);
      RunStaysFresh(ws, steps, n - 1);
      RunKeeps(ws, steps, n - 1);
      StepKeepsPlace(ws[n - 1], steps[n - 1]);
    }
  }

  lemma StepKeepsPlace(w: World, s: Step)
    requires Ascending(w.history) && Begun(w) && !Stale(w.kv) && Enabled(w, s)
    ensures NoEarlier(w.kv.cursor, Do(w, s).kv.cursor)
  {
    hide Do;
    GoesBackExactlyFromStale(w);
  }

  // -------------------------------------------------------- a run that moves it back

  const ARRIVED: Record := Record(3, [1])
  const LATER: Record := Record(5, [2])

  function Answer(page: seq<Record>, more: bool, fetch: Fetch, puts: nat): Net {
    Net(None, Listed(page, None, more), None, _ => fetch, _ => true, puts)
  }

  /**
   A run that moves the cursor back: a message is handed over and not yet acknowledged, the
   next call finds it and a later one absent and its save is cut after the first write, and
   then the first batch is acknowledged.
   */
  lemma CursorMayGoBack() returns (ws: seq<World>, steps: seq<Step>)
    ensures Run(ws, steps) && |steps| == 6
    ensures ws[5].kv.cursor == Some(5) && ws[6].kv.cursor == Some(3)
    ensures forall i :: 0 <= i < |steps| && steps[i].Call? ==> (steps[i].net.puts == 1 <==> i == 4)
  {
    hide Do, Enabled, Answer, EmptyPage, Run;
    var a, b, c := Grow([], 2), StartWatch(3), Grow([ARRIVED, LATER], 5);
    var d := Call([], Answer([ARRIVED], true, Arrives(0), 3));
    var e := Call([], Answer([ARRIVED, LATER], false, Absent, 1));
    var f := Call([Mail(1)], EmptyPage());
    var w0 := EMPTY;
    var w1, w2, w3 := Opening(w0, a, b, c);
    HandedOver(w3, d.net);
    var w4 := Do(w3, d);
    CutShort(w4, e.net);
    var w5 := Do(w4, e);
    Acknowledged(w5, f);
    var w6 := Do(w5, f);
    ws, steps := [w0, w1, w2, w3, w4, w5, w6], [a, b, c, d, e, f];
    SixSteps(ws, steps);
    PutsOf();
  }

  lemma SixSteps(ws: seq<World>, steps: seq<Step>)
    requires |ws| == 7 && |steps| == 6 && ws[0] == EMPTY
    requires Enabled(ws[0], steps[0]) && ws[1] == Do(ws[0], steps[0])
    requires Enabled(ws[1], steps[1]) && ws[2] == Do(ws[1], steps[1])
    requires Enabled(ws[2], steps[2]) && ws[3] == Do(ws[2], steps[2])
    requires Enabled(ws[3], steps[3]) && ws[4] == Do(ws[3], steps[3])
    requires Enabled(ws[4], steps[4]) && ws[5] == Do(ws[4], steps[4])
    requires Enabled(ws[5], steps[5]) && ws[6] == Do(ws[5], steps[5])
    ensures Run(ws, steps)
  {
    hide Do, Enabled;
  }

  lemma PutsOf()
    ensures Answer([ARRIVED], true, Arrives(0), 3).puts == 3 && EmptyPage().puts == 3
    ensures Answer([ARRIVED, LATER], false, Absent, 1).puts == 1
  {}

  lemma Acknowledged(w: World, s: Step)
    requires w.kv == State(Some(5), Pending([Mail(1)], Some(3)), 0) && s == Call([Mail(1)], EmptyPage())
    ensures Enabled(w, s) && Do(w, s).kv.cursor == Some(3)
  {
    hide Sync, Honest;
    EmptyPageIsHonest(w, Confirmed(w.kv, [Mail(1)]).cursor);
    assert AllHeld([Mail(1)], [Mail(1)]);
    StaleGoesBack(w.kv, [Mail(1)], EmptyPage());
  }

  lemma Opening(w0: World, a: Step, b: Step, c: Step) returns (w1: World, w2: World, w3: World)
    requires w0 == EMPTY
    requires a == Grow([], 2) && b == StartWatch(3) && c == Grow([ARRIVED, LATER], 5)
    ensures Enabled(w0, a) && w1 == Do(w0, a) && Enabled(w1, b) && w2 == Do(w1, b) && Enabled(w2, c) && w3 == Do(w2, c)
    ensures w3 == World(State(Some(2), NOTHING_PENDING, 0), [ARRIVED, LATER], 5, {}, {}, {}, 2)
  {
    hide Sync, Honest, Confirmed;
    w1 := Do(w0, a);
    assert w1 == World(State(None, NOTHING_PENDING, 0), [], 2, {}, {}, {}, 0);
    w2 := Do(w1, b);
    assert w2 == World(State(Some(2), NOTHING_PENDING, 0), [], 2, {}, {}, {}, 2);
    w3 := Do(w2, c);
    assert [] + [ARRIVED, LATER] == [ARRIVED, LATER];
  }

  lemma Afterwards()
    ensures After([ARRIVED, LATER], 2) == [ARRIVED, LATER]
  {}

  lemma HandedOver(w: World, net: Net)
    requires w == World(State(Some(2), NOTHING_PENDING, 0), [ARRIVED, LATER], 5, {}, {}, {}, 2)
    requires net == Answer([ARRIVED], true, Arrives(0), 3)
    ensures Enabled(w, Call([], net))
    ensures Do(w, Call([], net)).kv == State(Some(2), Pending([Mail(1)], Some(3)), 0)
    ensures Do(w, Call([], net)).history == w.history && Do(w, Call([], net)).now == 5
  {
    Afterwards();
    assert [ARRIVED] <= [ARRIVED, LATER];
    var w0 := Walk([], 0, {}, false);
    assert [1][1..] == [];
    assert WalkRecord(ARRIVED, w0, net) == Walk([Mail(1)], 0, {}, false);
    assert [ARRIVED][1..] == [];
    assert WalkFrom([ARRIVED], 2, w0, net) == WalkFrom([], 3, Walk([Mail(1)], 0, {}, false), net);
  }

  lemma CutShort(w: World, net: Net)
    requires w.kv == State(Some(2), Pending([Mail(1)], Some(3)), 0) && w.history == [ARRIVED, LATER] && w.now == 5
    requires net == Answer([ARRIVED, LATER], false, Absent, 1)
    ensures Enabled(w, Call([], net))
    ensures Do(w, Call([], net)).kv == State(Some(5), Pending([Mail(1)], Some(3)), 0)
  {
    Afterwards();
    assert !AllHeld(w.kv.pend.ids, []) by { assert w.kv.pend.ids[0] == Mail(1); }
    var w0 := Walk([], 0, {}, false);
    var rs := [ARRIVED, LATER];
    assert [1][1..] == [] && [2][1..] == [];
    var w1 := WalkRecord(rs[0], w0, net);
    assert w1 == Walk([], 0, {1}, false);
    var w2 := WalkRecord(rs[1], w1, net);
    assert w2 == Walk([], 0, {1, 2}, false);
    assert rs[1..] == [rs[1]] && rs[1..][1..] == [];
    assert WalkFrom(rs, 2, w0, net) == WalkFrom(rs[1..], 3, w1, net) == WalkFrom([], 5, w2, net);
  }
}
