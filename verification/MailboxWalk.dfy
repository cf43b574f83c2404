/**
 What one call takes in, told from the mailbox's answers alone: the records it reads in full, the one it
 stops at and why, and that nothing is stored past a message that could not be read.
 */
module MailboxWalk {
  import opened Mailbox
  import opened MailboxRuns
  import opened Wrappers

  // ------------------------------------------------------ what a record hands over

  /** The messages of a record that one call reads: its first six. */
  function Read(r: Record): seq<nat> {
    if |r.ids| > 6 then r.ids[..6] else r.ids
  }

  /** The messages that arrived, in order; those absent are left out. */
  function Mails(ids: seq<nat>, net: Net): seq<Arrival> {
    if ids == [] then [] else (if net.fetch(ids[0]).Arrives? then [Mail(ids[0])] else []) + Mails(ids[1..], net)
  }

  predicate NoneFailed(ids: seq<nat>, net: Net) {
    forall i :: 0 <= i < |ids| ==> !net.fetch(ids[i]).Failed?
  }

  function Notice(r: Record): seq<Arrival> {
    if |r.ids| > 6 then [CutNotice(r.id)] else []
  }

  /** All of a record that is read could be, and so could the notice of what is cut. */
  predicate Whole(r: Record, net: Net) {
    NoneFailed(Read(r), net) && (|r.ids| > 6 ==> net.notice(r.id))
  }

  function Everything(rs: seq<Record>, net: Net): seq<Arrival> {
    if rs == [] then [] else Mails(Read(rs[0]), net) + Notice(rs[0]) + Everything(rs[1..], net)
  }

  /** j messages of the record were read before one failed, or all of them before the notice did. */
  ghost predicate FailsAt(r: Record, net: Net, j: nat) {
    && j <= |Read(r)| && NoneFailed(Read(r)[..j], net)
    && if j < |Read(r)| then net.fetch(Read(r)[j]).Failed? else |r.ids| > 6 && !net.notice(r.id)
  }

  predicate NoRoom(r: Record, taken: nat) {
    taken > 0 && |r.ids| + taken > 6
  }

  /** The walk read the first k records whole, and then was done, had no room, or met a failure after j messages. */
  ghost predicate Walked(x: Reach, rs: seq<Record>, c: nat, net: Net, k: nat, j: nat) {
    && k <= |rs| && (forall i :: 0 <= i < k ==> Whole(rs[i], net))
    && x.next == (if k == 0 then c else rs[k - 1].id)
    && var full := Everything(rs[..k], net);
       if k == |rs| then !x.more && !x.w.stopped && x.w.out == full
       else if NoRoom(rs[k], |full|) then x.more && !x.w.stopped && x.w.out == full
       else x.more && x.w.stopped && FailsAt(rs[k], net, j) && x.w.out == full + Mails(Read(rs[k])[..j], net)
  }

  // ---------------------------------------------------------------- how it is taken

  /** Taking reads up to the first failure, and hands over what arrived. */
  lemma {:induction false} TakeExactly(ids: seq<nat>, w: Walk, net: Net) returns (j: nat)
    requires !w.stopped
    ensures j <= |ids| && NoneFailed(ids[..j], net) && (j < |ids| ==> net.fetch(ids[j]).Failed?)
    ensures var t := Take(ids, w, net); (t.stopped <==> j < |ids|) && t.out == w.out + Mails(ids[..j], net)
    decreases |ids|
  {
    if ids == [] {
      j := 0;
      assert w.out + [] == w.out;
    } else {
      match net.fetch(ids[0])
      case Failed =>
        j := 0;
        assert ids[..0] == [] && w.out + [] == w.out;
      case Absent =>
        var k := TakeExactly(ids[1..], w.(absent := w.absent + {ids[0]}), net);
        j := k + 1;
        Front(ids, k, net);
      case Arrives(ms) =>
        var v := w.(out := w.out + [Mail(ids[0])], lastMS := if ms > w.lastMS then ms else w.lastMS);
        var k := TakeExactly(ids[1..], v, net);
        j := k + 1;
        Front(ids, k, net);
    }
  }

  lemma Front(ids: seq<nat>, k: nat, net: Net)
    requires k < |ids|
    ensures ids[..k + 1] == [ids[0]] + ids[1..][..k] && ids[..k + 1][0] == ids[0] && ids[..k + 1][1..] == ids[1..][..k]
    ensures !net.fetch(ids[0]).Failed? && NoneFailed(ids[1..][..k], net) ==> NoneFailed(ids[..k + 1], net)
  {
    if !net.fetch(ids[0]).Failed? && NoneFailed(ids[1..][..k], net) {
      var front, rest := ids[..k + 1], ids[1..][..k];
      forall i | 0 <= i < |front| ensures !net.fetch(front[i]).Failed? {
        if i > 0 { assert front[i] == rest[i - 1]; }
      }
    }
  }

  /** One record: read whole, with its notice, or up to a failure. */
  lemma RecordExactly(r: Record, w: Walk, net: Net) returns (j: nat)
    requires !w.stopped && !NoRoom(r, |w.out|) && |w.out| <= 6
    ensures !(|r.ids| > MAX_ARRIVALS - |w.out| && w.out != [])
    ensures var t := WalkRecord(r, w, net);
            if Whole(r, net) then !t.stopped && t.out == w.out + (Mails(Read(r), net) + Notice(r))
            else t.stopped && FailsAt(r, net, j) && t.out == w.out + Mails(Read(r)[..j], net)
  {
    hide Take, Mails;
    assert Cut(r, MAX_ARRIVALS - |w.out|) == Read(r);
    j := TakeExactly(Read(r), w, net);
    if j == |Read(r)| { assert Read(r)[..j] == Read(r); }
    assert w.out + (Mails(Read(r), net) + Notice(r)) == w.out + Mails(Read(r), net) + Notice(r);
  }

  /** The walk, given where it starts and what it has taken so far. */
  lemma {:induction false} WalkOn(rs: seq<Record>, next: nat, w: Walk, net: Net) returns (k: nat, j: nat)
    requires !w.stopped
    ensures k <= |rs| && forall i :: 0 <= i < k ==> Whole(rs[i], net)
    ensures var x := WalkFrom(rs, next, w, net);
            && x.next == (if k == 0 then next else rs[k - 1].id)
            && var full := w.out + Everything(rs[..k], net);
               if k == |rs| then !x.more && !x.w.stopped && x.w.out == full
               else if NoRoom(rs[k], |full|) then x.more && !x.w.stopped && x.w.out == full
               else x.more && x.w.stopped && FailsAt(rs[k], net, j) && x.w.out == full + Mails(Read(rs[k])[..j], net)
    decreases |rs|
  {
    hide Take, WalkRecord, Whole, FailsAt, Mails;
    k, j := 0, 0;
    assert rs[..0] == [] && w.out + [] == w.out;
    if rs != [] && !NoRoom(rs[0], |w.out|) {
      j := RecordExactly(rs[0], w, net);
      if Whole(rs[0], net) {
        var m := 0;
        m, j := WalkOn(rs[1..], rs[0].id, WalkRecord(rs[0], w, net), net);
        k := m + 1;
        FrontRecords(rs, m);
        Grouped(w.out, Mails(Read(rs[0]), net) + Notice(rs[0]), Everything(rs[1..][..m], net));
      }
    }
  }

  lemma FrontRecords(rs: seq<Record>, m: nat)
    requires m < |rs|
    ensures rs[..m + 1] == [rs[0]] + rs[1..][..m] && rs[..m + 1][0] == rs[0] && rs[..m + 1][1..] == rs[1..][..m]
    ensures forall i :: 0 <= i < m ==> rs[1..][i] == rs[i + 1]
    ensures m + 1 < |rs| ==> rs[1..][m] == rs[m + 1]
    ensures m > 0 ==> rs[1..][m - 1] == rs[m]
  {}

  lemma Grouped(a: seq<Arrival>, b: seq<Arrival>, c: seq<Arrival>)
    ensures a + b + c == a + (b + c)
  {}

  /** The walk, whatever the mailbox answers. */
  lemma WalkExactly(rs: seq<Record>, c: nat, lastMS: int, net: Net) returns (k: nat, j: nat)
    ensures Walked(WalkFrom(rs, c, Walk([], lastMS, {}, false), net), rs, c, net, k, j)
  {
    hide WalkFrom, Whole, FailsAt, Mails, Everything, NoRoom;
    k, j := WalkOn(rs, c, Walk([], lastMS, {}, false), net);
    assert [] + Everything(rs[..k], net) == Everything(rs[..k], net);
  }

  // -------------------------------------------------------------- the newest time

  /** last is the newest of start and the times of the messages taken. */
  ghost predicate IsNewest(last: int, start: int, out: seq<Arrival>, net: Net) {
    && last >= start
    && (forall id :: Mail(id) in out && net.fetch(id).Arrives? ==> net.fetch(id).ms <= last)
    && (last == start || exists id :: Mail(id) in out && net.fetch(id) == Arrives(last))
  }

  lemma OneNewer(w: Walk, id: nat, ms: int, start: int, net: Net)
    requires IsNewest(w.lastMS, start, w.out, net) && net.fetch(id) == Arrives(ms)
    ensures IsNewest(if ms > w.lastMS then ms else w.lastMS, start, w.out + [Mail(id)], net)
  {
    var out := w.out + [Mail(id)];
    assert Mail(id) in out;
    if ms <= w.lastMS && w.lastMS != start {
      var o :| Mail(o) in w.out && net.fetch(o) == Arrives(w.lastMS);
      assert Mail(o) in out;
    }
  }

  lemma {:induction false} TakeNewest(ids: seq<nat>, w: Walk, start: int, net: Net)
    requires IsNewest(w.lastMS, start, w.out, net)
    ensures IsNewest(Take(ids, w, net).lastMS, start, Take(ids, w, net).out, net)
    decreases |ids|
  {
    hide IsNewest;
    if ids != [] {
      match net.fetch(ids[0])
      case Failed =>
      case Absent => TakeNewest(ids[1..], w.(absent := w.absent + {ids[0]}), start, net);
      case Arrives(ms) =>
        OneNewer(w, ids[0], ms, start, net);
        TakeNewest(ids[1..], w.(out := w.out + [Mail(ids[0])], lastMS := if ms > w.lastMS then ms else w.lastMS), start, net);
    }
  }

  lemma NoticeIsNoMail(w: Walk, r: nat, start: int, net: Net)
    requires IsNewest(w.lastMS, start, w.out, net)
    ensures IsNewest(w.lastMS, start, w.out + [CutNotice(r)], net)
  {
    var out := w.out + [CutNotice(r)];
    if w.lastMS != start {
      var o :| Mail(o) in w.out && net.fetch(o) == Arrives(w.lastMS);
      assert Mail(o) in out;
    }
  }

  /** The time a walk keeps is the newest of the one it began with and those of the messages it hands over. */
  lemma {:induction false} WalkNewest(rs: seq<Record>, next: nat, w: Walk, start: int, net: Net)
    requires IsNewest(w.lastMS, start, w.out, net)
    ensures var x := WalkFrom(rs, next, w, net).w; IsNewest(x.lastMS, start, x.out, net)
    decreases |rs|
  {
    hide IsNewest, Take;
    if rs != [] && !(|rs[0].ids| > MAX_ARRIVALS - |w.out| && w.out != []) {
      var room := MAX_ARRIVALS - |w.out|;
      TakeNewest(Cut(rs[0], room), w, start, net);
      NoticeIsNoMail(Take(Cut(rs[0], room), w, net), rs[0].id, start, net);
      var t := WalkRecord(rs[0], w, net);
      if !t.stopped { WalkNewest(rs[1..], rs[0].id, t, start, net); }
    }
  }

  // ------------------------------------------------------------------- one call

  /**
   One call on a history that is there.  With the first k records read whole: where something failed and
   nothing is to be handed over, the call fails and stores nothing; otherwise what was taken is handed over,
   and the store moves to the last record read, or to the mailbox's own place where all was read, at once
   when there is nothing to acknowledge and behind a batch otherwise.
   */
  lemma CallExactly(kv: State, recorded: seq<Arrival>, net: Net) returns (k: nat, j: nat)
    requires Confirmed(kv, recorded).cursor.Some? && net.listing.Listed?
    ensures var s, l := Confirmed(kv, recorded), net.listing;
            var o := Sync(kv, recorded, net);
            && k <= |l.records| && (forall i :: 0 <= i < k ==> Whole(l.records[i], net))
            && var full := Everything(l.records[..k], net);
               var done, room := k == |l.records|, k < |l.records| && !NoRoom(l.records[k], |full|);
               && (room ==> FailsAt(l.records[k], net, j))
               && var out := if room then full + Mails(Read(l.records[k])[..j], net) else full;
                  var at := if done && !l.more && l.current.Some? then l.current.value
                            else if k == 0 then s.cursor.value else l.records[k - 1].id;
                  if room && out == [] then o.kv == kv && o.out == [] && !o.more && !o.ok
                  else
                    && o.out == out && (o.more <==> !done || l.more) && (o.ok <==> net.puts >= 3)
                    && (net.puts == 0 ==> o.kv == kv)
                    && (net.puts >= 1 ==> o.kv.cursor == if out == [] then Some(at) else s.cursor)
                    && (net.puts >= 2 ==> o.kv.pend == if out == [] then Pending([], None) else Pending(out, Some(at)))
                    && (net.puts < 2 ==> o.kv.pend == kv.pend)
                    && (if net.puts >= 3 then IsNewest(o.kv.lastMS, s.lastMS, out, net) else o.kv.lastMS == kv.lastMS)
  {
    hide WalkFrom, Whole, FailsAt, Mails, Everything, NoRoom, Confirmed, IsNewest;
    var s := Confirmed(kv, recorded);
    k, j := WalkExactly(net.listing.records, s.cursor.value, s.lastMS, net);
    NothingNewer(s.lastMS, net);
    WalkNewest(net.listing.records, s.cursor.value, Walk([], s.lastMS, {}, false), s.lastMS, net);
  }

  lemma NothingNewer(start: int, net: Net)
    ensures IsNewest(start, start, [], net)
  {}

  /** A message among the first six of its record that could not be read: no place at or past its record is stored. */
  lemma NeverPastAFailure(w: World, recorded: seq<Arrival>, net: Net, m: nat, i: nat)
    requires Ascending(w.history) && Enabled(w, Call(recorded, net)) && net.listing.Listed?
    requires Confirmed(w.kv, recorded).cursor.Some?
    requires m < |net.listing.records| && i < 6 && i < |net.listing.records[m].ids|
    requires net.fetch(net.listing.records[m].ids[i]).Failed?
    ensures var kv, id := Sync(w.kv, recorded, net).kv, net.listing.records[m].id;
            && (kv.cursor == w.kv.cursor || (kv.cursor.Some? && kv.cursor.value < id))
            && (kv.pend == w.kv.pend || kv.pend.next.None? || kv.pend.next.value < id)
  {
    hide Sync, FailsAt, Mails, Everything, NoRoom, After, IsNewest;
    var s, rs := Confirmed(w.kv, recorded), net.listing.records;
    var c := s.cursor.value;
    AfterHolds(w.history, c);
    PartOf(rs, After(w.history, c), c);
    var k, j := CallExactly(w.kv, recorded, net);
    assert Read(rs[m])[i] == rs[m].ids[i];
    assert !Whole(rs[m], net);
    assert k <= m;
  }

  /** The same of a recent message when the history had expired: nothing is stored at all. */
  lemma NothingPastAFailedRecent(kv: State, recorded: seq<Arrival>, net: Net, i: nat)
    requires Confirmed(kv, recorded).cursor.Some? && net.listing.Expired? && net.recent.Some?
    requires i < 6 && i < |net.recent.value| && net.fetch(net.recent.value[i]).Failed?
    ensures Sync(kv, recorded, net).kv == kv && !Sync(kv, recorded, net).ok && Sync(kv, recorded, net).out == []
  {
    hide Take, Mails, Confirmed;
    var s := Confirmed(kv, recorded);
    var hits := Newest(net.recent.value);
    assert hits[i] == net.recent.value[i];
    BackwardsAt(hits, i);
    var j := TakeExactly(Backwards(hits), Walk([], s.lastMS, {}, false), net);
    assert Backwards(hits)[..|hits|] == Backwards(hits);
  }

  lemma {:induction false} BackwardsAt(hits: seq<nat>, i: nat)
    requires i < |hits|
    ensures Backwards(hits)[|hits| - 1 - i] == hits[i]
  {
    if i < |hits| - 1 { BackwardsAt(hits[..|hits| - 1], i); }
  }

  /**
   After an expired history: the first six hits that are there, the oldest first, behind a notice of the
   cursor that was lost; stored as a batch that leads to the mailbox's present place.
   */
  lemma RebaselineExactly(kv: State, recorded: seq<Arrival>, net: Net) returns (ids: seq<nat>)
    requires Confirmed(kv, recorded).cursor.Some? && net.listing.Expired? && net.recent.Some? && net.profile.Some?
    ensures var hits := net.recent.value;
            |ids| == (if |hits| > 6 then 6 else |hits|) && forall i :: 0 <= i < |ids| ==> ids[i] == hits[|ids| - 1 - i]
    ensures NoneFailed(ids, net) ==>
              var s, o := Confirmed(kv, recorded), Sync(kv, recorded, net);
              && o.out == [GapNotice(s.cursor.value)] + Mails(ids, net) && !o.more && (o.ok <==> net.puts >= 3)
              && (net.puts >= 1 ==> o.kv.cursor == s.cursor)
              && (net.puts >= 2 ==> o.kv.pend == Pending(o.out, net.profile))
  {
    hide Take, Mails, Confirmed;
    var s := Confirmed(kv, recorded);
    var hits := Newest(net.recent.value);
    ids := Backwards(hits);
    forall i | 0 <= i < |ids| ensures ids[i] == net.recent.value[|ids| - 1 - i] { BackwardsAt(hits, |ids| - 1 - i); }
    var j := TakeExactly(ids, Walk([], s.lastMS, {}, false), net);
    if j == |ids| { assert ids[..j] == ids; }
    assert [] + Mails(ids[..j], net) == Mails(ids[..j], net);
  }
}
