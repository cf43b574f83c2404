/**
 The mailbox channel's state across calls: a cursor and a pending batch in a key-value
 store whose writes can be cut short, and the walk over the mailbox's history records.

 The network is a parameter of each call: what the listing, each fetch, each profile
 request and each write of the store came to.
 */
module Mailbox {
  import opened Wrappers

  const MAX_ARRIVALS: int := 6

  /** One history record: its place, and the inbox messages it added. */
  datatype Record = Record(id: nat, ids: seq<nat>)

  /** What is handed to the host: a message, the notice that a record was cut, or that the history had expired. */
  datatype Arrival = Mail(id: nat) | CutNotice(record: nat) | GapNotice(cursor: nat)

  datatype Pending = Pending(ids: seq<Arrival>, next: Option<nat>)

  datatype State = State(cursor: Option<nat>, pend: Pending, lastMS: int)

  datatype Fetch = Arrives(ms: int) | Absent | Failed

  /** Expired: the mailbox no longer holds the history from the cursor on. */
  datatype Listing = Unlisted | Expired | Listed(records: seq<Record>, current: Option<nat>, more: bool)

  /** What the outside answers during one call; puts is how many of the store's writes succeed. */
  datatype Net = Net(profile: Option<nat>, listing: Listing, recent: Option<seq<nat>>,
                     fetch: nat -> Fetch, notice: nat -> bool, puts: nat)

  const NOTHING_PENDING: Pending := Pending([], None)

  // ------------------------------------------------------------- specification

  predicate AllHeld(ids: seq<Arrival>, recorded: seq<Arrival>) {
    forall i :: 0 <= i < |ids| ==> ids[i] in recorded
  }

  function Confirmed(s: State, recorded: seq<Arrival>): State {
    if s.pend.next.Some? && AllHeld(s.pend.ids, recorded) then State(s.pend.next, NOTHING_PENDING, s.lastMS) else s
  }

  /** The store after the first puts of save's three writes. */
  function Saved(kv: State, s: State, puts: nat): State {
    State(if puts >= 1 then s.cursor else kv.cursor,
          if puts >= 2 then s.pend else kv.pend,
          if puts >= 3 then s.lastMS else kv.lastMS)
  }

  /** A walk so far: handed over, newest time seen, found absent, and whether a request failed. */
  datatype Walk = Walk(out: seq<Arrival>, lastMS: int, absent: set<nat>, stopped: bool)

  function Take(ids: seq<nat>, w: Walk, net: Net): Walk
    decreases |ids|
  {
    if ids == [] then w
    else match net.fetch(ids[0])
      case Failed => w.(stopped := true)
      case Absent => Take(ids[1..], w.(absent := w.absent + {ids[0]}), net)
      case Arrives(ms) =>
        Take(ids[1..], w.(out := w.out + [Mail(ids[0])], lastMS := if ms > w.lastMS then ms else w.lastMS), net)
  }

  function Cut(r: Record, room: int): seq<nat> {
    if |r.ids| > room >= 0 then r.ids[..room] else r.ids
  }

  datatype Reach = Reach(w: Walk, next: nat, more: bool)

  function WalkRecord(r: Record, w: Walk, net: Net): Walk
    requires !(|r.ids| > MAX_ARRIVALS - |w.out| && w.out != [])
  {
    var room := MAX_ARRIVALS - |w.out|;
    var t := Take(Cut(r, room), w, net);
    if t.stopped || |r.ids| <= room then t
    else if net.notice(r.id) then t.(out := t.out + [CutNotice(r.id)])
    else t.(stopped := true)
  }

  function WalkFrom(rs: seq<Record>, next: nat, w: Walk, net: Net): Reach
    decreases |rs|
  {
    if rs == [] then Reach(w, next, false)
    else if |rs[0].ids| > MAX_ARRIVALS - |w.out| && w.out != [] then Reach(w, next, true)
    else
      var t := WalkRecord(rs[0], w, net);
      if t.stopped then Reach(t, next, true) else WalkFrom(rs[1..], rs[0].id, t, net)
  }

  /** How far the call gets: to the last record taken, or past a listing that was read to its end. */
  function Onward(l: Listing, x: Reach): Reach
    requires l.Listed?
  {
    if x.more || x.w.stopped then x
    else if l.more then x.(more := true)
    else if l.current.Some? then x.(next := l.current.value)
    else x
  }

  datatype Outcome = Outcome(kv: State, out: seq<Arrival>, more: bool, ok: bool, absent: set<nat>)

  function Newest(hits: seq<nat>): seq<nat> {
    if |hits| > MAX_ARRIVALS then hits[..MAX_ARRIVALS] else hits
  }

  function Backwards(ids: seq<nat>): (r: seq<nat>)
    ensures |r| == |ids|
  {
    if ids == [] then [] else [ids[|ids| - 1]] + Backwards(ids[..|ids| - 1])
  }

  /** rebaseline: the newest mail, oldest first, behind a notice; the batch leads to the mailbox's present place. */
  function Rebaselined(kv: State, s: State, net: Net): Outcome
    requires s.cursor.Some?
  {
    if net.profile.None? || net.recent.None? then Outcome(kv, [], false, false, {})
    else
      var t := Take(Backwards(Newest(net.recent.value)), Walk([], s.lastMS, {}, false), net);
      if t.stopped then Outcome(kv, [], false, false, t.absent)
      else
        var out := [GapNotice(s.cursor.value)] + t.out;
        Outcome(Saved(kv, State(s.cursor, Pending(out, net.profile), t.lastMS), net.puts), out, false, net.puts >= 3, t.absent)
  }

  /** syncMailbox. */
  function Sync(kv: State, recorded: seq<Arrival>, net: Net): Outcome {
    var s := Confirmed(kv, recorded);
    if s.cursor.None? then
      if net.profile.None? then Outcome(kv, [], false, false, {})
      else Outcome(Saved(kv, s.(cursor := net.profile), net.puts), [], false, net.puts >= 3, {})
    else if net.listing.Unlisted? then Outcome(kv, [], false, false, {})
    else if net.listing.Expired? then Rebaselined(kv, s, net)
    else
      var x := WalkFrom(net.listing.records, s.cursor.value, Walk([], s.lastMS, {}, false), net);
      if x.w.stopped && x.w.out == [] then Outcome(kv, [], false, false, x.w.absent)
      else
        var y := Onward(net.listing, x);
        var t := if y.w.out == [] then State(Some(y.next), NOTHING_PENDING, y.w.lastMS)
                 else State(s.cursor, Pending(y.w.out, Some(y.next)), y.w.lastMS);
        Outcome(Saved(kv, t, net.puts), y.w.out, y.more, net.puts >= 3, x.w.absent)
  }

  /** The part of startWatch that keeps state: a first cursor. */
  function Watch(kv: State, history: nat, puts: nat): State {
    if kv.cursor.Some? then kv else Saved(kv, kv.(cursor := Some(history)), puts)
  }

  // ---------------------------------------------------------------- the program

  class MailState {
    var cursor: Option<nat>
    var pend: Pending
    var lastMS: int

    constructor (s: State)
      ensures Value() == s
    {
      cursor, pend, lastMS := s.cursor, s.pend, s.lastMS;
    }

    function Value(): State
      reads this
    {
      State(cursor, pend, lastMS)
    }

    method Confirm(recorded: seq<Arrival>)
      modifies this
      ensures Value() == Confirmed(old(Value()), recorded)
      ensures if old(pend).next.Some? && (forall i :: 0 <= i < |old(pend).ids| ==> old(pend).ids[i] in recorded)
              then cursor == old(pend).next && pend == Pending([], None) && lastMS == old(lastMS)
              else Value() == old(Value())
    {
      if pend.next.None? {
        return;
      }
      var i := 0;
      while i < |pend.ids|
        invariant 0 <= i <= |pend.ids|
        invariant Value() == old(Value())
        invariant forall k :: 0 <= k < i ==> pend.ids[k] in recorded
      {
        if pend.ids[i] !in recorded {
          return;
        }
        i := i + 1;
      }
      cursor, pend := pend.next, NOTHING_PENDING;
    }

    /** arrivalOf: whether the message is handed over, is absent, or could not be read. */
    method ArrivalOf(id: nat, net: Net) returns (skip: bool, ok: bool)
      modifies `lastMS
      ensures ok <==> !net.fetch(id).Failed?
      ensures ok ==> (skip <==> net.fetch(id).Absent?)
      ensures lastMS == if net.fetch(id).Arrives? && net.fetch(id).ms > old(lastMS) then net.fetch(id).ms else old(lastMS)
    {
      match net.fetch(id)
      case Absent => return true, true;
      case Failed => return false, false;
      case Arrives(ms) =>
        if ms > lastMS { lastMS := ms; }
        return false, true;
    }

    method TakeMessages(take: seq<nat>, arrivals: seq<Arrival>, ghost absent: set<nat>, net: Net)
      returns (out: seq<Arrival>, stopped: bool, ghost missed: set<nat>)
      modifies `lastMS
      ensures Walk(out, lastMS, missed, stopped) == Take(take, Walk(arrivals, old(lastMS), absent, false), net)
    {
      out, stopped, missed := arrivals, false, absent;
      var i := 0;
      assert take[0..] == take;
      while i < |take|
        invariant 0 <= i <= |take| && !stopped
        invariant Take(take, Walk(arrivals, old(lastMS), absent, false), net)
               == Take(take[i..], Walk(out, lastMS, missed, false), net)
      {
        var id := take[i];
        assert take[i..][0] == id && take[i..][1..] == take[i + 1..];
        var skip, ok := ArrivalOf(id, net);
        if !ok {
          return out, true, missed;
        }
        if skip {
          missed := missed + {id};
        } else {
          out := out + [Mail(id)];
        }
        i := i + 1;
      }
    }

    /** The loop of rebaseline, from the oldest hit to the newest. */
    method TakeBackwards(hits: seq<nat>, net: Net)
      returns (out: seq<Arrival>, stopped: bool, ghost missed: set<nat>)
      modifies `lastMS
      ensures Walk(out, lastMS, missed, stopped) == Take(Backwards(hits), Walk([], old(lastMS), {}, false), net)
    {
      out, stopped, missed := [], false, {};
      var i := |hits|;
      assert hits[..i] == hits;
      while i > 0
        invariant 0 <= i <= |hits| && !stopped
        invariant Take(Backwards(hits), Walk([], old(lastMS), {}, false), net)
               == Take(Backwards(hits[..i]), Walk(out, lastMS, missed, false), net)
      {
        var id := hits[i - 1];
        ghost var rest := Backwards(hits[..i]);
        assert hits[..i][..i - 1] == hits[..i - 1];
        assert rest[0] == id && rest[1..] == Backwards(hits[..i - 1]);
        var skip, ok := ArrivalOf(id, net);
        if !ok {
          return out, true, missed;
        }
        if skip {
          missed := missed + {id};
        } else {
          out := out + [Mail(id)];
        }
        i := i - 1;
      }
    }

    method WalkRecords(records: seq<Record>, start: nat, net: Net)
      returns (out: seq<Arrival>, next: nat, more: bool, stopped: bool, ghost missed: set<nat>)
      modifies `lastMS
      ensures Reach(Walk(out, lastMS, missed, stopped), next, more)
           == WalkFrom(records, start, Walk([], old(lastMS), {}, false), net)
    {
      hide Take;
      out, next, more, stopped, missed := [], start, false, false, {};
      ghost var start0 := Walk([], lastMS, {}, false);
      var i := 0;
      assert records[0..] == records;
      while i < |records|
        invariant 0 <= i <= |records| && !stopped && !more
        invariant WalkFrom(records, start, start0, net)
               == WalkFrom(records[i..], next, Walk(out, lastMS, missed, false), net)
      {
        var r := records[i];
        assert records[i..][0] == r && records[i..][1..] == records[i + 1..];
        var room := MAX_ARRIVALS - |out|;
        if |r.ids| > room && |out| > 0 {
          more := true;
          return;
        }
        var take, cut := r.ids, 0;
        if |take| > room {
          take, cut := take[..room], |take| - room;
        }
        out, stopped, missed := TakeMessages(take, out, missed, net);
        if stopped {
          more := true;
          return;
        }
        if cut > 0 {
          if !net.notice(r.id) {
            more, stopped := true, true;
            return;
          }
          out := out + [CutNotice(r.id)];
        }
        next := r.id;
        i := i + 1;
      }
    }
  }

  class Store {
    var cursor: Option<nat>
    var pending: Pending
    var last: int

    constructor ()
      ensures Value() == State(None, NOTHING_PENDING, 0)
    {
      cursor, pending, last := None, NOTHING_PENDING, 0;
    }

    function Value(): State
      reads this
    {
      State(cursor, pending, last)
    }

    /** save: three writes in order, given up at the first that fails. */
    method Save(s: State, puts: nat) returns (ok: bool)
      modifies this
      ensures Value() == Saved(old(Value()), s, puts)
      ensures cursor == (if puts == 0 then old(cursor) else s.cursor)
      ensures pending == (if puts <= 1 then old(pending) else s.pend)
      ensures last == (if puts <= 2 then old(last) else s.lastMS)
      ensures ok <==> puts >= 3
    {
      if puts == 0 { return false; }
      cursor := s.cursor;
      if puts == 1 { return false; }
      pending := s.pend;
      if puts == 2 { return false; }
      last := s.lastMS;
      return true;
    }

    method Rebaseline(st: MailState, net: Net)
      returns (out: seq<Arrival>, ok: bool, ghost absent: set<nat>)
      requires st.cursor.Some?
      modifies this, st
      ensures Outcome(Value(), out, false, ok, absent) == Rebaselined(old(Value()), old(st.Value()), net)
    {
      hide Take, Backwards;
      absent := {};
      if net.profile.None? || net.recent.None? {
        return [], false, absent;
      }
      var hits := net.recent.value;
      if |hits| > MAX_ARRIVALS {
        hits := hits[..MAX_ARRIVALS];
      }
      var taken, stopped;
      taken, stopped, absent := st.TakeBackwards(hits, net);
      if stopped {
        return [], false, absent;
      }
      out := [GapNotice(st.cursor.value)] + taken;
      st.pend := Pending(out, net.profile);
      ok := Save(st.Value(), net.puts);
    }

    method SyncMailbox(recorded: seq<Arrival>, net: Net)
      returns (out: seq<Arrival>, more: bool, ok: bool, ghost absent: set<nat>)
      modifies this
      ensures Outcome(Value(), out, more, ok, absent) == Sync(old(Value()), recorded, net)
      ensures Confirmed(old(Value()), recorded).cursor.None? ==>
                && out == [] && !more && (ok <==> net.profile.Some? && net.puts >= 3)
                && cursor == (if net.profile.Some? && net.puts >= 1 then net.profile else old(cursor))
      ensures Confirmed(old(Value()), recorded).cursor.Some? && net.listing.Unlisted? ==>
                out == [] && !ok && Value() == old(Value())
    {
      hide WalkFrom, Rebaselined;
      absent := {};
      var st := new MailState(State(cursor, pending, last));
      st.Confirm(recorded);
      if st.cursor.None? {
        if net.profile.None? {
          return [], false, false, absent;
        }
        st.cursor := net.profile;
        var saved := Save(st.Value(), net.puts);
        return [], false, saved, absent;
      }
      if net.listing.Unlisted? {
        return [], false, false, absent;
      }
      if net.listing.Expired? {
        more := false;
        out, ok, absent := Rebaseline(st, net);
        return;
      }
      var next, stopped;
      out, next, more, stopped, absent := st.WalkRecords(net.listing.records, st.cursor.value, net);
      if stopped && |out| == 0 {
        return [], false, false, absent;
      }
      if !more && !stopped {
        if net.listing.more {
          more := true;
        } else if net.listing.current.Some? {
          next := net.listing.current.value;
        }
      }
      if |out| == 0 {
        st.cursor, st.pend := Some(next), NOTHING_PENDING;
      } else {
        st.pend := Pending(out, Some(next));
      }
      ok := Save(st.Value(), net.puts);
    }

    method StartWatch(history: nat, puts: nat) returns (ok: bool)
      modifies this
      ensures Value() == Watch(old(Value()), history, puts)
      ensures cursor == if old(cursor).None? && puts >= 1 then Some(history) else old(cursor)
      ensures pending == old(pending) && last == old(last) && (ok <==> old(cursor).Some? || puts >= 3)
    {
      var st := new MailState(State(cursor, pending, last));
      ok := true;
      if st.cursor.None? {
        st.cursor := Some(history);
        ok := Save(st.Value(), puts);
      }
    }
  }
}
