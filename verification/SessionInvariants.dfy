/**
 What every action of the lane keeps: an inductive invariant in six parts, each
 preserved by every action of every goroutine.
 */
module SessionInvariants {
  import opened SessionLane

  // ------------------------------------------------------------------- outbox

  /** How many frames have been received from the queue. */
  function Taken(o: Outbox): int {
    o.queued - |o.queue|
  }

  predicate Holding(w: WriterAt) {
    !w.Waiting? && !w.Retired?
  }

  /** How many frames the writer is completely done with. */
  function Processed(o: Outbox): int {
    if Holding(o.writer) then Taken(o) - 1 else Taken(o)
  }

  /** The queue holds the newest sequence numbers, consecutively; the writer holds the one before. */
  ghost predicate InvQueue(o: Outbox) {
    && o.queued == |o.kinds| == |o.owners| == |o.reports|
    && |o.queue| <= o.queued
    && (forall j :: 0 <= j < |o.queue| ==> o.queue[j] == Taken(o) + 1 + j)
    && (Holding(o.writer) ==> 1 <= o.writer.n == Taken(o))
  }

  /** A frame the writer owes nothing for: written whole, or withdrawn by its caller. */
  predicate Good(owner: Owner, report: Report) {
    owner.Caller? || (owner.Writer? && report.Written?)
  }

  predicate Finished(owner: Owner, report: Report) {
    (owner.Caller? && report.Silent?) || (owner.Writer? && !report.Silent?)
  }

  /** Claim and report of frame k+1, by how far the writer has come. */
  ghost predicate FrameOK(o: Outbox, k: nat)
    requires k < |o.owners| == |o.reports|
  {
    if k < Processed(o) then Finished(o.owners[k], o.reports[k])
    else if k < Taken(o) && !o.writer.Took? && !o.writer.Freed? then
      if o.writer.Marking? then
        Finished(o.owners[k], o.reports[k]) && o.writer.owedNothing == Good(o.owners[k], o.reports[k])
      else o.owners[k].Writer? && o.reports[k].Silent?
    else !o.owners[k].Writer? && o.reports[k].Silent?
  }

  ghost predicate InvFrames(o: Outbox) {
    InvQueue(o) && forall k :: 0 <= k < o.queued ==> FrameOK(o, k)
  }

  lemma AcceptKeepsFrames(o: Outbox, kind: Kind)
    requires InvFrames(o)
    ensures InvFrames(Accept(o, kind))
  {
    var p := Accept(o, kind);
    forall k | 0 <= k < p.queued ensures FrameOK(p, k) {
      if k < o.queued { assert FrameOK(o, k); }
    }
  }

  lemma WithdrawKeepsFrames(o: Outbox, n: nat)
    requires InvFrames(o) && Tracks(o, n)
    ensures InvFrames(Withdraw(o, n))
  {
    var p := Withdraw(o, n);
    forall k | 0 <= k < p.queued ensures FrameOK(p, k) {
      assert FrameOK(o, k);
    }
  }

  lemma WriterKeepsFrames(o: Outbox, w: WriterAct, fault: bool)
    requires InvFrames(o) && WriterCan(o, w)
    ensures InvFrames(WriterDo(o, w, fault))
  {
    var p := WriterDo(o, w, fault);
    forall k | 0 <= k < p.queued ensures FrameOK(p, k) {
      assert FrameOK(o, k);
    }
  }

  predicate Ascending(xs: seq<nat>) {
    forall i, j :: 0 <= i < j < |xs| ==> xs[i] < xs[j]
  }

  predicate AfterFailure(w: WriterAt) {
    w.Failing? || w.Ending? || w.Reporting?
  }

  /** The transport log agrees with the claims and reports; a failed write is the last one begun. */
  ghost predicate InvTransport(o: Outbox, fault: bool) {
    && InvFrames(o)
    && Ascending(o.begun)
    && (forall n :: n in o.begun ==> 1 <= n <= Taken(o) && o.owners[n - 1].Writer? && !o.reports[n - 1].Unsent?)
    && (forall n :: n in o.whole ==> n in o.begun && o.reports[n - 1].Written?)
    && (forall n :: n in o.broken ==> n in o.begun && n == o.begun[|o.begun| - 1] && !o.reports[n - 1].Written?)
    && (o.broken != {} ==> fault || o.writer.Failing?)
    && (forall n :: n in o.begun && n !in o.whole && n !in o.broken ==> o.writer == Writing(n))
    && (forall k :: 0 <= k < o.queued && o.reports[k].Written? ==> k + 1 in o.whole)
    && (o.writer.Claimed? ==> o.writer.n !in o.begun)
    && (o.writer.Writing? ==> o.writer.n in o.begun && o.writer.n !in o.whole && o.writer.n !in o.broken)
    && (AfterFailure(o.writer) ==> o.writer.n in o.broken)
  }

  lemma AcceptKeepsTransport(o: Outbox, kind: Kind, fault: bool)
    requires InvTransport(o, fault)
    ensures InvTransport(Accept(o, kind), fault)
  {
    AcceptKeepsFrames(o, kind);
  }

  lemma WithdrawKeepsTransport(o: Outbox, n: nat, fault: bool)
    requires InvTransport(o, fault) && Tracks(o, n)
    ensures InvTransport(Withdraw(o, n), fault)
  {
    WithdrawKeepsFrames(o, n);
  }

  lemma BeginKeepsTransport(o: Outbox)
    requires InvTransport(o, false) && o.writer.Claimed?
    ensures InvTransport(o.(writer := Writing(o.writer.n), begun := o.begun + [o.writer.n]), false)
  {
    WriterKeepsFrames(o, CheckFault, false);
    assert FrameOK(o, o.writer.n - 1);
    forall i | 0 <= i < |o.begun| ensures o.begun[i] < o.writer.n {
      assert o.begun[i] in o.begun;
    }
  }

  lemma EndWriteKeepsTransport(o: Outbox, w: WriterAct, fault: bool)
    requires InvTransport(o, fault) && WriterCan(o, w) && (w.Finish? || w.Fail?)
    ensures InvTransport(WriterDo(o, w, fault), fault)
  {
    WriterKeepsFrames(o, w, fault);
    assert FrameOK(o, o.writer.n - 1);
    var last := o.begun[|o.begun| - 1];
    assert last in o.begun;
    assert o.writer.n == last;
  }

  lemma ReportKeepsTransport(o: Outbox, w: WriterAct, fault: bool)
    requires InvTransport(o, fault) && WriterCan(o, w)
    requires w.ReportBroken? || (w.CheckFault? && fault)
    ensures InvTransport(WriterDo(o, w, fault), fault)
  {
    WriterKeepsFrames(o, w, fault);
    assert FrameOK(o, o.writer.n - 1);
    var p := WriterDo(o, w, fault);
    assert p.begun == o.begun && p.owners == o.owners;
  }

  lemma ClaimKeepsTransport(o: Outbox, fault: bool)
    requires InvTransport(o, fault) && WriterCan(o, Claim)
    ensures InvTransport(WriterDo(o, Claim, fault), fault)
  {
    WriterKeepsFrames(o, Claim, fault);
    assert FrameOK(o, o.writer.n - 1);
    assert o.writer.n !in o.begun;
  }

  lemma QuietKeepsTransport(o: Outbox, w: WriterAct, fault: bool)
    requires InvTransport(o, fault) && WriterCan(o, w)
    requires w.Take? || w.Release? || w.EndLane? || w.Mark?
    ensures InvTransport(WriterDo(o, w, fault), fault)
  {
    WriterKeepsFrames(o, w, fault);
  }

  lemma RaiseKeepsTransport(o: Outbox, fault: bool)
    requires InvTransport(o, fault) && o.writer.Failing?
    ensures InvTransport(WriterDo(o, RaiseFault, fault), true)
  {
    WriterKeepsFrames(o, RaiseFault, fault);
  }

  lemma WriterKeepsTransport(o: Outbox, w: WriterAct, fault: bool)
    requires InvTransport(o, fault) && WriterCan(o, w)
    ensures InvTransport(WriterDo(o, w, fault), fault || w.RaiseFault?)
  {
    hide InvTransport;
    match w
    case CheckFault => if fault { ReportKeepsTransport(o, w, fault); } else { BeginKeepsTransport(o); }
    case Finish => EndWriteKeepsTransport(o, w, fault);
    case Fail => EndWriteKeepsTransport(o, w, fault);
    case Claim => ClaimKeepsTransport(o, fault);
    case ReportBroken => ReportKeepsTransport(o, w, fault);
    case RaiseFault => RaiseKeepsTransport(o, fault);
    case _ => QuietKeepsTransport(o, w, fault);
  }

  /** The watermark is exactly the length of the leading run of good frames among those processed. */
  ghost predicate InvWatermark(o: Outbox) {
    && InvFrames(o)
    && o.wrote <= Processed(o)
    && (forall k :: 0 <= k < o.wrote ==> Good(o.owners[k], o.reports[k]))
    && (o.wrote < Processed(o) ==> !Good(o.owners[o.wrote], o.reports[o.wrote]))
  }

  lemma AcceptKeepsWatermark(o: Outbox, kind: Kind)
    requires InvWatermark(o)
    ensures InvWatermark(Accept(o, kind))
  {
    AcceptKeepsFrames(o, kind);
  }

  lemma WithdrawKeepsWatermark(o: Outbox, n: nat)
    requires InvWatermark(o) && Tracks(o, n)
    ensures InvWatermark(Withdraw(o, n))
  {
    WithdrawKeepsFrames(o, n);
    if o.wrote < Processed(o) { assert FrameOK(o, o.wrote); }
  }

  lemma WriterKeepsWatermark(o: Outbox, w: WriterAct, fault: bool)
    requires InvWatermark(o) && WriterCan(o, w)
    ensures InvWatermark(WriterDo(o, w, fault))
    ensures o.wrote <= WriterDo(o, w, fault).wrote
  {
    WriterKeepsFrames(o, w, fault);
    if Holding(o.writer) { assert FrameOK(o, o.writer.n - 1); }
  }

  // ---------------------------------------------------------------- admission

  function Answers(kinds: seq<Kind>): nat {
    if kinds == [] then 0 else (if kinds[0].Answer? then 1 else 0) + Answers(kinds[1..])
  }

  lemma {:induction false} AnswersAppend(kinds: seq<Kind>, k: Kind)
    ensures Answers(kinds + [k]) == Answers(kinds) + (if k.Answer? then 1 else 0)
  {
    if kinds == [] {
      assert kinds + [k] == [k];
    } else {
      assert (kinds + [k])[1..] == kinds[1..] + [k];
      AnswersAppend(kinds[1..], k);
    }
  }

  /** The first frame, counted from zero, whose admission slot is not released yet. */
  function SlotFrom(o: Outbox): int {
    if o.writer.Took? then Taken(o) - 1 else Taken(o)
  }

  /**
   Slots held are the controls not yet answered, the answers under way, the refused
   answers about to give their slot back, and the answers queued or just taken.
   Ordinary frames in the queue never pass the unreserved share.
   */
  ghost predicate InvSlots(o: Outbox, d: Desk) {
    && InvQueue(o)
    && d.slots == |d.unanswered| + |d.answering| + |d.refusing| + Answers(o.kinds[SlotFrom(o)..])
    && d.slots <= ADMIT_QUEUE
    && |o.queue| - Answers(o.kinds[Taken(o)..]) <= OUT_QUEUE - ADMIT_QUEUE
  }

  /** The controls whose slot is in some hand, and the controls whose slot was given back. */
  ghost predicate InvControls(o: Outbox, d: Desk) {
    && InvQueue(o)
    && d.unanswered !! d.answering !! d.refusing !! d.released
    && (forall c :: c in d.unanswered || c in d.answering || c in d.refusing || c in d.released ==> c < d.admitted)
    && (forall k :: 0 <= k < o.queued && o.kinds[k].Answer? ==>
        && o.kinds[k].control < d.admitted
        && o.kinds[k].control !in d.unanswered && o.kinds[k].control !in d.answering
        && o.kinds[k].control !in d.refusing
        && (o.kinds[k].control in d.released <==> k < SlotFrom(o)))
    && (forall j, k :: 0 <= j < k < o.queued && o.kinds[j].Answer? && o.kinds[k].Answer? ==>
        o.kinds[j].control != o.kinds[k].control)
  }

  lemma AcceptKeepsSlots(o: Outbox, d: Desk, kind: Kind)
    requires InvSlots(o, d) && !kind.Answer?
    requires |o.queue| < OUT_QUEUE - ADMIT_QUEUE
    ensures InvSlots(Accept(o, kind), d)
  {
    assert Accept(o, kind).kinds[SlotFrom(o)..] == o.kinds[SlotFrom(o)..] + [kind];
    AnswersAppend(o.kinds[SlotFrom(o)..], kind);
    assert Accept(o, kind).kinds[Taken(o)..] == o.kinds[Taken(o)..] + [kind];
    AnswersAppend(o.kinds[Taken(o)..], kind);
  }

  /** With an answer under way there is room for it: the reserve is never taken by anything else. */
  lemma RoomForAnswer(o: Outbox, d: Desk)
    requires InvSlots(o, d) && d.answering != {}
    ensures |o.queue| < OUT_QUEUE
  {
    if o.writer.Took? {
      assert o.kinds[SlotFrom(o)..][1..] == o.kinds[Taken(o)..];
    }
  }

  lemma AnswerKeepsSlots(o: Outbox, d: Desk, c: nat)
    requires InvSlots(o, d) && c in d.answering
    ensures InvSlots(Accept(o, Answer(c)), d.(answering := d.answering - {c}))
  {
    var kind := Answer(c);
    assert Accept(o, kind).kinds[SlotFrom(o)..] == o.kinds[SlotFrom(o)..] + [kind];
    AnswersAppend(o.kinds[SlotFrom(o)..], kind);
    assert Accept(o, kind).kinds[Taken(o)..] == o.kinds[Taken(o)..] + [kind];
    AnswersAppend(o.kinds[Taken(o)..], kind);
  }

  lemma DeskKeepsSlots(s: Lane, a: DeskAct)
    requires DeskCan(s, a) && InvSlots(s.out, s.desk) && InvControls(s.out, s.desk)
    ensures InvSlots(DeskDo(s, a).out, DeskDo(s, a).desk)
  {
    match a
    case Admit =>
      assert s.desk.admitted !in s.desk.unanswered;
    case AnswerWins(c) =>
      assert c !in s.desk.answering;
    case AnswerEnqueues(c) =>
      assert c !in s.desk.refusing;
      if TryEnqueue(s.out, s.life, true).Accepted? { AnswerKeepsSlots(s.out, s.desk, c); }
    case AnswerReleases(c) =>
  }

  lemma DeskKeepsControls(s: Lane, a: DeskAct)
    requires DeskCan(s, a) && InvControls(s.out, s.desk)
    ensures InvControls(DeskDo(s, a).out, DeskDo(s, a).desk)
  {
    hide TryEnqueue;
    if a.AnswerEnqueues? && TryEnqueue(s.out, s.life, true).Accepted? {
      AnswerKeepsControls(s.out, s.desk, a.c);
    }
  }

  lemma AnswerKeepsControls(o: Outbox, d: Desk, c: nat)
    requires InvControls(o, d) && c in d.answering
    ensures InvControls(Accept(o, Answer(c)), d.(answering := d.answering - {c}))
  {}

  lemma AcceptKeepsControls(o: Outbox, d: Desk, kind: Kind)
    requires InvControls(o, d) && !kind.Answer?
    ensures InvControls(Accept(o, kind), d)
  {}

  /** The slot the writer gives back is held, and is given back for the first time. */
  lemma HandedSlotIsHeld(o: Outbox, d: Desk)
    requires InvSlots(o, d) && InvControls(o, d) && HandsSlot(o)
    ensures d.slots > 0
    ensures o.kinds[o.writer.n - 1].control !in d.released
  {}

  lemma WithdrawKeepsDesk(o: Outbox, d: Desk, n: nat)
    requires Tracks(o, n) && InvSlots(o, d) && InvControls(o, d)
    ensures InvSlots(Withdraw(o, n), d) && InvControls(Withdraw(o, n), d)
  {}

  lemma TakeKeepsSlots(o: Outbox, d: Desk)
    requires InvSlots(o, d) && WriterCan(o, Take)
    ensures InvSlots(WriterDo(o, Take, false), d)
  {
    assert o.kinds[Taken(o)..][1..] == o.kinds[Taken(o) + 1..];
  }

  lemma ReleaseKeepsSlots(s: Lane)
    requires Enabled(s, ByWriter(Release)) && InvSlots(s.out, s.desk)
    ensures InvSlots(LaneWriterDo(s, Release).out, LaneWriterDo(s, Release).desk)
  {
    assert s.out.kinds[SlotFrom(s.out)..][1..] == s.out.kinds[Taken(s.out)..];
  }

  lemma WriterKeepsSlots(s: Lane, w: WriterAct)
    requires Enabled(s, ByWriter(w)) && InvSlots(s.out, s.desk) && InvFrames(s.out)
    ensures InvSlots(LaneWriterDo(s, w).out, LaneWriterDo(s, w).desk)
  {
    WriterKeepsFrames(s.out, w, s.life.fault);
    match w
    case Take => TakeKeepsSlots(s.out, s.desk);
    case Release => ReleaseKeepsSlots(s);
    case _ =>
  }

  lemma ReleaseKeepsControls(s: Lane)
    requires Enabled(s, ByWriter(Release)) && InvControls(s.out, s.desk)
    ensures InvControls(LaneWriterDo(s, Release).out, LaneWriterDo(s, Release).desk)
  {}

  lemma WriterKeepsControls(s: Lane, w: WriterAct)
    requires Enabled(s, ByWriter(w)) && InvControls(s.out, s.desk) && InvFrames(s.out)
    ensures InvControls(LaneWriterDo(s, w).out, LaneWriterDo(s, w).desk)
  {
    hide InvFrames;
    if w.Release? { ReleaseKeepsControls(s); }
  }

  // --------------------------------------------------------------- host calls

  predicate Sized(o: Outbox) {
    o.queued == |o.kinds| == |o.owners| == |o.reports|
  }

  /** No accepted frame carries the call's id. */
  ghost predicate NoFrame(o: Outbox, id: nat) {
    forall k :: 0 <= k < |o.kinds| ==> o.kinds[k] != HostCall(id)
  }

  ghost predicate CallOK(o: Outbox, heard: set<(nat, nat)>, id: nat, at: CallAt)
    requires Sized(o)
  {
    match at
    case Queueing => NoFrame(o, id)
    case Queued(n) => 1 <= n <= o.queued && o.kinds[n - 1] == HostCall(id) && !o.owners[n - 1].Caller?
    case Sent(n) => 1 <= n <= o.queued && o.kinds[n - 1] == HostCall(id) && o.reports[n - 1].Written?
    case Returned(n, result) =>
      if n == 0 then result.NotSent? && NoFrame(o, id)
      else
        && n <= o.queued
        && o.kinds[n - 1] == HostCall(id)
        && (result.NotSent? ==> o.owners[n - 1].Caller? || o.reports[n - 1].Unsent?)
        && (result.Replied? ==> o.reports[n - 1].Written? && (id, result.payload) in heard)
  }

  /** Ids are handed out once, in order, and every call's state fits its frame. */
  ghost predicate InvCallStates(o: Outbox, b: Book) {
    && Sized(o)
    && (forall id :: id in b.calls <==> 1 <= id <= b.nextID)
    && (forall id :: id in b.calls ==> CallOK(o, b.heard, id, b.calls[id]))
  }

  /** Every host call frame belongs to one call, and only a call that returned NotSent withdrew one. */
  ghost predicate InvCallFrames(o: Outbox, b: Book) {
    && Sized(o)
    && (forall k :: 0 <= k < o.queued && o.kinds[k].HostCall? ==> o.kinds[k].id in b.calls)
    && (forall j, k :: 0 <= j < k < o.queued && o.kinds[j].HostCall? && o.kinds[k].HostCall? ==>
        o.kinds[j].id != o.kinds[k].id)
    && (forall k :: 0 <= k < o.queued && o.owners[k].Caller? ==>
        o.kinds[k].HostCall? && InCall(b, o.kinds[k].id, Returned(k + 1, NotSent)))
  }

  ghost predicate InvReplies(b: Book) {
    && (forall id :: id in b.boxes ==> (id, b.boxes[id]) in b.heard)
    && b.delivering <= b.heard
  }

  lemma AcceptKeepsCalls(o: Outbox, b: Book, kind: Kind)
    requires InvCallStates(o, b) && InvCallFrames(o, b) && !kind.HostCall?
    ensures InvCallStates(Accept(o, kind), b) && InvCallFrames(Accept(o, kind), b)
  {}

  /** What the writer may change about accepted frames: an unclaimed owner, a silent report. */
  ghost predicate Touches(o: Outbox, p: Outbox) {
    && Sized(o) && Sized(p) && p.kinds == o.kinds
    && (forall k :: 0 <= k < o.queued ==> p.owners[k] == o.owners[k] || (o.owners[k].Nobody? && p.owners[k].Writer?))
    && (forall k :: 0 <= k < o.queued ==> p.reports[k] == o.reports[k] || o.reports[k].Silent?)
  }

  lemma WriterTouches(o: Outbox, w: WriterAct, fault: bool)
    requires InvFrames(o) && WriterCan(o, w)
    ensures Touches(o, WriterDo(o, w, fault))
  {
    if Holding(o.writer) { assert FrameOK(o, o.writer.n - 1); }
  }

  lemma TouchKeepsCalls(o: Outbox, p: Outbox, b: Book)
    requires InvCallStates(o, b) && InvCallFrames(o, b) && Touches(o, p)
    ensures InvCallStates(p, b) && InvCallFrames(p, b)
  {
    forall id | id in b.calls ensures CallOK(p, b.heard, id, b.calls[id]) {
      assert CallOK(o, b.heard, id, b.calls[id]);
    }
  }

  /** A call may change its own state to any that fits, unless a withdrawn frame already fixed it. */
  lemma PutKeepsCalls(o: Outbox, b: Book, id: nat, at: CallAt)
    requires InvCallStates(o, b) && InvCallFrames(o, b)
    requires id in b.calls && !b.calls[id].Returned? && CallOK(o, b.heard, id, at)
    ensures var c := b.(calls := b.calls[id := at]); InvCallStates(o, c) && InvCallFrames(o, c)
  {}

  lemma QueueKeepsCalls(o: Outbox, b: Book, id: nat)
    requires InvCallStates(o, b) && InvCallFrames(o, b) && InCall(b, id, Queueing)
    ensures var c := b.(calls := b.calls[id := Queued(o.queued + 1)]);
            InvCallStates(Accept(o, HostCall(id)), c) && InvCallFrames(Accept(o, HostCall(id)), c)
  {
    assert CallOK(o, b.heard, id, Queueing);
  }

  lemma WithdrawKeepsCalls(o: Outbox, b: Book, id: nat, n: nat)
    requires InvCallStates(o, b) && InvCallFrames(o, b) && InCall(b, id, Queued(n))
    requires Tracks(o, n) && o.owners[n - 1].Nobody?
    ensures var c := b.(calls := b.calls[id := Returned(n, NotSent)]);
            InvCallStates(Withdraw(o, n), c) && InvCallFrames(Withdraw(o, n), c)
  {
    assert CallOK(o, b.heard, id, Queued(n));
  }

  lemma BeginKeepsCalls(o: Outbox, b: Book)
    requires InvCallStates(o, b) && InvCallFrames(o, b)
    ensures var id := b.nextID + 1;
            var c := b.(nextID := id, pending := b.pending + {id}, calls := b.calls[id := Queueing]);
            InvCallStates(o, c) && InvCallFrames(o, c)
  {
    assert forall k :: 0 <= k < o.queued && o.kinds[k].HostCall? ==> o.kinds[k].id <= b.nextID;
  }

  /** Only the calls, the ids given out and the replies heard matter to the call invariants. */
  lemma HearingKeepsCalls(o: Outbox, b: Book, c: Book)
    requires InvCallStates(o, b) && InvCallFrames(o, b)
    requires c.calls == b.calls && c.nextID == b.nextID && b.heard <= c.heard
    ensures InvCallStates(o, c) && InvCallFrames(o, c)
  {
    forall id | id in c.calls ensures CallOK(o, c.heard, id, c.calls[id]) {
      assert CallOK(o, b.heard, id, b.calls[id]);
    }
  }

  lemma StateFits(o: Outbox, b: Book, id: nat)
    requires InvCallStates(o, b) && id in b.calls
    ensures Sized(o) && CallOK(o, b.heard, id, b.calls[id])
  {}

  /** The moves a call makes after its frame was queued. */
  lemma SettlingKeepsCalls(s: Lane, c: CallAct)
    requires CallCan(s, c) && InvCallStates(s.out, s.book) && InvCallFrames(s.out, s.book) && InvReplies(s.book)
    requires c.CallHears? || c.CallWithdraws? || c.CallTakesReply? || c.CallStopsWaiting?
    ensures InvCallStates(CallDo(s, c).out, CallDo(s, c).book)
    ensures InvCallFrames(CallDo(s, c).out, CallDo(s, c).book)
  {
    hide InvCallStates, InvCallFrames;
    var o, b, n := s.out, s.book, s.book.calls[c.id].n;
    StateFits(o, b, c.id);
    match c
    case CallHears(id) => PutKeepsCalls(o, b, id, AfterReport(n, o.reports[n - 1]));
    case CallWithdraws(id) =>
      if o.owners[n - 1].Nobody? { WithdrawKeepsCalls(o, b, id, n); }
      else { PutKeepsCalls(o, b, id, Returned(n, OutcomeUnknown)); }
    case CallTakesReply(id) => PutKeepsCalls(o, b, id, Returned(n, Replied(b.boxes[id])));
    case CallStopsWaiting(id) => PutKeepsCalls(o, b, id, Returned(n, OutcomeUnknown));
  }

  lemma CallKeepsCalls(s: Lane, c: CallAct)
    requires CallCan(s, c) && InvCallStates(s.out, s.book) && InvCallFrames(s.out, s.book) && InvReplies(s.book)
    ensures InvCallStates(CallDo(s, c).out, CallDo(s, c).book)
    ensures InvCallFrames(CallDo(s, c).out, CallDo(s, c).book)
  {
    hide InvCallStates, InvCallFrames;
    var o, b := s.out, s.book;
    match c
    case CallBegins => BeginKeepsCalls(o, b);
    case CallEnqueues(id) =>
      StateFits(o, b, id);
      if TryEnqueue(o, s.life, false).Accepted? { QueueKeepsCalls(o, b, id); }
      else { PutKeepsCalls(o, b, id, Returned(0, NotSent)); }
    case CallAbandonsQueue(id) =>
      StateFits(o, b, id);
      PutKeepsCalls(o, b, id, Returned(0, NotSent));
    case CallForgets(_) => HearingKeepsCalls(o, b, CallDo(s, c).book);
    case ReplyArrives(_, _) => HearingKeepsCalls(o, b, CallDo(s, c).book);
    case ReplyDelivers(_, _) => HearingKeepsCalls(o, b, CallDo(s, c).book);
    case _ => SettlingKeepsCalls(s, c);
  }

  lemma CallKeepsReplies(s: Lane, c: CallAct)
    requires CallCan(s, c) && InvReplies(s.book)
    ensures InvReplies(CallDo(s, c).book)
  {}

  // ------------------------------------------------------- shutdown and flush

  lemma RetireKeepsTransport(o: Outbox, fault: bool)
    requires o.writer.Waiting? && InvTransport(o, fault)
    ensures InvTransport(o.(writer := Retired), fault)
  {
    forall k | 0 <= k < o.queued ensures FrameOK(o.(writer := Retired), k) {
      assert FrameOK(o, k);
    }
  }

  lemma RetireKeepsWatermark(o: Outbox)
    requires o.writer.Waiting? && InvWatermark(o)
    ensures InvWatermark(o.(writer := Retired))
  {
    forall k | 0 <= k < o.queued ensures FrameOK(o.(writer := Retired), k) {
      assert FrameOK(o, k);
    }
  }

  lemma RetireKeepsCalls(o: Outbox, b: Book)
    requires InvCallStates(o, b) && InvCallFrames(o, b)
    ensures InvCallStates(o.(writer := Retired), b) && InvCallFrames(o.(writer := Retired), b)
  {
    TouchKeepsCalls(o, o.(writer := Retired), b);
  }

  lemma RetireKeepsDesk(o: Outbox, d: Desk)
    requires o.writer.Waiting? && InvSlots(o, d) && InvControls(o, d)
    ensures InvSlots(o.(writer := Retired), d) && InvControls(o.(writer := Retired), d)
  {}

  /** A recorded fault only confirms what the transport already shows. */
  lemma FaultKeepsTransport(o: Outbox, fault: bool)
    requires InvTransport(o, fault)
    ensures InvTransport(o, true)
  {}

  ghost predicate InvShutdown(o: Outbox, l: Life) {
    && (l.settled ==> l.closed)
    && (l.outClosed <==> l.settled)
    && (!l.phase.Serving? ==> l.closed)
    && (l.phase.Final? ==> l.settled)
    && (o.writer.Retired? ==> l.phase.Final? && o.queue == [])
  }

  ghost predicate InvFlush(s: Lane) {
    forall f :: f in s.flushes ==>
      s.flushes[f].target <= s.out.queued && (s.flushes[f].Flushed? ==> s.flushes[f].target <= s.out.wrote)
  }
}
