/**
 What the lane promises its callers, over every run of every interleaving.
 */
module SessionTheorems {
  import opened SessionLane
  import opened SessionInvariants

  ghost predicate Inv(s: Lane) {
    && InvTransport(s.out, s.life.fault)
    && InvWatermark(s.out)
    && InvSlots(s.out, s.desk)
    && InvControls(s.out, s.desk)
    && InvCallStates(s.out, s.book)
    && InvCallFrames(s.out, s.book)
    && InvReplies(s.book)
    && InvShutdown(s.out, s.life)
    && InvFlush(s)
  }

  // ---------------------------------------------------- every action keeps Inv

  lemma AcceptKeeps(s: Lane, kind: Kind)
    requires Inv(s) && kind.Event? && TryEnqueue(s.out, s.life, false).Accepted?
    ensures Inv(s.(out := Accept(s.out, kind)))
  {
    AcceptKeepsTransport(s.out, kind, s.life.fault);
    AcceptKeepsWatermark(s.out, kind);
    AcceptKeepsSlots(s.out, s.desk, kind);
    AcceptKeepsControls(s.out, s.desk, kind);
    AcceptKeepsCalls(s.out, s.book, kind);
  }

  lemma AnswerKeeps(s: Lane, c: nat)
    requires Inv(s) && c in s.desk.answering && TryEnqueue(s.out, s.life, true).Accepted?
    ensures Inv(DeskDo(s, AnswerEnqueues(c)))
  {
    hide InvTransport, InvWatermark, InvSlots, InvControls, InvCallStates, InvCallFrames, InvReplies;
    DeskKeepsSlots(s, AnswerEnqueues(c));
    DeskKeepsControls(s, AnswerEnqueues(c));
    AcceptKeepsTransport(s.out, Answer(c), s.life.fault);
    AcceptKeepsWatermark(s.out, Answer(c));
    AcceptKeepsCalls(s.out, s.book, Answer(c));
  }

  lemma DeskKeeps(s: Lane, d: DeskAct)
    requires Inv(s) && DeskCan(s, d)
    ensures Inv(DeskDo(s, d))
  {
    hide InvTransport, InvWatermark, InvSlots, InvControls, InvCallStates, InvCallFrames, InvReplies, InvShutdown;
    DeskKeepsSlots(s, d);
    DeskKeepsControls(s, d);
    if d.AnswerEnqueues? && TryEnqueue(s.out, s.life, true).Accepted? {
      hide Inv, DeskDo;
      AnswerKeeps(s, d.c);
    }
  }

  lemma CallKeeps(s: Lane, c: CallAct)
    requires Inv(s) && CallCan(s, c)
    ensures Inv(CallDo(s, c))
  {
    hide InvTransport, InvWatermark, InvSlots, InvControls, InvCallStates, InvCallFrames, InvReplies;
    CallKeepsCalls(s, c);
    CallKeepsReplies(s, c);
    if c.CallEnqueues? && TryEnqueue(s.out, s.life, false).Accepted? {
      var kind := HostCall(c.id);
      AcceptKeepsTransport(s.out, kind, s.life.fault);
      AcceptKeepsWatermark(s.out, kind);
      AcceptKeepsSlots(s.out, s.desk, kind);
      AcceptKeepsControls(s.out, s.desk, kind);
    } else if c.CallWithdraws? {
      WithdrawKeepsTransport(s.out, s.book.calls[c.id].n, s.life.fault);
      WithdrawKeepsWatermark(s.out, s.book.calls[c.id].n);
      WithdrawKeepsDesk(s.out, s.desk, s.book.calls[c.id].n);
    }
  }

  lemma WriterKeeps(s: Lane, w: WriterAct)
    requires Inv(s) && Enabled(s, ByWriter(w))
    ensures Inv(LaneWriterDo(s, w))
  {
    hide InvTransport, InvSlots, InvControls, InvCallStates, InvCallFrames, InvReplies;
    hide InvFrames;
    WriterKeepsTransport(s.out, w, s.life.fault);
    WriterKeepsWatermark(s.out, w, s.life.fault);
    WriterKeepsSlots(s, w);
    WriterKeepsControls(s, w);
    WriterTouches(s.out, w, s.life.fault);
    TouchKeepsCalls(s.out, WriterDo(s.out, w, s.life.fault), s.book);
  }

  lemma LifeKeeps(s: Lane, l: LifeAct)
    requires Inv(s) && LifeCan(s, l)
    ensures Inv(LifeDo(s, l))
  {
    hide InvTransport, InvWatermark, InvSlots, InvControls, InvCallStates, InvCallFrames, InvReplies;
    FaultKeepsTransport(s.out, s.life.fault);
    if l.Retire? {
      RetireKeepsTransport(s.out, s.life.fault);
      RetireKeepsWatermark(s.out);
      RetireKeepsDesk(s.out, s.desk);
      RetireKeepsCalls(s.out, s.book);
    }
  }

  lemma Keeps(s: Lane, a: Action)
    requires Inv(s) && Enabled(s, a)
    ensures Inv(Do(s, a))
  {
    match a
    case ByWriter(w) => WriterKeeps(s, w);
    case ByDesk(d) => DeskKeeps(s, d);
    case ByCall(c) => CallKeeps(s, c);
    case ByLife(l) => LifeKeeps(s, l);
    case Emit => AcceptKeeps(s, Event);
    case FlushBegins(f) =>
    case FlushReturns(f) =>
  }

  lemma {:induction false} RunKeeps(states: seq<Lane>, actions: seq<Action>, i: nat)
    requires Run(states, actions) && i < |states|
    ensures Inv(states[i])
  {
    if i == 0 {
    } else {
      RunKeeps(states, actions, i - 1);
      Keeps(states[i - 1], actions[i - 1]);
    }
  }

  // ------------------------------------------------------------- what only grows

  /** What no action ever takes back: acceptances, claims, reports, the transport log, the watermark. */
  ghost predicate OutGrows(o: Outbox, p: Outbox) {
    && Sized(o) && Sized(p)
    && o.kinds <= p.kinds && o.begun <= p.begun && o.wrote <= p.wrote
    && (forall k :: 0 <= k < o.queued && !o.owners[k].Nobody? ==> p.owners[k] == o.owners[k])
    && (forall k :: 0 <= k < o.queued && !o.reports[k].Silent? ==> p.reports[k] == o.reports[k])
    && o.broken <= p.broken
    && (o.broken != {} ==> p.begun == o.begun)
    && (o.writer.Retired? ==> p.writer.Retired?)
  }

  ghost predicate Grows(s: Lane, t: Lane) {
    && OutGrows(s.out, t.out)
    && (s.life.closed ==> t.life.closed && forall k :: s.out.queued <= k < t.out.queued ==> t.out.kinds[k].Answer?)
    && (s.life.settled ==> t.life.settled && t.out.kinds == s.out.kinds)
    && s.desk.released <= t.desk.released
    && (forall f :: f in s.flushes ==> f in t.flushes && t.flushes[f].target == s.flushes[f].target)
    && (forall id :: id in s.book.calls && s.book.calls[id].Returned? ==> InCall(t.book, id, s.book.calls[id]))
  }

  lemma AcceptGrows(o: Outbox, kind: Kind)
    requires Sized(o)
    ensures OutGrows(o, Accept(o, kind))
  {}

  lemma WriterGrows(o: Outbox, w: WriterAct, fault: bool)
    requires InvTransport(o, fault) && InvWatermark(o) && WriterCan(o, w)
    ensures OutGrows(o, WriterDo(o, w, fault))
  {
    WriterTouches(o, w, fault);
    WriterKeepsWatermark(o, w, fault);
  }

  lemma WithdrawGrows(o: Outbox, n: nat)
    requires Sized(o) && Tracks(o, n)
    ensures OutGrows(o, Withdraw(o, n))
  {}

  lemma CallGrows(s: Lane, c: CallAct)
    requires CallCan(s, c) && Sized(s.out) && s.book.nextID + 1 !in s.book.calls
    requires s.life.settled ==> s.life.outClosed
    ensures Grows(s, CallDo(s, c))
  {
    hide OutGrows;
    AcceptGrows(s.out, HostCall(if c.CallEnqueues? then c.id else 0));
    OutGrowsReflexively(s.out);
    if c.CallWithdraws? { WithdrawGrows(s.out, s.book.calls[c.id].n); }
  }

  lemma OutGrowsReflexively(o: Outbox)
    requires Sized(o)
    ensures OutGrows(o, o)
  {}

  lemma StepGrows(s: Lane, a: Action)
    requires Inv(s) && Enabled(s, a)
    ensures Grows(s, Do(s, a))
  {
    hide InvTransport, InvSlots, InvControls, InvCallStates, InvCallFrames, InvReplies, InvWatermark;
    InvSized(s);
    FreshId(s);
    match a
    case ByWriter(w) =>
      hide OutGrows, WriterDo;
      WriterGrows(s.out, w, s.life.fault);
      WriterAcceptsNothing(s.out, w, s.life.fault);
    case ByCall(c) => hide Grows; CallGrows(s, c);
    case ByDesk(d) =>
      hide OutGrows;
      OutGrowsReflexively(s.out);
      if d.AnswerEnqueues? { AcceptGrows(s.out, Answer(d.c)); }
    case ByLife(l) => hide InvFlush; OutGrowsReflexively(s.out);
    case Emit => hide InvFlush, OutGrows; AcceptGrows(s.out, Event);
    case _ => hide OutGrows; OutGrowsReflexively(s.out);
  }

  /** The next id was never given to a call before. */
  lemma FreshId(s: Lane)
    requires Inv(s)
    ensures s.book.nextID + 1 !in s.book.calls
  {}

  lemma InvSized(s: Lane)
    requires Inv(s)
    ensures Sized(s.out)
  {}

  lemma WriterAcceptsNothing(o: Outbox, w: WriterAct, fault: bool)
    requires WriterCan(o, w)
    ensures WriterDo(o, w, fault).kinds == o.kinds && WriterDo(o, w, fault).queued == o.queued
  {}

  lemma GrowsTransitively(s: Lane, t: Lane, u: Lane)
    requires Grows(s, t) && Grows(t, u)
    ensures Grows(s, u)
  {}

  lemma {:induction false} RunGrows(states: seq<Lane>, actions: seq<Action>, i: nat, j: nat)
    requires Run(states, actions) && i <= j < |states|
    ensures Grows(states[i], states[j])
    decreases j
  {
    hide Grows;
    if i < j {
      RunGrows(states, actions, i, j - 1);
      RunKeeps(states, actions, j - 1);
      StepGrows(states[j - 1], actions[j - 1]);
      GrowsTransitively(states[i], states[j - 1], states[j]);
    } else {
      RunKeeps(states, actions, i);
      GrowsReflexively(states[i]);
    }
  }

  lemma GrowsReflexively(s: Lane)
    requires Inv(s)
    ensures Grows(s, s)
  {}

  // -------------------------------------------------------------- host calls

  /**
   A host call that reported NotSent never had a byte of its frame handed to the
   transport, then or at any later point of the run.
   */
  lemma NotSentWasNeverBegun(states: seq<Lane>, actions: seq<Action>, i: nat, j: nat, id: nat, n: nat)
    requires Run(states, actions) && i <= j < |states|
    requires id in states[i].book.calls && states[i].book.calls[id].Returned?
    requires states[i].book.calls[id].result.NotSent?
    requires n in states[j].out.begun
    ensures 1 <= n <= |states[j].out.kinds| && states[j].out.kinds[n - 1] != HostCall(id)
  {
    hide InvWatermark, InvSlots, InvControls, InvCallStates, InvReplies, Do, Enabled;
    RunGrows(states, actions, i, j);
    RunKeeps(states, actions, j);
    StateFits(states[j].out, states[j].book, id);
  }

  /**
   A host call that returned a reply had its one frame written whole, and the host sent
   that reply under the call's own id; no other frame carries that id.
   */
  lemma RepliedWasWrittenWhole(states: seq<Lane>, actions: seq<Action>, i: nat, id: nat)
    requires Run(states, actions) && i < |states|
    requires id in states[i].book.calls && states[i].book.calls[id].Returned?
    requires states[i].book.calls[id].result.Replied?
    ensures var s, n := states[i], states[i].book.calls[id].n;
            && n in s.out.begun && n in s.out.whole && n !in s.out.broken
            && (forall k :: 0 <= k < |s.out.kinds| ==> (s.out.kinds[k] == HostCall(id) <==> k + 1 == n))
            && (id, s.book.calls[id].result.payload) in s.book.heard
  {
    RunKeeps(states, actions, i);
    assert CallOK(states[i].out, states[i].book.heard, id, states[i].book.calls[id]);
  }

  /** An id is given to at most one call of a run. */
  lemma IdsAreNeverReused(states: seq<Lane>, actions: seq<Action>, i: nat, j: nat)
    requires Run(states, actions) && i < j < |actions|
    requires actions[i] == ByCall(CallBegins) && actions[j] == ByCall(CallBegins)
    ensures states[i].book.nextID + 1 != states[j].book.nextID + 1
    ensures states[i].book.nextID + 1 in states[j].book.calls
    decreases j
  {
    RunKeeps(states, actions, i);
    CallsPersist(states, actions, i + 1, j, states[i].book.nextID + 1);
    RunKeeps(states, actions, j);
    FreshId(states[j]);
  }

  lemma {:induction false} CallsPersist(states: seq<Lane>, actions: seq<Action>, i: nat, j: nat, id: nat)
    requires Run(states, actions) && i <= j < |states| && id in states[i].book.calls
    ensures id in states[j].book.calls
    decreases j
  {
    if i < j {
      CallsPersist(states, actions, i, j - 1, id);
    }
  }

  // --------------------------------------------------------------- admission

  /**
   In every run a host call that waits for room is queued behind the frames there exactly while fewer than 64
   stand in the queue of an open, unfaulted lane; it is told that it was not sent exactly when the lane is
   closed or faulted; else it goes on waiting.
   */
  lemma CallIsQueuedExactly(states: seq<Lane>, actions: seq<Action>, i: nat, id: nat)
    requires Run(states, actions) && i < |states| && InCall(states[i].book, id, Queueing)
    ensures var s := states[i];
            var t := Do(s, ByCall(CallEnqueues(id)));
            if s.life.closed || s.life.fault then InCall(t.book, id, Returned(0, NotSent)) && t.out == s.out
            else if |s.out.queue| < 64 then
              && InCall(t.book, id, Queued(s.out.queued + 1)) && t.out.queue == s.out.queue + [s.out.queued + 1]
              && t.out.kinds == s.out.kinds + [HostCall(id)]
            else t == s
  {
    hide InvTransport, InvWatermark, InvSlots, InvControls, InvCallStates, InvCallFrames, InvReplies, InvFlush;
    RunKeeps(states, actions, i);
  }

  /**
   Whenever a control's answer reaches the queue, the queue has room for it: the answer is
   accepted, or refused because the lane is past accepting, but never for want of room.
   */
  lemma AnswerIsNeverRefusedForRoom(states: seq<Lane>, actions: seq<Action>, i: nat, c: nat)
    requires Run(states, actions) && i < |states| && c in states[i].desk.answering
    ensures var s := states[i];
            && !TryEnqueue(s.out, s.life, true).Full?
            && (TryEnqueue(s.out, s.life, true).Accepted? <==> !s.life.outClosed && !s.life.fault)
  {
    RunKeeps(states, actions, i);
    RoomForAnswer(states[i].out, states[i].desk);
  }

  /**
   Slots held cover every control still owed an answer and every answer in the queue, and
   ordinary frames never occupy more than the unreserved places.
   */
  lemma SlotsCoverWhatIsOwed(states: seq<Lane>, actions: seq<Action>, i: nat)
    requires Run(states, actions) && i < |states|
    ensures var s, o := states[i], states[i].out;
            && Sized(o) && 0 <= Taken(o)
            && |s.desk.unanswered| + |s.desk.answering| + Answers(o.kinds[Taken(o)..]) <= s.desk.slots <= ADMIT_QUEUE
            && |o.queue| - Answers(o.kinds[Taken(o)..]) <= OUT_QUEUE - ADMIT_QUEUE
            && |o.queue| <= OUT_QUEUE
  {
    RunKeeps(states, actions, i);
    var o := states[i].out;
    if o.writer.Took? {
      assert o.kinds[SlotFrom(o)..][1..] == o.kinds[Taken(o)..];
    }
  }

  /** The control whose slot an action gives back, if it gives one back. */
  function GivesBack(s: Lane, a: Action): set<nat> {
    match a
    case ByDesk(AnswerReleases(c)) => {c}
    case ByWriter(Release) => if HandsSlot(s.out) then {s.out.kinds[s.out.writer.n - 1].control} else {}
    case _ => {}
  }

  lemma RefusedStillHold(o: Outbox, d: Desk)
    requires InvControls(o, d)
    ensures d.refusing !! d.released
  {}

  lemma CallLeavesDesk(s: Lane, c: CallAct)
    requires CallCan(s, c)
    ensures CallDo(s, c).desk == s.desk
  {}

  /** A slot given back is one that is held, by a control that gave none back before. */
  lemma GivesBackOnce(s: Lane, a: Action)
    requires Inv(s) && Enabled(s, a)
    ensures GivesBack(s, a) !! s.desk.released
    ensures GivesBack(s, a) != {} ==> s.desk.slots > 0
    ensures Do(s, a).desk.released == s.desk.released + GivesBack(s, a)
    ensures Do(s, a).desk.slots == s.desk.slots - |GivesBack(s, a)| + (if a == ByDesk(Admit) then 1 else 0)
  {
    hide InvTransport, InvWatermark, InvSlots, InvControls, InvCallStates, InvCallFrames, InvReplies, InvFlush;
    hide WriterDo, TryEnqueue, CallDo, CallCan;
    RefusedStillHold(s.out, s.desk);
    if a.ByCall? { CallLeavesDesk(s, a.c); }
    if HandsSlot(s.out) { HandedSlotIsHeld(s.out, s.desk); }
  }

  /** Every slot given back was held, and no control's slot is given back twice in a run. */
  lemma EachSlotIsReleasedOnce(states: seq<Lane>, actions: seq<Action>, i: nat, j: nat)
    requires Run(states, actions) && i < j < |actions|
    ensures GivesBack(states[i], actions[i]) !! GivesBack(states[j], actions[j])
    ensures GivesBack(states[j], actions[j]) != {} ==> states[j].desk.slots > 0
    ensures states[j + 1].desk.slots ==
            states[j].desk.slots - |GivesBack(states[j], actions[j])| + (if actions[j] == ByDesk(Admit) then 1 else 0)
  {
    hide Inv, GivesBack, Enabled, Do, OutGrows;
    RunKeeps(states, actions, i);
    RunKeeps(states, actions, j);
    GivesBackOnce(states[i], actions[i]);
    GivesBackOnce(states[j], actions[j]);
    RunGrows(states, actions, i + 1, j);
  }

  // ------------------------------------------------------------------- flush

  /**
   A flush begun at step i that returned nil at step j: every frame accepted before it began
   has by then been written whole, or was withdrawn by its caller and never begun.
   */
  lemma FlushedMeansWrittenOrWithdrawn(states: seq<Lane>, actions: seq<Action>, i: nat, j: nat, f: nat, k: nat)
    requires Run(states, actions) && i < j < |actions|
    requires actions[i] == FlushBegins(f) && actions[j] == FlushReturns(f)
    requires k < |states[i].out.kinds|
    ensures var o := states[j].out;
            k < |o.kinds| &&
            (|| (k + 1 in o.begun && k + 1 in o.whole)
             || (k + 1 !in o.begun && o.kinds[k].HostCall?
                 && InCall(states[j].book, o.kinds[k].id, Returned(k + 1, NotSent))))
  {
    hide InvSlots, InvControls, InvCallStates, InvReplies;
    RunKeeps(states, actions, i);
    RunGrows(states, actions, i + 1, j);
    RunKeeps(states, actions, j);
    assert FrameOK(states[j].out, k);
  }

  /** A frame the writer finished without writing it whole stops the watermark below it for good. */
  lemma WatermarkStopsAtFirstFailure(states: seq<Lane>, actions: seq<Action>, i: nat, j: nat, k: nat)
    requires Run(states, actions) && i <= j < |states|
    requires k < |states[i].out.reports| && (states[i].out.reports[k].Broken? || states[i].out.reports[k].Unsent?)
    ensures states[j].out.wrote <= k
  {
    hide InvSlots, InvControls, InvCallStates, InvCallFrames, InvReplies, InvTransport, Do, Enabled;
    RunGrows(states, actions, i, j);
    RunKeeps(states, actions, i);
    RunKeeps(states, actions, j);
    assert FrameOK(states[i].out, k);
  }

  // ------------------------------------------------------- order and shutdown

  /** Frames reach the transport in the order they were accepted, each at most once, none after a failed write. */
  lemma TransportKeepsOrder(states: seq<Lane>, actions: seq<Action>, i: nat, j: nat)
    requires Run(states, actions) && i <= j < |states|
    ensures states[i].out.begun <= states[j].out.begun
    ensures Ascending(states[j].out.begun)
    ensures forall n :: n in states[j].out.begun ==> 1 <= n <= |states[j].out.kinds|
    ensures states[i].out.broken != {} ==> states[j].out.begun == states[i].out.begun
    ensures forall n :: n in states[j].out.broken ==> states[j].out.begun != [] && n == states[j].out.begun[|states[j].out.begun| - 1]
  {
    RunGrows(states, actions, i, j);
    RunKeeps(states, actions, j);
  }

  /** Once the lane is closed nothing but admission answers is accepted, and once it is settled nothing is. */
  lemma ClosedAcceptsOnlyAnswers(states: seq<Lane>, actions: seq<Action>, i: nat, j: nat)
    requires Run(states, actions) && i <= j < |states| && states[i].life.closed
    ensures states[i].out.kinds <= states[j].out.kinds
    ensures forall k :: |states[i].out.kinds| <= k < |states[j].out.kinds| ==> states[j].out.kinds[k].Answer?
    ensures states[i].life.settled ==> states[j].out.kinds == states[i].out.kinds
  {
    RunGrows(states, actions, i, j);
  }

  /** When the writer has retired the queue is empty, every accepted frame is dealt with, and nothing is accepted again. */
  lemma RetiredMeansDone(states: seq<Lane>, actions: seq<Action>, i: nat, j: nat)
    requires Run(states, actions) && i <= j < |states| && states[i].out.writer.Retired?
    ensures states[i].life.settled && states[i].out.queue == [] && states[j].out.queue == []
    ensures states[j].out.kinds == states[i].out.kinds && states[j].out.begun == states[i].out.begun
    ensures Sized(states[i].out) && forall k :: 0 <= k < states[i].out.queued ==>
              Finished(states[i].out.owners[k], states[i].out.reports[k])
  {
    RunGrows(states, actions, i, j);
    RunKeeps(states, actions, i);
    RunKeeps(states, actions, j);
    forall k | 0 <= k < states[i].out.queued
      ensures Finished(states[i].out.owners[k], states[i].out.reports[k])
    {
      assert FrameOK(states[i].out, k);
    }
    RetiredBeginsNothing(states, actions, i, j);
  }

  lemma {:induction false} RetiredBeginsNothing(states: seq<Lane>, actions: seq<Action>, i: nat, j: nat)
    requires Run(states, actions) && i <= j < |states| && states[i].out.writer.Retired?
    ensures states[j].out.writer.Retired? && states[j].out.begun == states[i].out.begun
    decreases j
  {
    if i < j {
      RetiredBeginsNothing(states, actions, i, j - 1);
    }
  }
}
