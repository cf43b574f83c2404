/**
 The session object itself: the fields its goroutines share, and one method for every critical
 section, compare-and-swap and transport step.  Each says over those fields what it does, and
 is proved to be exactly one action of the lane, so whatever holds over every run of actions
 holds of every interleaving of these methods.
 */
module SessionObject {
  import opened SessionLane
  import opened SessionInvariants
  import opened SessionTheorems

  class Session {
    var queue: seq<nat>
    var queued: nat
    var wrote: nat
    var kinds: seq<Kind>
    var owners: seq<Owner>
    var reports: seq<Report>
    var writer: WriterAt
    var begun: seq<nat>
    var whole: set<nat>
    var broken: set<nat>
    var life: Life
    var desk: Desk
    var book: Book
    var flushes: map<nat, FlushAt>

    ghost function View(): Lane
      reads this
    {
      Lane(Outbox(queue, queued, wrote, kinds, owners, reports, writer, begun, whole, broken),
           life, desk, book, flushes)
    }

    constructor ()
      ensures View() == Fresh && Inv(View())
    {
      queue, queued, wrote := [], 0, 0;
      kinds, owners, reports := [], [], [];
      writer, begun, whole, broken := Waiting, [], {}, {};
      life := Life(Serving, false, false, false, false);
      desk := Desk(0, 0, {}, {}, {}, {});
      book := Book(0, {}, map[], map[], {}, {});
      flushes := map[];
    }

    /** tryEnqueue: one critical section that refuses, reports a full queue, or appends the frame. */
    method TryEnqueue(kind: Kind, admission: bool) returns (r: Enqueued)
      modifies this`queue, this`queued, this`kinds, this`owners, this`reports
      ensures r.Refused? <==> life.outClosed || life.fault || (!admission && life.closed)
      ensures r.Accepted? <==> !r.Refused? && |old(queue)| < if admission then 128 else 64
      ensures r.Accepted? ==> queued == old(queued) + 1 && queue == old(queue) + [old(queued) + 1]
      ensures r.Accepted? ==> kinds == old(kinds) + [kind] && owners == old(owners) + [Nobody] && reports == old(reports) + [Silent]
      ensures !r.Accepted? ==> View() == old(View())
      ensures r == SessionLane.TryEnqueue(old(View()).out, old(View()).life, admission)
      ensures View().out == if r.Accepted? then Accept(old(View()).out, kind) else old(View()).out
    {
      if life.outClosed || life.fault {
        return Refused;
      }
      if !admission {
        if life.closed {
          return Refused;
        }
        if |queue| >= OUT_QUEUE - ADMIT_QUEUE {
          return Full;
        }
      }
      if |queue| >= OUT_QUEUE {
        return Full;
      }
      var n := queued + 1;
      queue := queue + [n];
      kinds, owners, reports := kinds + [kind], owners + [Nobody], reports + [Silent];
      queued := n;
      return Accepted;
    }

    /** The part of Answer after its swap: the answer is queued, or keeps its slot until it gives it back. */
    method RespondAdmission(c: nat) returns (r: Enqueued)
      requires Inv(View()) && c in desk.answering
      modifies this
      ensures Steps(old(View()), ByDesk(AnswerEnqueues(c)), View())
      ensures !r.Full? && (r.Accepted? <==> !old(life.outClosed) && !old(life.fault))
      ensures r.Accepted? ==> queue == old(queue) + [old(queued) + 1] && kinds == old(kinds) + [Answer(c)] && desk.refusing == old(desk.refusing)
      ensures r.Refused? ==> queue == old(queue) && c in desk.refusing
      ensures c !in desk.answering && desk.slots == old(desk.slots)
      ensures Inv(View())
    {
      hide Inv;
      Keeps(View(), ByDesk(AnswerEnqueues(c)));
      RoomUnderInv(View());
      r := TryEnqueue(Answer(c), true);
      desk := desk.(answering := desk.answering - {c});
      if !r.Accepted? {
        desk := desk.(refusing := desk.refusing + {c});
      }
    }

    /** One turn of enqueue's loop for a host call. */
    method EnqueueCall(id: nat) returns (r: Enqueued)
      requires Inv(View()) && InCall(book, id, Queueing)
      modifies this
      ensures Steps(old(View()), ByCall(CallEnqueues(id)), View())
      ensures r.Refused? <==> old(life.outClosed) || old(life.fault) || old(life.closed)
      ensures r.Accepted? <==> !r.Refused? && |old(queue)| < 64
      ensures r.Accepted? ==> InCall(book, id, Queued(old(queued) + 1))
      ensures r.Accepted? ==> queue == old(queue) + [old(queued) + 1] && kinds == old(kinds) + [HostCall(id)]
      ensures r.Refused? ==> InCall(book, id, Returned(0, NotSent)) && queue == old(queue)
      ensures r.Full? ==> InCall(book, id, Queueing) && View() == old(View())
      ensures Inv(View())
    {
      hide Inv;
      Keeps(View(), ByCall(CallEnqueues(id)));
      r := TryEnqueue(HostCall(id), false);
      if r.Accepted? {
        book := book.(calls := book.calls[id := Queued(queued)]);
      } else if r.Refused? {
        book := book.(calls := book.calls[id := Returned(0, NotSent)]);
      }
    }

    /** HostCallTo's first critical section: an id never used before, and its place among the pending. */
    method BeginCall() returns (id: nat)
      requires Inv(View()) && |book.pending| < 64
      modifies this`book
      ensures Steps(old(View()), ByCall(CallBegins), View())
      ensures id == old(book.nextID) + 1 == book.nextID && id !in old(book.calls)
      ensures InCall(book, id, Queueing) && book.pending == old(book.pending) + {id} && book.boxes == old(book.boxes)
      ensures Inv(View())
    {
      hide Inv;
      Keeps(View(), ByCall(CallBegins));
      FreshId(View());
      id := book.nextID + 1;
      book := book.(nextID := id, pending := book.pending + {id}, calls := book.calls[id := Queueing]);
    }

    /** A cancelled or closed-out call tries to take its frame back before the writer does. */
    method WithdrawCall(id: nat) returns (won: bool)
      requires Inv(View()) && id in book.calls && book.calls[id].Queued?
      modifies this`owners, this`book
      ensures Steps(old(View()), ByCall(CallWithdraws(id)), View())
      ensures var n := old(book.calls[id].n);
              && 1 <= n <= |old(owners)| && (won <==> old(owners)[n - 1].Nobody?)
              && InCall(book, id, Returned(n, if won then NotSent else OutcomeUnknown))
              && owners == (if won then old(owners)[n - 1 := Caller] else old(owners))
              && (won ==> n !in begun)
      ensures Inv(View())
    {
      hide Inv, Do;
      CallFrameTracked(View(), id);
      assert Enabled(View(), ByCall(CallWithdraws(id)));
      Keeps(View(), ByCall(CallWithdraws(id)));
      DoesWithdraw(View(), id);
      var n := book.calls[id].n;
      won := owners[n - 1].Nobody?;
      if won {
        owners := owners[n - 1 := Caller];
      }
      book := book.(calls := book.calls[id := Returned(n, if won then NotSent else OutcomeUnknown)]);
    }

    /** The writer's own swap, at the head of write. */
    method ClaimForWriter() returns (won: bool)
      requires Inv(View()) && writer.Freed?
      modifies this`owners, this`writer
      ensures Steps(old(View()), ByWriter(Claim), View())
      ensures var n := old(writer.n);
              && 1 <= n <= |old(owners)| && (won <==> old(owners)[n - 1].Nobody?)
              && writer == (if won then Claimed(n) else Marking(n, true))
              && owners == (if won then old(owners)[n - 1 := Writer] else old(owners))
      ensures Inv(View())
    {
      hide Inv;
      WriterFrameTracked(View());
      Keeps(View(), ByWriter(Claim));
      var n := writer.n;
      won := owners[n - 1].Nobody?;
      if won {
        owners, writer := owners[n - 1 := Writer], Claimed(n);
      } else {
        writer := Marking(n, true);
      }
    }

    /** writeQueued's last critical section: the watermark moves only over the frame right after it. */
    method MoveWatermark()
      requires Inv(View()) && writer.Marking?
      modifies this`wrote, this`writer
      ensures Steps(old(View()), ByWriter(Mark), View())
      ensures writer == Waiting
      ensures wrote == if old(writer).owedNothing && old(wrote) + 1 == old(writer).n then old(writer).n else old(wrote)
      ensures Inv(View())
    {
      hide Inv;
      Keeps(View(), ByWriter(Mark));
      if writer.owedNothing && wrote + 1 == writer.n {
        wrote := writer.n;
      }
      writer := Waiting;
    }

    /** One turn of Flush's loop under the lock. */
    method FlushCheck(f: nat) returns (done: bool)
      requires Inv(View()) && f in flushes && flushes[f].Flushing?
      modifies this`flushes
      ensures f in flushes && (done <==> flushes[f].target <= wrote)
      ensures View() == if done then old(View()).(flushes := old(flushes)[f := Flushed(old(flushes)[f].target)]) else old(View())
      ensures done ==> forall k :: 0 <= k < flushes[f].target ==>
                         k < |owners| && k < |reports| && Good(owners[k], reports[k])
      ensures Inv(View())
    {
      hide Inv;
      WrittenAreGood(View());
      done := wrote >= flushes[f].target;
      if done {
        Keeps(View(), FlushReturns(f));
        flushes := flushes[f := Flushed(flushes[f].target)];
      }
    }

    /** end: closes the lane inside the critical section every enqueue takes. */
    method EndLane()
      requires Inv(View())
      modifies this`life
      ensures Steps(old(View()), ByLife(End), View())
      ensures life == old(life).(closed := true)
      ensures Inv(View())
    {
      Keeps(View(), ByLife(End));
      life := life.(closed := true);
    }

    /** The settle step: nothing is accepted from here on. */
    method SettleLane()
      requires Inv(View()) && life.closed
      modifies this`life
      ensures Steps(old(View()), ByLife(Settle), View())
      ensures life == old(life).(outClosed := true, settled := true)
      ensures Inv(View())
    {
      Keeps(View(), ByLife(Settle));
      life := life.(outClosed := true, settled := true);
    }

    // ---------------------------------------------------------------- events, flushes

    /** One turn of enqueue's loop for an event. */
    method EmitEvent() returns (r: Enqueued)
      requires Inv(View())
      modifies this
      ensures r.Refused? <==> old(life.outClosed) || old(life.fault) || old(life.closed)
      ensures r.Accepted? <==> !r.Refused? && |old(queue)| < 64
      ensures r.Accepted? ==> queue == old(queue) + [old(queued) + 1] && kinds == old(kinds) + [Event]
      ensures if r.Accepted? then Steps(old(View()), Emit, View()) else View() == old(View())
      ensures Inv(View())
    {
      hide Inv;
      if SessionLane.TryEnqueue(View().out, life, false).Accepted? { Keeps(View(), Emit); }
      r := TryEnqueue(Event, false);
    }

    /** Flush's first critical section: it waits for every frame accepted so far. */
    method BeginFlush(f: nat)
      requires Inv(View()) && f !in flushes
      modifies this`flushes
      ensures Steps(old(View()), FlushBegins(f), View())
      ensures flushes == old(flushes)[f := Flushing(queued)]
      ensures Inv(View())
    {
      hide Inv;
      Keeps(View(), FlushBegins(f));
      flushes := flushes[f := Flushing(queued)];
    }

    // --------------------------------------------------------------------- the writer

    /** The writer takes the oldest frame of the queue. */
    method TakeFrame()
      requires Inv(View()) && writer.Waiting? && queue != []
      modifies this`queue, this`writer
      ensures Steps(old(View()), ByWriter(Take), View())
      ensures writer == Took(old(queue)[0]) && queue == old(queue)[1..]
      ensures Inv(View())
    {
      hide Inv;
      Keeps(View(), ByWriter(Take));
      queue, writer := queue[1..], Took(queue[0]);
    }

    /** The head of writeQueued: an answer gives its admission slot back. */
    method ReleaseSlot()
      requires Inv(View()) && writer.Took?
      modifies this`writer, this`desk
      ensures Steps(old(View()), ByWriter(Release), View())
      ensures var n := old(writer).n;
              && writer == Freed(n) && 1 <= n <= |kinds|
              && desk == if kinds[n - 1].Answer?
                         then old(desk).(slots := old(desk).slots - 1, released := old(desk).released + {kinds[n - 1].control})
                         else old(desk)
      ensures Inv(View())
    {
      hide Inv;
      WriterFrameTracked(View());
      HeldSlot(View());
      Keeps(View(), ByWriter(Release));
      var n := writer.n;
      writer := Freed(n);
      if kinds[n - 1].Answer? {
        desk := desk.(slots := desk.slots - 1, released := desk.released + {kinds[n - 1].control});
      }
    }

    /** write, once the swap is won: on a faulted lane the frame is given up, else the transport begins it. */
    method LookAtFault()
      requires Inv(View()) && writer.Claimed?
      modifies this`writer, this`reports, this`begun
      ensures Steps(old(View()), ByWriter(CheckFault), View())
      ensures var n := old(writer).n;
              if life.fault
              then 1 <= n <= |old(reports)| && writer == Marking(n, false) && begun == old(begun) && reports == old(reports)[n - 1 := Unsent]
              else writer == Writing(n) && begun == old(begun) + [n] && reports == old(reports)
      ensures Inv(View())
    {
      hide Inv;
      WriterFrameTracked(View());
      Keeps(View(), ByWriter(CheckFault));
      var n := writer.n;
      if life.fault {
        writer, reports := Marking(n, false), reports[n - 1 := Unsent];
      } else {
        writer, begun := Writing(n), begun + [n];
      }
    }

    /** WriteFrame came back without an error. */
    method FinishWrite()
      requires writer.Writing? && Inv(View())
      modifies this`writer, this`reports, this`whole
      ensures var n := old(writer).n;
              && 1 <= n <= |old(reports)| && writer == Marking(n, true)
              && whole == old(whole) + {n} && reports == old(reports)[n - 1 := Written]
      ensures Steps(old(View()), ByWriter(Finish), View())
      ensures Inv(View())
    {
      hide Inv;
      WriterFrameTracked(View());
      Keeps(View(), ByWriter(Finish));
      var n := writer.n;
      writer, whole, reports := Marking(n, true), whole + {n}, reports[n - 1 := Written];
    }

    /** WriteFrame failed. */
    method FailWrite()
      requires writer.Writing? && Inv(View())
      modifies this`writer, this`broken
      ensures writer == Failing(old(writer).n) && broken == old(broken) + {old(writer).n}
      ensures Steps(old(View()), ByWriter(Fail), View())
      ensures Inv(View())
    {
      hide Inv;
      Keeps(View(), ByWriter(Fail));
      writer, broken := Failing(writer.n), broken + {writer.n};
    }

    /** setFault after a failed write: the fault first, and then the end of the lane. */
    method RaiseFault()
      requires Inv(View()) && writer.Failing?
      modifies this`writer, this`life
      ensures Steps(old(View()), ByWriter(WriterAct.RaiseFault), View())
      ensures writer == Ending(old(writer).n) && life == old(life).(fault := true)
      ensures Inv(View())
    {
      hide Inv;
      Keeps(View(), ByWriter(WriterAct.RaiseFault));
      writer, life := Ending(writer.n), life.(fault := true);
    }

    method EndAfterFault()
      requires Inv(View()) && writer.Ending?
      modifies this`writer, this`life
      ensures Steps(old(View()), ByWriter(WriterAct.EndLane), View())
      ensures writer == Reporting(old(writer).n) && life == old(life).(closed := true)
      ensures Inv(View())
    {
      hide Inv;
      Keeps(View(), ByWriter(WriterAct.EndLane));
      writer, life := Reporting(writer.n), life.(closed := true);
    }

    method ReportFailure()
      requires Inv(View()) && writer.Reporting?
      modifies this`writer, this`reports
      ensures Steps(old(View()), ByWriter(ReportBroken), View())
      ensures var n := old(writer).n;
              1 <= n <= |old(reports)| && writer == Marking(n, false) && reports == old(reports)[n - 1 := Broken]
      ensures Inv(View())
    {
      hide Inv;
      WriterFrameTracked(View());
      Keeps(View(), ByWriter(ReportBroken));
      var n := writer.n;
      writer, reports := Marking(n, false), reports[n - 1 := Broken];
    }

    // ---------------------------------------------------------------------- host calls

    /** The call's context ended, or the lane closed, while it waited for room. */
    method AbandonQueue(id: nat)
      requires Inv(View()) && InCall(book, id, Queueing)
      modifies this`book
      ensures Steps(old(View()), ByCall(CallAbandonsQueue(id)), View())
      ensures book == old(book).(calls := old(book.calls)[id := Returned(0, NotSent)])
      ensures Inv(View())
    {
      hide Inv;
      Keeps(View(), ByCall(CallAbandonsQueue(id)));
      book := book.(calls := book.calls[id := Returned(0, NotSent)]);
    }

    /** The writer's report arrives: not sent, of unknown outcome, or sent and waiting for the reply. */
    method HearReport(id: nat)
      requires Inv(View()) && id in book.calls && book.calls[id].Queued?
      requires book.calls[id].n > |reports| || book.calls[id].n == 0 || !reports[book.calls[id].n - 1].Silent?
      modifies this`book
      ensures Steps(old(View()), ByCall(CallHears(id)), View())
      ensures var n := old(book.calls[id].n);
              && 1 <= n <= |reports|
              && (reports[n - 1].Unsent? ==> InCall(book, id, Returned(n, NotSent)))
              && (reports[n - 1].Broken? ==> InCall(book, id, Returned(n, OutcomeUnknown)))
              && (reports[n - 1].Written? ==> InCall(book, id, Sent(n)))
      ensures book == old(book).(calls := old(book.calls)[id := book.calls[id]])
      ensures Inv(View())
    {
      hide Inv;
      CallFrameTracked(View(), id);
      Keeps(View(), ByCall(CallHears(id)));
      var n := book.calls[id].n;
      var at := match reports[n - 1]
        case Unsent => Returned(n, NotSent)
        case Broken => Returned(n, OutcomeUnknown)
        case _ => Sent(n);
      book := book.(calls := book.calls[id := at]);
    }

    /** The reply to a sent call is there. */
    method TakeReply(id: nat)
      requires Inv(View()) && id in book.calls && book.calls[id].Sent? && id in book.boxes
      modifies this`book
      ensures Steps(old(View()), ByCall(CallTakesReply(id)), View())
      ensures book == old(book).(calls := old(book.calls)[id := Returned(old(book.calls[id].n), Replied(old(book.boxes[id])))])
      ensures Inv(View())
    {
      hide Inv;
      Keeps(View(), ByCall(CallTakesReply(id)));
      book := book.(calls := book.calls[id := Returned(book.calls[id].n, Replied(book.boxes[id]))]);
    }

    /** A sent call stops waiting: its context ended, or the lane closed. */
    method StopWaiting(id: nat)
      requires Inv(View()) && id in book.calls && book.calls[id].Sent?
      modifies this`book
      ensures Steps(old(View()), ByCall(CallStopsWaiting(id)), View())
      ensures book == old(book).(calls := old(book.calls)[id := Returned(old(book.calls[id].n), OutcomeUnknown)])
      ensures Inv(View())
    {
      hide Inv;
      Keeps(View(), ByCall(CallStopsWaiting(id)));
      book := book.(calls := book.calls[id := Returned(book.calls[id].n, OutcomeUnknown)]);
    }

    /** HostCallTo's deferred step: the id leaves the pending. */
    method ForgetCall(id: nat)
      requires Inv(View()) && id in book.calls && book.calls[id].Returned?
      modifies this`book
      ensures Steps(old(View()), ByCall(CallForgets(id)), View())
      ensures book == old(book).(pending := old(book.pending) - {id})
      ensures Inv(View())
    {
      hide Inv;
      Keeps(View(), ByCall(CallForgets(id)));
      book := book.(pending := book.pending - {id});
    }

    /** deliverReply looks the id up among the pending; a reply to no pending call is dropped. */
    method HearReply(id: nat, payload: nat)
      requires Inv(View())
      modifies this`book
      ensures Steps(old(View()), ByCall(ReplyArrives(id, payload)), View())
      ensures (id, payload) in book.delivering <==> id in book.pending || (id, payload) in old(book.delivering)
      ensures book.calls == old(book.calls) && book.boxes == old(book.boxes) && book.pending == old(book.pending)
      ensures Inv(View())
    {
      hide Inv;
      Keeps(View(), ByCall(ReplyArrives(id, payload)));
      book := book.(heard := book.heard + {(id, payload)},
                    delivering := if id in book.pending then book.delivering + {(id, payload)} else book.delivering);
    }

    /** deliverReply's send into the call's channel of one place: the first reply stays. */
    method DeliverReply(id: nat, payload: nat)
      requires Inv(View()) && (id, payload) in book.delivering
      modifies this`book
      ensures Steps(old(View()), ByCall(ReplyDelivers(id, payload)), View())
      ensures book.boxes == if id in old(book.boxes) then old(book.boxes) else old(book.boxes)[id := payload]
      ensures book.calls == old(book.calls) && book.pending == old(book.pending)
      ensures Inv(View())
    {
      hide Inv;
      Keeps(View(), ByCall(ReplyDelivers(id, payload)));
      book := book.(delivering := book.delivering - {(id, payload)},
                    boxes := if id in book.boxes then book.boxes else book.boxes[id := payload]);
    }

    // ----------------------------------------------------------------------- admission

    /** admitOne: a control takes one of the 64 slots, or ends the lane. */
    method AdmitControl() returns (ok: bool)
      requires Inv(View())
      modifies this`desk
      ensures ok <==> old(desk.slots) < 64
      ensures ok ==> Steps(old(View()), ByDesk(Admit), View())
      ensures ok ==> desk.slots == old(desk.slots) + 1 && desk.unanswered == old(desk.unanswered) + {old(desk.admitted)}
      ensures !ok ==> View() == old(View())
      ensures Inv(View())
    {
      hide Inv;
      ok := desk.slots < 64;
      if ok {
        Keeps(View(), ByDesk(Admit));
        desk := desk.(slots := desk.slots + 1, admitted := desk.admitted + 1, unanswered := desk.unanswered + {desk.admitted});
      }
    }

    /** Answer's swap: only the first answer to a control goes on. */
    method WinAnswer(c: nat) returns (won: bool)
      requires Inv(View())
      modifies this`desk
      ensures won <==> c in old(desk.unanswered)
      ensures won ==> Steps(old(View()), ByDesk(AnswerWins(c)), View())
      ensures won ==> c !in desk.unanswered && desk.answering == old(desk.answering) + {c} && desk.slots == old(desk.slots)
      ensures !won ==> View() == old(View())
      ensures Inv(View())
    {
      hide Inv;
      won := c in desk.unanswered;
      if won {
        Keeps(View(), ByDesk(AnswerWins(c)));
        desk := desk.(unanswered := desk.unanswered - {c}, answering := desk.answering + {c});
      }
    }

    /** A refused answer gives its slot back itself. */
    method GiveSlotBack(c: nat)
      requires Inv(View()) && c in desk.refusing
      modifies this`desk
      ensures desk.slots == old(desk.slots) - 1 && desk.refusing == old(desk.refusing) - {c} && desk.released == old(desk.released) + {c}
      ensures Steps(old(View()), ByDesk(AnswerReleases(c)), View())
      ensures Inv(View())
    {
      hide Inv;
      RefusingHolds(View());
      Keeps(View(), ByDesk(AnswerReleases(c)));
      desk := desk.(refusing := desk.refusing - {c}, released := desk.released + {c}, slots := desk.slots - 1);
    }

    // ------------------------------------------------------------------------ shutdown

    method SetFault()
      requires Inv(View())
      modifies this`life
      ensures Steps(old(View()), ByLife(LifeAct.SetFault), View())
      ensures life == old(life).(fault := true)
      ensures Inv(View())
    {
      hide Inv;
      Keeps(View(), ByLife(LifeAct.SetFault));
      life := life.(fault := true);
    }

    /** The writer's outer select takes the closed branch. */
    method SeeClosed()
      requires Inv(View()) && writer.Waiting? && life.phase.Serving? && life.closed
      modifies this`life
      ensures Steps(old(View()), ByLife(LifeAct.SeeClosed), View())
      ensures life == old(life).(phase := Draining)
      ensures Inv(View())
    {
      hide Inv;
      Keeps(View(), ByLife(LifeAct.SeeClosed));
      life := life.(phase := Draining);
    }

    /** The writer's inner select takes the settled branch. */
    method SeeSettled()
      requires Inv(View()) && writer.Waiting? && life.phase.Draining? && life.settled
      modifies this`life
      ensures Steps(old(View()), ByLife(LifeAct.SeeSettled), View())
      ensures life == old(life).(phase := Final)
      ensures Inv(View())
    {
      hide Inv;
      Keeps(View(), ByLife(LifeAct.SeeSettled));
      life := life.(phase := Final);
    }

    /** The last select finds the queue empty, and the writer returns. */
    method Retire()
      requires Inv(View()) && writer.Waiting? && life.phase.Final? && queue == []
      modifies this`writer
      ensures Steps(old(View()), ByLife(LifeAct.Retire), View())
      ensures writer == Retired
      ensures Inv(View())
    {
      hide Inv;
      Keeps(View(), ByLife(LifeAct.Retire));
      writer := Retired;
    }
  }

  /** An answer in the writer's hand still holds its slot. */
  lemma HeldSlot(s: Lane)
    requires Inv(s) && s.out.writer.Took?
    ensures HandsSlot(s.out) ==> s.desk.slots > 0
  {
    hide InvTransport, InvWatermark, InvControls, InvCallStates, InvCallFrames, InvReplies, InvShutdown, InvFlush;
    if HandsSlot(s.out) {
      assert s.out.kinds[SlotFrom(s.out)..][0].Answer?;
    }
  }

  lemma RefusingHolds(s: Lane)
    requires Inv(s) && s.desk.refusing != {}
    ensures s.desk.slots > 0
  {
    hide InvTransport, InvWatermark, InvControls, InvCallStates, InvCallFrames, InvReplies, InvShutdown, InvFlush;
  }

  lemma CallFrameTracked(s: Lane, id: nat)
    requires Inv(s) && id in s.book.calls && s.book.calls[id].Queued?
    ensures Tracks(s.out, s.book.calls[id].n)
    ensures s.out.owners[s.book.calls[id].n - 1].Nobody? ==> s.book.calls[id].n !in s.out.begun
  {
    hide InvWatermark, InvSlots, InvControls, InvCallFrames, InvReplies;
    StateFits(s.out, s.book, id);
  }

  lemma RoomUnderInv(s: Lane)
    requires Inv(s) && s.desk.answering != {}
    ensures |s.out.queue| < OUT_QUEUE
  {
    RoomForAnswer(s.out, s.desk);
  }

  lemma WriterFrameTracked(s: Lane)
    requires Inv(s) && Holding(s.out.writer)
    ensures Tracks(s.out, s.out.writer.n)
  {}

  lemma WrittenAreGood(s: Lane)
    requires Inv(s)
    ensures Sized(s.out) && s.out.wrote <= s.out.queued
    ensures forall k :: 0 <= k < s.out.wrote ==> Good(s.out.owners[k], s.out.reports[k])
  {
    hide InvTransport, InvSlots, InvControls, InvCallFrames, InvReplies;
  }

  lemma DoesWithdraw(s: Lane, id: nat)
    requires CallCan(s, CallWithdraws(id))
    ensures Do(s, ByCall(CallWithdraws(id))) ==
            var n := s.book.calls[id].n;
            var won := s.out.owners[n - 1].Nobody?;
            s.(out := if won then s.out.(owners := s.out.owners[n - 1 := Caller]) else s.out,
               book := s.book.(calls := s.book.calls[id := Returned(n, if won then NotSent else OutcomeUnknown)]))
  {}
}
