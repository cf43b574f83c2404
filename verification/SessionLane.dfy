/**
 The resident session lane: one bounded outbound queue, one writer, any number of
 senders, and a two-stage shutdown.

 Every critical section under the lane's mutex, every compare-and-swap, and the
 start and the end of a transport write is one action; actions of different
 goroutines interleave freely.  Timers and cancelled contexts are actions that may
 happen at any time.
 */
module SessionLane {

  const ADMIT_QUEUE: nat := 64
  const MAX_PENDING: nat := 64
  const OUT_QUEUE: nat := 64 + ADMIT_QUEUE

  /** What an accepted frame is. A host call carries its id, an answer its control. */
  datatype Kind = Event | HostCall(id: nat) | Answer(control: nat)

  /** Who won the compare-and-swap on a frame's `claimed` flag. */
  datatype Owner = Nobody | Writer | Caller

  /** What the writer put into a frame's `done` channel. */
  datatype Report = Silent | Written | Broken | Unsent

  /** Where the writer goroutine stands; `n` is the sequence number it holds. */
  datatype WriterAt =
    | Waiting
    | Took(n: nat)                        // received from the queue, slot not released yet
    | Freed(n: nat)                       // slot released, about to compare-and-swap
    | Claimed(n: nat)                     // won the swap, about to look at the fault
    | Writing(n: nat)                     // inside WriteFrame
    | Failing(n: nat)                     // WriteFrame failed, fault not recorded yet
    | Ending(n: nat)                      // fault recorded, lane not ended yet
    | Reporting(n: nat)                   // about to report the failure
    | Marking(n: nat, owedNothing: bool)  // about to move the watermark
    | Retired

  // ------------------------------------------------------- queue, writer, log

  /**
   The queue, the frames accepted into it (by sequence number minus one), the writer,
   and what the transport saw: the frames begun in order, those written whole and
   those whose write failed.
   */
  datatype Outbox = Outbox(
    queue: seq<nat>, queued: nat, wrote: nat,
    kinds: seq<Kind>, owners: seq<Owner>, reports: seq<Report>,
    writer: WriterAt, begun: seq<nat>, whole: set<nat>, broken: set<nat>)

  predicate Tracks(o: Outbox, n: nat) {
    1 <= n <= |o.owners| && |o.reports| == |o.owners| == |o.kinds|
  }

  function Accept(o: Outbox, kind: Kind): Outbox {
    o.(queue := o.queue + [o.queued + 1], queued := o.queued + 1,
       kinds := o.kinds + [kind], owners := o.owners + [Nobody], reports := o.reports + [Silent])
  }

  function Withdraw(o: Outbox, n: nat): Outbox
    requires Tracks(o, n)
  {
    if o.owners[n - 1].Nobody? then o.(owners := o.owners[n - 1 := Caller]) else o
  }

  datatype WriterAct =
    | Take | Release | Claim | CheckFault | Finish | Fail | RaiseFault | EndLane | ReportBroken | Mark

  predicate WriterCan(o: Outbox, w: WriterAct) {
    match w
    case Take => o.writer.Waiting? && o.queue != []
    case Release => o.writer.Took? && Tracks(o, o.writer.n)
    case Claim => o.writer.Freed? && Tracks(o, o.writer.n)
    case CheckFault => o.writer.Claimed? && Tracks(o, o.writer.n)
    case Finish => o.writer.Writing? && Tracks(o, o.writer.n)
    case Fail => o.writer.Writing?
    case RaiseFault => o.writer.Failing?
    case EndLane => o.writer.Ending?
    case ReportBroken => o.writer.Reporting? && Tracks(o, o.writer.n)
    case Mark => o.writer.Marking?
  }

  function WriterDo(o: Outbox, w: WriterAct, fault: bool): Outbox
    requires WriterCan(o, w)
  {
    match w
    case Take => o.(writer := Took(o.queue[0]), queue := o.queue[1..])
    case Release => o.(writer := Freed(o.writer.n))
    case Claim =>
      if o.owners[o.writer.n - 1].Nobody?
      then o.(writer := Claimed(o.writer.n), owners := o.owners[o.writer.n - 1 := Writer])
      else o.(writer := Marking(o.writer.n, true))
    case CheckFault =>
      if fault
      then o.(writer := Marking(o.writer.n, false), reports := o.reports[o.writer.n - 1 := Unsent])
      else o.(writer := Writing(o.writer.n), begun := o.begun + [o.writer.n])
    case Finish =>
      o.(writer := Marking(o.writer.n, true), whole := o.whole + {o.writer.n},
         reports := o.reports[o.writer.n - 1 := Written])
    case Fail => o.(writer := Failing(o.writer.n), broken := o.broken + {o.writer.n})
    case RaiseFault => o.(writer := Ending(o.writer.n))
    case EndLane => o.(writer := Reporting(o.writer.n))
    case ReportBroken =>
      o.(writer := Marking(o.writer.n, false), reports := o.reports[o.writer.n - 1 := Broken])
    case Mark =>
      o.(writer := Waiting,
         wrote := if o.writer.owedNothing && o.wrote + 1 == o.writer.n then o.writer.n else o.wrote)
  }

  // ------------------------------------------------------------------ the lane

  datatype Phase = Serving | Draining | Final

  datatype Life = Life(phase: Phase, closed: bool, outClosed: bool, settled: bool, fault: bool)

  /** Admission: slots held, and where every admitted control's answer stands. */
  datatype Desk = Desk(slots: nat, admitted: nat,
                       unanswered: set<nat>, answering: set<nat>, refusing: set<nat>, released: set<nat>)

  datatype CallResult = NotSent | OutcomeUnknown | Replied(payload: nat)

  /** A host call's progress; `n` is the sequence number of its frame, 0 for none. */
  datatype CallAt =
    | Queueing
    | Queued(n: nat)
    | Sent(n: nat)
    | Returned(n: nat, result: CallResult)

  /** Host calls: pending ids, reply channels, replies in delivery, and all replies the host ever sent. */
  datatype Book = Book(nextID: nat, pending: set<nat>, calls: map<nat, CallAt>,
                       boxes: map<nat, nat>, delivering: set<(nat, nat)>, heard: set<(nat, nat)>)

  datatype FlushAt = Flushing(target: nat) | Flushed(target: nat)

  datatype Lane = Lane(out: Outbox, life: Life, desk: Desk, book: Book, flushes: map<nat, FlushAt>)

  const Fresh: Lane := Lane(
    Outbox([], 0, 0, [], [], [], Waiting, [], {}, {}),
    Life(Serving, false, false, false, false),
    Desk(0, 0, {}, {}, {}, {}),
    Book(0, {}, map[], map[], {}, {}),
    map[])

  datatype Enqueued = Accepted | Refused | Full

  /** The answer of one critical section of tryEnqueue. */
  function TryEnqueue(o: Outbox, life: Life, admission: bool): Enqueued {
    if life.outClosed || life.fault then Refused
    else if !admission && life.closed then Refused
    else if !admission && |o.queue| >= OUT_QUEUE - ADMIT_QUEUE then Full
    else if |o.queue| >= OUT_QUEUE then Full
    else Accepted
  }

  // ------------------------------------------------------------------- actions

  datatype DeskAct = Admit | AnswerWins(c: nat) | AnswerEnqueues(c: nat) | AnswerReleases(c: nat)

  datatype CallAct =
    | CallBegins
    | CallEnqueues(id: nat) | CallAbandonsQueue(id: nat)
    | CallHears(id: nat) | CallWithdraws(id: nat)
    | CallTakesReply(id: nat) | CallStopsWaiting(id: nat) | CallForgets(id: nat)
    | ReplyArrives(id: nat, payload: nat) | ReplyDelivers(id: nat, payload: nat)

  datatype LifeAct = End | SetFault | Settle | SeeClosed | SeeSettled | Retire

  datatype Action =
    | ByWriter(w: WriterAct)
    | ByDesk(d: DeskAct)
    | ByCall(c: CallAct)
    | ByLife(l: LifeAct)
    | Emit
    | FlushBegins(f: nat)
    | FlushReturns(f: nat)

  predicate DeskCan(s: Lane, d: DeskAct) {
    match d
    case Admit => s.desk.slots < ADMIT_QUEUE
    case AnswerWins(c) => c in s.desk.unanswered
    case AnswerEnqueues(c) => c in s.desk.answering
    case AnswerReleases(c) => c in s.desk.refusing && s.desk.slots > 0
  }

  /** Admitting a control takes a slot; a control is answered by whoever wins its `answered` swap. */
  function DeskDo(s: Lane, d: DeskAct): Lane
    requires DeskCan(s, d)
  {
    match d
    case Admit =>
      s.(desk := s.desk.(slots := s.desk.slots + 1, admitted := s.desk.admitted + 1,
                         unanswered := s.desk.unanswered + {s.desk.admitted}))
    case AnswerWins(c) =>
      s.(desk := s.desk.(unanswered := s.desk.unanswered - {c}, answering := s.desk.answering + {c}))
    case AnswerEnqueues(c) =>
      if TryEnqueue(s.out, s.life, true).Accepted?
      then s.(out := Accept(s.out, Answer(c)), desk := s.desk.(answering := s.desk.answering - {c}))
      else s.(desk := s.desk.(answering := s.desk.answering - {c}, refusing := s.desk.refusing + {c}))
    case AnswerReleases(c) =>
      s.(desk := s.desk.(refusing := s.desk.refusing - {c}, released := s.desk.released + {c},
                         slots := s.desk.slots - 1))
  }

  predicate InCall(b: Book, id: nat, at: CallAt) {
    id in b.calls && b.calls[id] == at
  }

  predicate CallCan(s: Lane, c: CallAct) {
    match c
    case CallBegins => |s.book.pending| < MAX_PENDING
    case CallEnqueues(id) => InCall(s.book, id, Queueing)
    case CallAbandonsQueue(id) => InCall(s.book, id, Queueing)
    case CallHears(id) =>
      && id in s.book.calls && s.book.calls[id].Queued? && Tracks(s.out, s.book.calls[id].n)
      && !s.out.reports[s.book.calls[id].n - 1].Silent?
    case CallWithdraws(id) =>
      id in s.book.calls && s.book.calls[id].Queued? && Tracks(s.out, s.book.calls[id].n)
    case CallTakesReply(id) => id in s.book.calls && s.book.calls[id].Sent? && id in s.book.boxes
    case CallStopsWaiting(id) => id in s.book.calls && s.book.calls[id].Sent?
    case CallForgets(id) => id in s.book.calls && s.book.calls[id].Returned?
    case ReplyArrives(_, _) => true
    case ReplyDelivers(id, payload) => (id, payload) in s.book.delivering
  }

  function Put(s: Lane, id: nat, at: CallAt): Lane {
    s.(book := s.book.(calls := s.book.calls[id := at]))
  }

  function AfterReport(n: nat, r: Report): CallAt {
    match r
    case Unsent => Returned(n, NotSent)
    case Broken => Returned(n, OutcomeUnknown)
    case _ => Sent(n)
  }

  function CallDo(s: Lane, c: CallAct): Lane
    requires CallCan(s, c)
  {
    match c
    case CallBegins =>
      var id := s.book.nextID + 1;
      s.(book := s.book.(nextID := id, pending := s.book.pending + {id}, calls := s.book.calls[id := Queueing]))
    case CallEnqueues(id) =>
      (match TryEnqueue(s.out, s.life, false)
       case Full => s  // waits for the queue to change and tries again
       case Refused => Put(s, id, Returned(0, NotSent))
       case Accepted => Put(s, id, Queued(s.out.queued + 1)).(out := Accept(s.out, HostCall(id))))
    case CallAbandonsQueue(id) => Put(s, id, Returned(0, NotSent))
    case CallHears(id) => Put(s, id, AfterReport(s.book.calls[id].n, s.out.reports[s.book.calls[id].n - 1]))
    case CallWithdraws(id) =>
      var n := s.book.calls[id].n;
      Put(s, id, Returned(n, if s.out.owners[n - 1].Nobody? then NotSent else OutcomeUnknown))
      .(out := Withdraw(s.out, n))
    case CallTakesReply(id) => Put(s, id, Returned(s.book.calls[id].n, Replied(s.book.boxes[id])))
    case CallStopsWaiting(id) => Put(s, id, Returned(s.book.calls[id].n, OutcomeUnknown))
    case CallForgets(id) => s.(book := s.book.(pending := s.book.pending - {id}))
    case ReplyArrives(id, payload) =>
      s.(book := s.book.(heard := s.book.heard + {(id, payload)},
                         delivering := if id in s.book.pending then s.book.delivering + {(id, payload)}
                                       else s.book.delivering))
    case ReplyDelivers(id, payload) =>
      s.(book := s.book.(delivering := s.book.delivering - {(id, payload)},
                         boxes := if id in s.book.boxes then s.book.boxes else s.book.boxes[id := payload]))
  }

  predicate LifeCan(s: Lane, l: LifeAct) {
    match l
    case End => true
    case SetFault => true
    case Settle => s.life.closed
    case SeeClosed => s.out.writer.Waiting? && s.life.phase.Serving? && s.life.closed
    case SeeSettled => s.out.writer.Waiting? && s.life.phase.Draining? && s.life.settled
    case Retire => s.out.writer.Waiting? && s.life.phase.Final? && s.out.queue == []
  }

  function LifeDo(s: Lane, l: LifeAct): Lane {
    match l
    case End => s.(life := s.life.(closed := true))
    case SetFault => s.(life := s.life.(fault := true))
    case Settle => s.(life := s.life.(outClosed := true, settled := true))
    case SeeClosed => s.(life := s.life.(phase := Draining))
    case SeeSettled => s.(life := s.life.(phase := Final))
    case Retire => s.(out := s.out.(writer := Retired))
  }

  /** The frame in the writer's hand carries an admission slot. */
  predicate HandsSlot(o: Outbox) {
    o.writer.Took? && Tracks(o, o.writer.n) && o.kinds[o.writer.n - 1].Answer?
  }

  /** The writer's own effects outside the outbox: a released slot, a recorded fault, an ended lane. */
  function LaneWriterDo(s: Lane, w: WriterAct): Lane
    requires WriterCan(s.out, w)
    requires w.Release? && HandsSlot(s.out) ==> s.desk.slots > 0
  {
    var t := s.(out := WriterDo(s.out, w, s.life.fault));
    match w
    case Release =>
      if HandsSlot(s.out)
      then t.(desk := s.desk.(slots := s.desk.slots - 1,
                              released := s.desk.released + {s.out.kinds[s.out.writer.n - 1].control}))
      else t
    case RaiseFault => t.(life := s.life.(fault := true))
    case EndLane => t.(life := s.life.(closed := true))
    case _ => t
  }

  predicate Enabled(s: Lane, a: Action) {
    match a
    case ByWriter(w) => WriterCan(s.out, w) && (w.Release? && HandsSlot(s.out) ==> s.desk.slots > 0)
    case ByDesk(d) => DeskCan(s, d)
    case ByCall(c) => CallCan(s, c)
    case ByLife(l) => LifeCan(s, l)
    case Emit => TryEnqueue(s.out, s.life, false).Accepted?
    case FlushBegins(f) => f !in s.flushes
    case FlushReturns(f) => f in s.flushes && s.flushes[f].Flushing? && s.out.wrote >= s.flushes[f].target
  }

  function Do(s: Lane, a: Action): Lane
    requires Enabled(s, a)
  {
    match a
    case ByWriter(w) => LaneWriterDo(s, w)
    case ByDesk(d) => DeskDo(s, d)
    case ByCall(c) => CallDo(s, c)
    case ByLife(l) => LifeDo(s, l)
    case Emit => s.(out := Accept(s.out, Event))
    case FlushBegins(f) => s.(flushes := s.flushes[f := Flushing(s.out.queued)])
    case FlushReturns(f) => s.(flushes := s.flushes[f := Flushed(s.flushes[f].target)])
  }

  /** One action, enabled in s, leads to t. */
  predicate Steps(s: Lane, a: Action, t: Lane) {
    Enabled(s, a) && t == Do(s, a)
  }

  /** A run: a fresh lane followed by any interleaving of enabled actions. */
  ghost predicate Run(states: seq<Lane>, actions: seq<Action>) {
    && |states| == |actions| + 1
    && states[0] == Fresh
    && forall i :: 0 <= i < |actions| ==> Enabled(states[i], actions[i]) && states[i + 1] == Do(states[i], actions[i])
  }
}
