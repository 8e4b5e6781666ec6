/**
 Crash recovery: over every run of commands, failed appends, crashes and restarts,
 the running service and the bytes on disk stay in agreement with one history of
 accepted commands.
 */
module Durability {
  import opened Wrappers
  import opened Values
  import opened Limits
  import opened StateMachine
  import opened Journal
  import opened Replay
  import opened Wire
  import opened Codec
  import opened Evaluator
  import opened Requests
  import opened Storage
  import opened Service
  import opened Invariants
  import opened Histories

  // The service that a history determines

  ghost function FrameOfLast(limits: LimitMap, h: History, last: CommandEnvelope): Bytes
    requires Accepted(limits, h + [last])
  {
    HistoryEncodes(limits, h + [last]);
    EncodedFrame(Batches(limits, h + [last])[|h|]).value
  }

  ghost function JournalOf(limits: LimitMap, h: History): Bytes
    requires Accepted(limits, h)
  {
    HistoryEncodes(limits, h);
    Frames(Batches(limits, h))
  }

  lemma JournalStep(limits: LimitMap, h: History, last: CommandEnvelope)
    requires Accepted(limits, h + [last])
    ensures Accepted(limits, h)
    ensures JournalOf(limits, h + [last]) == JournalOf(limits, h) + FrameOfLast(limits, h, last)
  {
    hide EncodedFrame, Evaluated, CanonicalBytes, Frames;
    BatchesStep(limits, h, last);
    HistoryEncodes(limits, h);
    HistoryEncodes(limits, h + [last]);
    var batch := Batches(limits, h + [last])[|h|];
    assert EncodedFrame(batch).Success?;
    FramesAppend(Batches(limits, h), batch);
  }

  /** One record per command, and no other. */
  ghost predicate Records(index: Index, h: History, batches: seq<CommandBatch>)
    requires |batches| == |h|
  {
    && (forall id :: id in index <==> Uses(h, id))
    && (forall i :: 0 <= i < |h| ==> h[i].commandId in index)
    && (forall i :: 0 <= i < |h| ==>
          index[h[i].commandId] == IdempotencyRecord(CanonicalBytes(h[i]), batches[i].result))
  }

  lemma RecordsStep(index: Index, h: History, batches: seq<CommandBatch>, last: CommandEnvelope, batch: CommandBatch)
    requires |batches| == |h| && Records(index, h, batches) && !Uses(h, last.commandId)
    ensures var record := IdempotencyRecord(CanonicalBytes(last), batch.result);
            Records(index[last.commandId := record], h + [last], batches + [batch])
  {
    hide CanonicalBytes;
    var all := h + [last];
    forall id ensures Uses(all, id) <==> Uses(h, id) || id == last.commandId {
      if Uses(h, id) {
        var i :| 0 <= i < |h| && h[i].commandId == id;
        assert all[i].commandId == id;
      }
      if id == last.commandId { assert all[|h|].commandId == id; }
    }
  }

  /** The index of a history's journal: one record per command. */
  lemma {:induction false} IndexExact(limits: LimitMap, h: History)
    requires Accepted(limits, h)
    ensures IndexOf(Batches(limits, h)).Some?
    ensures Records(IndexOf(Batches(limits, h)).value, h, Batches(limits, h))
    decreases |h|
  {
    hide CanonicalBytes, Evaluated, RecordOf, Records, Batches, Uses;
    if h == [] {
      NoRecords(limits, h);
    } else {
      var n := |h| - 1;
      assert h == h[..n] + [h[n]];
      BatchesStep(limits, h[..n], h[n]);
      IndexExact(limits, h[..n]);
      BatchAt(limits, h, n);
      var front, last := Batches(limits, h[..n]), Batches(limits, h)[n];
      assert Batches(limits, h) == front + [last] && (front + [last])[..n] == front;
      var index := IndexOf(front).value;
      assert h[n].commandId !in index by { RecordedIsUsed(index, h[..n], front, h[n].commandId); }
      RecordsStep(index, h[..n], front, h[n], last);
    }
  }

  lemma NoRecords(limits: LimitMap, h: History)
    requires h == [] && Accepted(limits, h)
    ensures IndexOf(Batches(limits, h)) == Some(map[]) && Records(map[], h, Batches(limits, h))
  {
  }

  lemma RecordedIsUsed(index: Index, h: History, batches: seq<CommandBatch>, id: CommandId)
    requires |batches| == |h| && Records(index, h, batches)
    ensures id in index <==> Uses(h, id)
  {
  }

  ghost function NextSequence(n: nat): uint64
    requires n <= UINT64_MAX
  {
    if n == UINT64_MAX then 0 else n + 1
  }

  lemma {:induction false} HistoryBounded(limits: LimitMap, h: History)
    requires Accepted(limits, h)
    ensures |h| <= UINT64_MAX
  {
  }

  lemma NextSequenceExact(limits: LimitMap, h: History)
    requires Accepted(limits, h)
    ensures |h| <= UINT64_MAX && NextAfter(Batches(limits, h)) == NextSequence(|h|)
  {
    hide Evaluated, CanonicalBytes, EventOf;
    HistoryBounded(limits, h);
    if h != [] { BatchAt(limits, h, |h| - 1); }
  }

  lemma {:induction false} NoDefect(batches: seq<CommandBatch>)
    requires forall i :: 0 <= i < |batches| ==> BatchDefect(batches[i]).None?
    ensures FirstDefect(batches) == None
    decreases |batches|
  {
    if batches == [] {
    } else {
      NoDefect(batches[1..]);
    }
  }

  lemma HistoryHasNoDefect(limits: LimitMap, h: History)
    requires Accepted(limits, h)
    ensures FirstDefect(Batches(limits, h)) == None
  {
    hide CanonicalBytes, ValidatedRequest, EventTag, EventOf, Batches, Accepted;
    forall i | 0 <= i < |h| ensures BatchDefect(Batches(limits, h)[i]).None? {
      BatchAt(limits, h, i);
      CanonicalValidates(h[i]);
    }
    NoDefect(Batches(limits, h));
  }

  /** The running service after a history, with its store open and nothing torn. */
  ghost function ServiceAfter(limits: LimitMap, h: History): ServiceView
    requires Accepted(limits, h)
  {
    IndexExact(limits, h);
    HistoryBounded(limits, h);
    ServiceView(JournalOf(limits, h), true, StateAfter(limits, h), IndexOf(Batches(limits, h)).value, NextSequence(|h|))
  }

  /** Recovery from a history's journal and any torn tail rebuilds exactly the history's service. */
  lemma RecoveryExact(limits: LimitMap, h: History, tail: Bytes)
    requires Accepted(limits, h) && TornTail(tail)
    ensures Recovered(JournalOf(limits, h) + tail, limits) == Success(Recovery(ServiceAfter(limits, h), tail != []))
  {
    hide Accepted, Batches, Scanned, FirstDefect, Replayed, IndexOf, Frames, TornTail, Run, NextSequence, NextAfter;
    var journal := JournalOf(limits, h);
    HistoryEncodes(limits, h);
    ScanExact(Batches(limits, h), tail);
    HistoryHasNoDefect(limits, h);
    ReplayReproduces(limits, h);
    IndexExact(limits, h);
    NextSequenceExact(limits, h);
    Split(journal, tail);
  }

  // One command against the service of a history

  /** The service of a history, possibly closed by a failed write that left some bytes of a further frame. */
  ghost predicate Serves(v: ServiceView, limits: LimitMap, h: History, tail: Bytes)
    requires Accepted(limits, h)
  {
    && v == ServiceAfter(limits, h).(bytes := JournalOf(limits, h) + tail, writable := v.writable)
    && (v.writable ==> tail == [])
  }

  /** The command is new and the domain accepts it: it will be appended. */
  ghost predicate Extends(limits: LimitMap, h: History, envelope: CommandEnvelope) {
    Accepted(limits, h + [envelope])
  }

  lemma RequestAlwaysEncodes(envelope: CommandEnvelope)
    ensures EncodedRequest(envelope) == Success(CanonicalBytes(envelope))
  {
    assert ValidIdText(envelope.commandId);
  }

  /** A retry of the identical request returns the first result and changes nothing, even when the store is closed. */
  lemma RetryReturnsFirstResult(v: ServiceView, limits: LimitMap, h: History, tail: Bytes, i: nat, fault: AppendFault)
    requires Accepted(limits, h) && Serves(v, limits, h, tail) && i < |h|
    ensures AfterExecute(v, h[i], fault) == (v, Success(CommandReceipt(Batches(limits, h)[i].result, true)))
  {
    hide CanonicalBytes, Evaluated, Accepted, Batches, AfterEvaluation, EncodedRequest, IndexOf, Run, JournalOf;
    IndexExact(limits, h);
    RequestAlwaysEncodes(h[i]);
  }

  /** Reusing a command id for any other request is always a conflict and changes nothing. */
  lemma ReuseIsConflict(v: ServiceView, limits: LimitMap, h: History, tail: Bytes, i: nat, other: CommandEnvelope,
          fault: AppendFault)
    requires Accepted(limits, h) && Serves(v, limits, h, tail) && i < |h|
    requires other.commandId == h[i].commandId && other != h[i]
    ensures AfterExecute(v, other, fault) == (v, Failure(IdempotencyConflict))
  {
    hide CanonicalBytes, Evaluated, Accepted, Batches, AfterEvaluation, EncodedRequest, IndexOf, Run, JournalOf;
    IndexExact(limits, h);
    RequestAlwaysEncodes(other);
    if CanonicalBytes(other) == CanonicalBytes(h[i]) { CanonicalInjective(other, h[i]); }
  }

  /** Once a write has failed, no command changes anything until the next recovery. */
  lemma ClosedStoreIsInert(v: ServiceView, envelope: CommandEnvelope, fault: AppendFault)
    requires !v.writable
    ensures AfterExecute(v, envelope, fault).0 == v
    ensures AfterExecute(v, envelope, fault).1.Success? ==> AfterExecute(v, envelope, fault).1.value.idempotentReplay
  {
    hide EncodedRequest, Evaluated, AfterEvaluation;
  }

  /** A command that the history's service refuses: nothing changes. */
  lemma RefusedChangesNothing(v: ServiceView, limits: LimitMap, h: History, envelope: CommandEnvelope,
          fault: AppendFault)
    requires Accepted(limits, h) && Serves(v, limits, h, []) && v.writable
    requires !Uses(h, envelope.commandId) && !Extends(limits, h, envelope)
    ensures AfterExecute(v, envelope, fault).0 == v && AfterExecute(v, envelope, fault).1.Failure?
    ensures AfterExecute(v, envelope, fault).1.error.SequenceExhausted?
        || AfterExecute(v, envelope, fault).1.error.DomainRejected?
            || (AfterExecute(v, envelope, fault).1.error.InvariantViolation?
                && TooManySettled(v.snapshot, envelope.command))
  {
    hide CanonicalBytes, Evaluated, Batches, AfterEvaluation, EncodedRequest, IndexOf, JournalOf, TooManySettled, Inv,
      AfterEvent;
    assert JournalOf(limits, h) + [] == JournalOf(limits, h);
    IndexExact(limits, h);
    RequestAlwaysEncodes(envelope);
    RunStep(limits, h, envelope);
    ReachableIsSound(limits, h);
    HistoryBounded(limits, h);
    EvaluationExact(StateAfter(limits, h), envelope.command);
  }

  /** A command that extends the history is appended as that history's next frame. */
  lemma ExtendingAppends(v: ServiceView, limits: LimitMap, h: History, envelope: CommandEnvelope, fault: AppendFault)
    requires Accepted(limits, h) && Serves(v, limits, h, []) && v.writable && Extends(limits, h, envelope)
    ensures fault.Completes? ==>
              && AfterExecute(v, envelope, fault).0 == ServiceAfter(limits, h + [envelope])
              && AfterExecute(v, envelope, fault).1 ==
                  Success(CommandReceipt(Batches(limits, h + [envelope])[|h|].result, false))
    ensures fault.FailsAfter? ==>
              && AfterExecute(v, envelope, fault).1 == Failure(JournalUnavailable)
              && !AfterExecute(v, envelope, fault).0.writable
              && Serves(AfterExecute(v, envelope, fault).0, limits, h,
                  Prefix(FrameOfLast(limits, h, envelope), fault.written))
  {
    hide CanonicalBytes, Evaluated, EncodedRequest, JournalOf, EncodedFrame, Accepted, Batches, IndexOf,
      AfterStoreAppend, FrameOfLast, Serves, Run;
    BatchesStep(limits, h, envelope);
    var ev := Evaluated(StateAfter(limits, h), envelope.command).value;
    var batch := RecordOf(StateAfter(limits, h), |h| + 1, envelope).value;
    assert batch == Batches(limits, h + [envelope])[|h|];
    FrameOfLastIs(limits, h, envelope);
    ServesOpen(v, limits, h);
    NewCommand(limits, h, envelope);
    AppendCommits(v, limits, h, envelope, batch, ev.prospective, fault);
    RequestAlwaysEncodes(envelope);
  }

  lemma FrameOfLastIs(limits: LimitMap, h: History, envelope: CommandEnvelope)
    requires Extends(limits, h, envelope)
    ensures EncodedFrame(Batches(limits, h + [envelope])[|h|]) == Success(FrameOfLast(limits, h, envelope))
  {
    hide EncodedFrame, Batches, Accepted;
    HistoryEncodes(limits, h + [envelope]);
  }

  lemma ServesOpen(v: ServiceView, limits: LimitMap, h: History)
    requires Accepted(limits, h) && Serves(v, limits, h, []) && v.writable
    ensures v == ServiceAfter(limits, h)
  {
    hide JournalOf, Accepted, Batches, IndexOf;
    assert JournalOf(limits, h) + [] == JournalOf(limits, h);
  }

  lemma NewCommand(limits: LimitMap, h: History, envelope: CommandEnvelope)
    requires Extends(limits, h, envelope)
    ensures Accepted(limits, h) && |h| < UINT64_MAX && envelope.commandId !in ServiceAfter(limits, h).idempotency
    ensures StateAfter(limits, h + [envelope]) == Evaluated(StateAfter(limits, h), envelope.command).value.prospective
  {
    hide Evaluated, CanonicalBytes, JournalOf, IndexOf;
    RunStep(limits, h, envelope);
    IndexExact(limits, h);
  }

  lemma AppendCommits(v: ServiceView, limits: LimitMap, h: History, envelope: CommandEnvelope, batch: CommandBatch,
          prospective: State, fault: AppendFault)
    requires Extends(limits, h, envelope) && Accepted(limits, h) && v == ServiceAfter(limits, h)
    requires batch == Batches(limits, h + [envelope])[|h|] && prospective == StateAfter(limits, h + [envelope])
    ensures fault.Completes? ==>
              AfterStoreAppend(v, batch, FrameOfLast(limits, h, envelope), prospective, fault)
              == (ServiceAfter(limits, h + [envelope]), Success(CommandReceipt(batch.result, false)))
    ensures fault.FailsAfter? ==>
              var r := AfterStoreAppend(v, batch, FrameOfLast(limits, h, envelope), prospective, fault);
              r.1 == Failure(JournalUnavailable) && !r.0.writable
                  && Serves(r.0, limits, h, Prefix(FrameOfLast(limits, h, envelope), fault.written))
  {
    hide Evaluated, CanonicalBytes, EncodedFrame, JournalOf, FrameOfLast, Prefix, RecordOf;
    JournalStep(limits, h, envelope);
    BatchesStep(limits, h, envelope);
    BatchAt(limits, h + [envelope], |h|);
    NewCommand(limits, h, envelope);
    var all := Batches(limits, h + [envelope]);
    assert all[..|h|] == Batches(limits, h);
    IndexExact(limits, h + [envelope]);
  }

  // Runs

  /** What the environment does next. */
  datatype Step =
    | Command(envelope: CommandEnvelope, fault: AppendFault)
    | CrashDuring(envelope: CommandEnvelope, written: nat)
    | Restart(readFault: Option<StoreError>, truncateFails: bool)
    | CrashInRestart

  datatype System = Up(view: ServiceView) | Down(bytes: Bytes)
  {
    function OnDisk(): Bytes {
      if Up? then view.bytes else bytes
    }
  }

  /** A crash inside a command leaves what a failing append would have left, and no process. */
  ghost function AfterStep(limits: LimitMap, system: System, step: Step): System {
    match step
    case Command(envelope, fault) => if system.Up? then Up(AfterExecute(system.view, envelope, fault).0) else system
    case CrashDuring(envelope, written) =>
      if system.Up? then Down(AfterExecute(system.view, envelope, FailsAfter(written, AppendFailed)).0.bytes)
          else system
    case CrashInRestart => Down(Truncated(system.OnDisk()))
    case Restart(readFault, truncateFails) =>
      match Created(system.OnDisk(), true, limits, readFault, truncateFails)
      case Success(recovery) => Up(recovery.view)
      case Failure(_) => Down(system.OnDisk())
  }

  /** The disk once a restart has removed what follows the last valid frame, whether or not it gets any further. */
  ghost function Truncated(bytes: Bytes): Bytes {
    match Scanned(bytes)
    case Success(scan) => Prefix(bytes, scan.lastValidOffset)
    case Failure(_) => bytes
  }

  /** The system together with the commands it has committed and the one command a failed write may have cut. */
  datatype World = World(system: System, committed: History, cut: Option<CommandEnvelope>)

  /** The bytes of the cut command's frame that reached the disk. */
  ghost predicate CutTail(limits: LimitMap, h: History, cut: Option<CommandEnvelope>, tail: Bytes)
    requires Accepted(limits, h)
  {
    match cut
    case None => tail == []
    case Some(envelope) => Extends(limits, h, envelope) && exists n: nat ::
        tail == Prefix(FrameOfLast(limits, h, envelope), n)
  }

  ghost predicate Agrees(limits: LimitMap, w: World) {
    && Accepted(limits, w.committed)
    && exists tail ::
         && CutTail(limits, w.committed, w.cut, tail)
         && w.system.OnDisk() == JournalOf(limits, w.committed) + tail
         && (w.system.Up? ==> Serves(w.system.view, limits, w.committed, tail))
         && (w.system.Up? ==> (w.system.view.writable <==> w.cut.None?))
  }

  /** Whether the command, if executed now, would be appended. */
  ghost predicate Appends(limits: LimitMap, w: World, envelope: CommandEnvelope) {
    w.system.Up? && w.system.view.writable && Extends(limits, w.committed, envelope)
  }

  /**
   The committed history after a step: a completed append, or a cut frame found complete by recovery, adds one
   command.
   */
  ghost function NextWorld(limits: LimitMap, w: World, step: Step): World {
    var system := AfterStep(limits, w.system, step);
    match step
    case Command(envelope, fault) =>
      if !Appends(limits, w, envelope) then World(system, w.committed, w.cut)
      else if fault.Completes? then World(system, w.committed + [envelope], None)
      else World(system, w.committed, Some(envelope))
    case CrashDuring(envelope, _) =>
      World(system, w.committed, if Appends(limits, w, envelope) then Some(envelope) else w.cut)
    case Restart(_, _) =>
      if system.Down? then World(system, w.committed, w.cut)
      else World(system, FoundByRecovery(limits, w), None)
    case CrashInRestart => World(system, w.committed, w.cut)
  }

  ghost predicate CutIsWhole(limits: LimitMap, w: World) {
    && w.cut.Some? && Accepted(limits, w.committed + [w.cut.value])
    && w.system.OnDisk() == JournalOf(limits, w.committed + [w.cut.value])
  }

  lemma FirstBoot(limits: LimitMap)
    requires Unreserved(limits)
    ensures Agrees(limits, World(Down([]), [], None))
  {
    assert JournalOf(limits, []) + [] == [];
    assert CutTail(limits, [], None, []);
  }

  lemma NotAppendedChangesNothing(limits: LimitMap, w: World, envelope: CommandEnvelope, fault: AppendFault)
    requires Agrees(limits, w) && w.system.Up? && !Appends(limits, w, envelope)
    ensures AfterExecute(w.system.view, envelope, fault).0 == w.system.view
  {
    hide CanonicalBytes, Evaluated, AfterExecute, JournalOf, ServiceAfter, Batches, IndexOf, FrameOfLast, Accepted,
      TooManySettled;
    var v := w.system.view;
    var tail :| CutTail(limits, w.committed, w.cut, tail) && Serves(v, limits, w.committed, tail);
    if !v.writable {
      ClosedStoreIsInert(v, envelope, fault);
    } else if Uses(w.committed, envelope.commandId) {
      var i :| 0 <= i < |w.committed| && w.committed[i].commandId == envelope.commandId;
      if envelope == w.committed[i] { RetryReturnsFirstResult(v, limits, w.committed, tail, i, fault); }
      else { ReuseIsConflict(v, limits, w.committed, tail, i, envelope, fault); }
    } else {
      RefusedChangesNothing(v, limits, w.committed, envelope, fault);
    }
  }

  lemma AppendKeepsAgreement(limits: LimitMap, w: World, envelope: CommandEnvelope, fault: AppendFault)
    requires Agrees(limits, w) && Appends(limits, w, envelope)
    ensures var v := AfterExecute(w.system.view, envelope, fault).0;
            && Agrees(limits, World(Up(v), if fault.Completes? then w.committed + [envelope] else w.committed,
                                    if fault.Completes? then None else Some(envelope)))
            && (fault.FailsAfter? ==> Agrees(limits, World(Down(v.bytes), w.committed, Some(envelope))))
  {
    hide CanonicalBytes, Evaluated, AfterExecute, JournalOf, Batches, IndexOf, FrameOfLast, Accepted, Run, Prefix,
      NextSequence, StateAfter;
    var view := w.system.view;
    var tail :| CutTail(limits, w.committed, w.cut, tail) && Serves(view, limits, w.committed, tail);
    ExtendingAppends(view, limits, w.committed, envelope, fault);
    var v := AfterExecute(view, envelope, fault).0;
    if fault.Completes? {
      assert JournalOf(limits, w.committed + [envelope]) + [] == JournalOf(limits, w.committed + [envelope]);
      assert CutTail(limits, w.committed + [envelope], None, []);
    } else {
      assert CutTail(limits, w.committed, Some(envelope),
          Prefix(FrameOfLast(limits, w.committed, envelope), fault.written));
    }
  }

  /** A cut tail is either the whole frame of the cut command or torn. */
  lemma CutWholeOrTorn(limits: LimitMap, h: History, cut: Option<CommandEnvelope>, tail: Bytes)
    requires Accepted(limits, h) && CutTail(limits, h, cut, tail)
    ensures TornTail(tail) || (cut.Some? && Extends(limits, h, cut.value) && tail == FrameOfLast(limits, h, cut.value))
  {
    hide EncodedFrame, Batches, Accepted;
    if cut.Some? {
      FrameOfLastIs(limits, h, cut.value);
      var frame := FrameOfLast(limits, h, cut.value);
      var n: nat :| tail == Prefix(frame, n);
      if n < |frame| { assert IsTorn(tail, Batches(limits, h + [cut.value])[|h|], n); }
    }
  }

  /** What recovery finds: the committed commands, or those and the one cut command. */
  ghost function FoundByRecovery(limits: LimitMap, w: World): History {
    if CutIsWhole(limits, w) then w.committed + [w.cut.value] else w.committed
  }

  lemma DiskRecovers(limits: LimitMap, w: World)
    requires Agrees(limits, w)
    ensures Accepted(limits, FoundByRecovery(limits, w)) && Recovered(w.system.OnDisk(), limits).Success?
    ensures Recovered(w.system.OnDisk(), limits).value.view == ServiceAfter(limits, FoundByRecovery(limits, w))
  {
    hide Recovered, JournalOf, FrameOfLast, Accepted, TornTail, ServiceAfter, Serves;
    var tail :| CutTail(limits, w.committed, w.cut, tail) && w.system.OnDisk() == JournalOf(limits, w.committed) + tail;
    CutWholeOrTorn(limits, w.committed, w.cut, tail);
    var journal := JournalOf(limits, w.committed);
    if w.cut.Some? {
      JournalStep(limits, w.committed, w.cut.value);
      assert (journal + tail)[|journal|..] == tail;
      assert (journal + FrameOfLast(limits, w.committed, w.cut.value))[|journal|..] ==
          FrameOfLast(limits, w.committed, w.cut.value);
    }
    if CutIsWhole(limits, w) {
      assert JournalOf(limits, w.committed + [w.cut.value]) + [] == w.system.OnDisk();
      EmptyIsTorn();
      RecoveryExact(limits, w.committed + [w.cut.value], []);
    } else {
      RecoveryExact(limits, w.committed, tail);
    }
  }

  lemma CreationFollowsRecovery(bytes: Bytes, limits: LimitMap, readFault: Option<StoreError>, truncateFails: bool)
    requires Recovered(bytes, limits).Success? && Recovered(bytes, limits).value.view.writable
    ensures Created(bytes, true, limits, readFault, truncateFails).Success? ==>
              Created(bytes, true, limits, readFault, truncateFails) == Recovered(bytes, limits)
    ensures readFault.None? && !truncateFails ==> Created(bytes, true, limits, readFault, truncateFails).Success?
  {
    hide RecoveredFrom, Scanned;
  }

  /**
   A restart whose reads and truncation work rebuilds what recovery finds; any other fails and leaves the disk alone.
   */
  lemma RestartRecovers(limits: LimitMap, w: World, readFault: Option<StoreError>, truncateFails: bool)
    requires Agrees(limits, w)
    ensures var next := NextWorld(limits, w, Restart(readFault, truncateFails));
            if next.system.Up? then
              && Accepted(limits, FoundByRecovery(limits, w))
              && next == World(Up(ServiceAfter(limits, FoundByRecovery(limits, w))), FoundByRecovery(limits, w), None)
            else
              next == World(Down(w.system.OnDisk()), w.committed, w.cut)
    ensures readFault.None? && !truncateFails ==> NextWorld(limits, w, Restart(readFault, truncateFails)).system.Up?
  {
    hide Recovered, Created, Agrees, Accepted, JournalOf, IndexOf, Batches, CutIsWhole;
    DiskRecovers(limits, w);
    CreationFollowsRecovery(w.system.OnDisk(), limits, readFault, truncateFails);
  }

  lemma DownAgrees(limits: LimitMap, w: World)
    requires Agrees(limits, w)
    ensures Agrees(limits, World(Down(w.system.OnDisk()), w.committed, w.cut))
  {
    hide JournalOf, Accepted, CutTail, Serves;
  }

  /** A cut frame counts as committed exactly when all of its bytes reached the disk. */
  lemma WholeByLength(limits: LimitMap, w: World)
    requires Agrees(limits, w) && w.cut.Some?
    ensures Extends(limits, w.committed, w.cut.value)
    ensures CutIsWhole(limits, w) <==>
              |w.system.OnDisk()| >= |JournalOf(limits, w.committed)| + |FrameOfLast(limits, w.committed, w.cut.value)|
  {
    hide JournalOf, FrameOfLast, Accepted, Serves;
    var tail :| CutTail(limits, w.committed, w.cut, tail) && w.system.OnDisk() == JournalOf(limits, w.committed) + tail;
    JournalStep(limits, w.committed, w.cut.value);
    var n: nat :| tail == Prefix(FrameOfLast(limits, w.committed, w.cut.value), n);
  }

  /** Truncation removes a torn tail and nothing else, so a cut frame is left whole or gone. */
  lemma TruncationAgrees(limits: LimitMap, w: World)
    requires Agrees(limits, w)
    ensures Agrees(limits, World(Down(Truncated(w.system.OnDisk())), w.committed, w.cut))
  {
    hide JournalOf, FrameOfLast, Accepted, TornTail, Serves, Scanned, Frames, Batches;
    var tail :| CutTail(limits, w.committed, w.cut, tail) && w.system.OnDisk() == JournalOf(limits, w.committed) + tail;
    CutWholeOrTorn(limits, w.committed, w.cut, tail);
    if TornTail(tail) {
      TruncationCuts(limits, w.committed, tail);
      assert JournalOf(limits, w.committed) + [] == JournalOf(limits, w.committed);
      assert CutTail(limits, w.committed, w.cut, []) by {
        if w.cut.Some? { assert [] == Prefix(FrameOfLast(limits, w.committed, w.cut.value), 0); }
      }
    } else {
      JournalStep(limits, w.committed, w.cut.value);
      EmptyIsTorn();
      TruncationCuts(limits, w.committed + [w.cut.value], []);
      assert w.system.OnDisk() == JournalOf(limits, w.committed + [w.cut.value]);
      assert w.system.OnDisk() + [] == w.system.OnDisk();
    }
  }

  lemma TruncationCuts(limits: LimitMap, h: History, tail: Bytes)
    requires Accepted(limits, h) && TornTail(tail)
    ensures Truncated(JournalOf(limits, h) + tail) == JournalOf(limits, h)
  {
    hide Scanned, Frames, Batches, TornTail, Accepted;
    HistoryEncodes(limits, h);
    ScanExact(Batches(limits, h), tail);
    Split(JournalOf(limits, h), tail);
  }

  lemma EmptyIsTorn()
    ensures TornTail([])
  {
  }

  lemma FreshServiceAgrees(limits: LimitMap, h: History)
    requires Accepted(limits, h)
    ensures Agrees(limits, World(Up(ServiceAfter(limits, h)), h, None))
  {
    hide JournalOf, Accepted, IndexOf, Batches;
    assert JournalOf(limits, h) + [] == JournalOf(limits, h);
    assert CutTail(limits, h, None, []);
  }

  lemma StepKeepsAgreement(limits: LimitMap, w: World, step: Step)
    requires Agrees(limits, w)
    ensures Agrees(limits, NextWorld(limits, w, step))
  {
    hide AfterExecute, Created, Truncated, JournalOf, Appends, FoundByRecovery, Serves, CutTail, Accepted, ServiceAfter;
    match step
    case Command(envelope, fault) =>
      if Appends(limits, w, envelope) {
        AppendKeepsAgreement(limits, w, envelope, fault);
        UpWhenAppending(limits, w, envelope);
      } else if w.system.Up? {
        NotAppendedChangesNothing(limits, w, envelope, fault);
      }
    case CrashDuring(envelope, written) =>
      var fault := FailsAfter(written, AppendFailed);
      if Appends(limits, w, envelope) {
        AppendKeepsAgreement(limits, w, envelope, fault);
        UpWhenAppending(limits, w, envelope);
      } else if w.system.Up? {
        NotAppendedChangesNothing(limits, w, envelope, fault);
      }
    case Restart(readFault, truncateFails) =>
      RestartRecovers(limits, w, readFault, truncateFails);
      DownAgrees(limits, w);
      if NextWorld(limits, w, step).system.Up? { FreshServiceAgrees(limits, FoundByRecovery(limits, w)); }
    case CrashInRestart => TruncationAgrees(limits, w);
  }

  lemma UpWhenAppending(limits: LimitMap, w: World, envelope: CommandEnvelope)
    requires Appends(limits, w, envelope)
    ensures w.system.Up?
  {
  }

  ghost function WorldAfter(limits: LimitMap, steps: seq<Step>): World
    decreases |steps|
  {
    if steps == [] then World(Down([]), [], None)
    else NextWorld(limits, WorldAfter(limits, steps[..|steps| - 1]), steps[|steps| - 1])
  }

  /** Over every run from an empty disk, system and disk agree with one accepted history. */
  lemma {:induction false} EveryRunAgrees(limits: LimitMap, steps: seq<Step>)
    requires Unreserved(limits)
    ensures Agrees(limits, WorldAfter(limits, steps))
    decreases |steps|
  {
    hide Agrees, NextWorld;
    if steps == [] {
      FirstBoot(limits);
    } else {
      EveryRunAgrees(limits, steps[..|steps| - 1]);
      StepKeepsAgreement(limits, WorldAfter(limits, steps[..|steps| - 1]), steps[|steps| - 1]);
    }
  }

  /** After any run, a working restart yields the service of the committed commands or of those and the cut one. */
  lemma EveryRestartRecovers(limits: LimitMap, steps: seq<Step>)
    requires Unreserved(limits)
    ensures var before, after := WorldAfter(limits, steps), WorldAfter(limits, steps + [Restart(None, false)]);
            && (after.committed == before.committed
                || (before.cut.Some? && after.committed == before.committed + [before.cut.value]))
            && Accepted(limits, after.committed)
            && after.system == Up(ServiceAfter(limits, after.committed))
  {
    hide Agrees, NextWorld, ServiceAfter, Accepted;
    EveryRunAgrees(limits, steps);
    RestartRecovers(limits, WorldAfter(limits, steps), None, false);
    assert (steps + [Restart(None, false)])[..|steps|] == steps;
  }

  // What becomes of a write that failed

  /** The world right after an append of this command failed, with or without the process surviving. */
  ghost predicate LeftCut(limits: LimitMap, w: World, envelope: CommandEnvelope, written: nat, failed: World) {
    && Extends(limits, w.committed, envelope) && Agrees(limits, failed)
    && failed.committed == w.committed && failed.cut == Some(envelope)
    && failed.system.OnDisk() == JournalOf(limits, w.committed)
        + Prefix(FrameOfLast(limits, w.committed, envelope), written)
  }

  lemma FailedAppendLeaves(limits: LimitMap, w: World, envelope: CommandEnvelope, fault: AppendFault)
    requires Agrees(limits, w) && Appends(limits, w, envelope) && fault.FailsAfter?
    ensures LeftCut(limits, w, envelope, fault.written, NextWorld(limits, w, Command(envelope, fault)))
  {
    hide AfterExecute, JournalOf, FrameOfLast, Accepted, ServiceAfter, Prefix;
    StepKeepsAgreement(limits, w, Command(envelope, fault));
    var tail :| CutTail(limits, w.committed, w.cut, tail) && Serves(w.system.view, limits, w.committed, tail);
    ExtendingAppends(w.system.view, limits, w.committed, envelope, fault);
  }

  lemma CrashLeaves(limits: LimitMap, w: World, envelope: CommandEnvelope, written: nat)
    requires Agrees(limits, w) && Appends(limits, w, envelope)
    ensures LeftCut(limits, w, envelope, written, NextWorld(limits, w, CrashDuring(envelope, written)))
  {
    hide AfterExecute, JournalOf, FrameOfLast, Accepted, ServiceAfter, Prefix;
    StepKeepsAgreement(limits, w, CrashDuring(envelope, written));
    var tail :| CutTail(limits, w.committed, w.cut, tail) && Serves(w.system.view, limits, w.committed, tail);
    ExtendingAppends(w.system.view, limits, w.committed, envelope, FailsAfter(written, AppendFailed));
  }

  lemma RestartDecides(limits: LimitMap, w: World, envelope: CommandEnvelope, written: nat, failed: World)
    requires LeftCut(limits, w, envelope, written, failed)
    ensures NextWorld(limits, failed, Restart(None, false)).committed ==
            if written >= |FrameOfLast(limits, w.committed, envelope)| then w.committed + [envelope] else w.committed
  {
    hide Agrees, JournalOf, FrameOfLast, Accepted, ServiceAfter, NextWorld, CutIsWhole;
    WholeByLength(limits, failed);
    RestartRecovers(limits, failed, None, false);
  }

  /**
   A command answered as failed is committed by the next working restart exactly when the write had left its whole
   frame.
   */
  lemma FailedAppendCommits(limits: LimitMap, w: World, envelope: CommandEnvelope, fault: AppendFault)
    requires Agrees(limits, w) && Appends(limits, w, envelope) && fault.FailsAfter?
    ensures AfterExecute(w.system.view, envelope, fault).1 == Failure(JournalUnavailable)
    ensures var failed := NextWorld(limits, w, Command(envelope, fault));
            NextWorld(limits, failed, Restart(None, false)).committed ==
            if fault.written >= |FrameOfLast(limits, w.committed, envelope)| then w.committed + [envelope]
                else w.committed
  {
    hide Serves, FrameOfLast, JournalOf, Accepted, NextWorld, LeftCut, AfterExecute, ServiceAfter;
    FailedAppendLeaves(limits, w, envelope, fault);
    RestartDecides(limits, w, envelope, fault.written, NextWorld(limits, w, Command(envelope, fault)));
    var tail :| CutTail(limits, w.committed, w.cut, tail) && Serves(w.system.view, limits, w.committed, tail);
    OpenTailIsEmpty(limits, w, tail);
    ExtendingAppends(w.system.view, limits, w.committed, envelope, fault);
  }

  lemma OpenTailIsEmpty(limits: LimitMap, w: World, tail: Bytes)
    requires Accepted(limits, w.committed) && w.system.Up? && w.system.view.writable
    requires Serves(w.system.view, limits, w.committed, tail)
    ensures tail == []
  {
    hide JournalOf, ServiceAfter, Accepted;
  }

  /**
   A command cut short by a crash is committed by the next working restart exactly when its whole frame was written.
   */
  lemma CrashedAppendCommits(limits: LimitMap, w: World, envelope: CommandEnvelope, written: nat)
    requires Agrees(limits, w) && Appends(limits, w, envelope)
    ensures var crashed := NextWorld(limits, w, CrashDuring(envelope, written));
            NextWorld(limits, crashed, Restart(None, false)).committed ==
            if written >= |FrameOfLast(limits, w.committed, envelope)| then w.committed + [envelope] else w.committed
  {
    hide Agrees, FrameOfLast, Accepted, NextWorld, LeftCut, Appends;
    AppendsExtends(limits, w, envelope);
    CrashLeaves(limits, w, envelope, written);
    RestartDecides(limits, w, envelope, written, NextWorld(limits, w, CrashDuring(envelope, written)));
  }

  lemma AppendsExtends(limits: LimitMap, w: World, envelope: CommandEnvelope)
    requires Appends(limits, w, envelope)
    ensures Extends(limits, w.committed, envelope)
  {
  }

  // What stays on disk

  /** The journal of an earlier part of a history begins the journal of the whole. */
  lemma {:induction false} JournalPrefix(limits: LimitMap, earlier: History, h: History)
    requires Accepted(limits, h) && earlier <= h
    ensures Accepted(limits, earlier) && JournalOf(limits, earlier) <= JournalOf(limits, h)
    decreases |h|
  {
    hide JournalOf, FrameOfLast, Accepted;
    if earlier == h {
    } else {
      var n := |h| - 1;
      assert h == h[..n] + [h[n]] && earlier <= h[..n];
      JournalStep(limits, h[..n], h[n]);
      JournalPrefix(limits, earlier, h[..n]);
    }
  }

  /** Once committed, a command's frame stays on the disk where it was written, whatever happens later. */
  lemma DiskKeepsCommitted(limits: LimitMap, steps: seq<Step>, more: seq<Step>)
    requires Unreserved(limits)
    ensures var before, after := WorldAfter(limits, steps), WorldAfter(limits, steps + more);
            Accepted(limits, before.committed) && JournalOf(limits, before.committed) <= after.system.OnDisk()
  {
    hide JournalOf, Accepted, WorldAfter, Serves, CutTail;
    EveryRunAgrees(limits, steps + more);
    CommittedGrows(limits, steps, more);
    JournalPrefix(limits, WorldAfter(limits, steps).committed, WorldAfter(limits, steps + more).committed);
  }

  /** Committed commands are never lost or reordered by any later step. */
  lemma CommittedIsDurable(limits: LimitMap, w: World, step: Step)
    ensures w.committed <= NextWorld(limits, w, step).committed
    ensures |NextWorld(limits, w, step).committed| <= |w.committed| + 1
  {
    hide AfterStep, Appends, CutIsWhole;
  }

  lemma {:induction false} CommittedGrows(limits: LimitMap, steps: seq<Step>, more: seq<Step>)
    ensures WorldAfter(limits, steps).committed <= WorldAfter(limits, steps + more).committed
    decreases |more|
  {
    hide NextWorld;
    if more == [] {
      assert steps + more == steps;
    } else {
      var n := |more| - 1;
      CommittedGrows(limits, steps, more[..n]);
      assert (steps + more)[..|steps + more| - 1] == steps + more[..n];
      CommittedIsDurable(limits, WorldAfter(limits, steps + more[..n]), more[n]);
    }
  }

  /** A command acknowledged as new is committed at once, with the result that the journal holds. */
  lemma AcknowledgedIsCommitted(limits: LimitMap, w: World, envelope: CommandEnvelope, fault: AppendFault)
    requires Agrees(limits, w) && w.system.Up?
    requires AfterExecute(w.system.view, envelope, fault).1.Success?
        && !AfterExecute(w.system.view, envelope, fault).1.value.idempotentReplay
    ensures NextWorld(limits, w, Command(envelope, fault)).committed == w.committed + [envelope]
    ensures Accepted(limits, w.committed + [envelope])
    ensures AfterExecute(w.system.view, envelope, fault).1.value.result ==
        Batches(limits, w.committed + [envelope])[|w.committed|].result
  {
    hide CanonicalBytes, Evaluated, AfterExecute, JournalOf, ServiceAfter, Batches, IndexOf, FrameOfLast, Accepted,
      TooManySettled, Run;
    var v := w.system.view;
    var tail :| CutTail(limits, w.committed, w.cut, tail) && Serves(v, limits, w.committed, tail);
    if !v.writable {
      ClosedStoreIsInert(v, envelope, fault);
      assert false;
    } else if !Extends(limits, w.committed, envelope) {
      if Uses(w.committed, envelope.commandId) {
        var i :| 0 <= i < |w.committed| && w.committed[i].commandId == envelope.commandId;
        if envelope == w.committed[i] { RetryReturnsFirstResult(v, limits, w.committed, tail, i, fault); }
        else { ReuseIsConflict(v, limits, w.committed, tail, i, envelope, fault); }
        assert false;
      } else {
        RefusedChangesNothing(v, limits, w.committed, envelope, fault);
        assert false;
      }
    } else {
      ExtendingAppends(v, limits, w.committed, envelope, fault);
    }
  }

  /** Errors that no run can produce. */
  predicate ImpossibleReply(r: Outcome<CommandReceipt, ServiceError>) {
    r.Failure? && (r.error.JournalEncodingFailure? || r.error.CommandEncodingFailure? || r.error.RecoveryFailure?
                   || r.error.ReplayFailure? || r.error.DuplicateJournalCommandId? || r.error.InvalidCanonicalRequest?)
  }

  /** No run makes encoding fail, and only an uncountable end of day is an invariant violation. */
  lemma NoImpossibleReply(limits: LimitMap, w: World, envelope: CommandEnvelope, fault: AppendFault)
    requires Agrees(limits, w) && w.system.Up?
    ensures !ImpossibleReply(AfterExecute(w.system.view, envelope, fault).1)
    ensures AfterExecute(w.system.view, envelope, fault).1 == Failure(ServiceError.InvariantViolation) ==>
              TooManySettled(w.system.view.snapshot, envelope.command)
  {
    hide CanonicalBytes, Evaluated, AfterExecute, JournalOf, ServiceAfter, Batches, IndexOf, FrameOfLast, Accepted,
      TooManySettled, Run;
    var v := w.system.view;
    var tail :| CutTail(limits, w.committed, w.cut, tail) && Serves(v, limits, w.committed, tail);
    if Uses(w.committed, envelope.commandId) {
      var i :| 0 <= i < |w.committed| && w.committed[i].commandId == envelope.commandId;
      if envelope == w.committed[i] { RetryReturnsFirstResult(v, limits, w.committed, tail, i, fault); }
      else { ReuseIsConflict(v, limits, w.committed, tail, i, envelope, fault); }
    } else if !v.writable {
      ClosedReply(v, envelope, fault);
    } else if Extends(limits, w.committed, envelope) {
      ExtendingAppends(v, limits, w.committed, envelope, fault);
    } else {
      RefusedChangesNothing(v, limits, w.committed, envelope, fault);
    }
  }

  lemma ClosedReply(v: ServiceView, envelope: CommandEnvelope, fault: AppendFault)
    requires !v.writable
    ensures AfterExecute(v, envelope, fault).1.Success?
        || AfterExecute(v, envelope, fault).1.error in {IdempotencyConflict, JournalUnavailable}
  {
    hide CanonicalBytes, Evaluated, AfterEvaluation;
    RequestAlwaysEncodes(envelope);
  }
}
