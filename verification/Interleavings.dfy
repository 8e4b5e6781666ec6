/**
 Concurrent readers: one thread at a time advances through execute under the
 mutex, in the order append, index, sequence, snapshot; any thread may load the
 snapshot between any two of these steps.
 */
module Interleavings {
  import opened Wrappers
  import opened Values
  import opened Limits
  import opened StateMachine
  import opened Journal
  import opened Replay
  import opened Codec
  import opened Evaluator
  import opened Requests
  import opened Storage
  import opened Service
  import opened Histories
  import opened Durability

  /** What execute has computed when it reaches the append. */
  datatype Commit = Commit(batch: CommandBatch, frame: Bytes, prospective: State)

  /** The commit that a command leads to, or none if execute replies without appending. */
  ghost function Prepared(v: ServiceView, envelope: CommandEnvelope): Option<Commit> {
    if EncodedRequest(envelope).Failure? || envelope.commandId in v.idempotency || !v.writable || v.nextSequence == 0
        then None
    else
      match Evaluated(v.snapshot, envelope.command)
      case Failure(_) => None
      case Success(ev) =>
        match CreateBatch(v.nextSequence, envelope.commandId, EncodedRequest(envelope).value, [ev.event], ev.result)
        case Failure(_) => None
        case Success(batch) =>
          match EncodedFrame(batch)
          case Failure(_) => None
          case Success(frame) => Some(Commit(batch, frame, ev.prospective))
  }

  datatype Phase =
    | Idle
    | Appending(thread: nat, envelope: CommandEnvelope, commit: Commit)
    | Indexing(thread: nat, envelope: CommandEnvelope, commit: Commit)
    | Sequencing(thread: nat, envelope: CommandEnvelope, commit: Commit)
    | Publishing(thread: nat, envelope: CommandEnvelope, commit: Commit)

  /** A loaded snapshot and the bytes on disk at that moment, with the commands appended and published by then. */
  datatype Observation = Observation(snapshot: State, bytes: Bytes, durable: History, published: nat)

  datatype Machine = Machine(view: ServiceView, phase: Phase, durable: History, published: nat, loads: seq<Observation>)

  datatype Move =
    | Lock(who: nat, envelope: CommandEnvelope)
    | Advance(who: nat, fault: AppendFault)
    | Load

  /** One atomic step; a thread that cannot move waits. */
  ghost function AfterMove(m: Machine, move: Move): Machine {
    match move
    case Load => m.(loads := m.loads + [Observation(m.view.snapshot, m.view.bytes, m.durable, m.published)])
    case Lock(who, envelope) =>
      if m.phase.Idle? && Prepared(m.view, envelope).Some?
          then m.(phase := Appending(who, envelope, Prepared(m.view, envelope).value)) else m
    case Advance(who, fault) =>
      if m.phase.Idle? || m.phase.thread != who then m else AfterAdvance(m, fault)
  }

  ghost function AfterAdvance(m: Machine, fault: AppendFault): Machine
    requires !m.phase.Idle?
  {
    var c := m.phase.commit;
    match m.phase
    case Appending(who, envelope, _) =>
      if fault.Completes? then
        m.(view := m.view.(bytes := m.view.bytes + c.frame), phase := Indexing(who, envelope, c),
            durable := m.durable + [envelope])
      else m.(view := m.view.(bytes := m.view.bytes + Prefix(c.frame, fault.written), writable := false), phase := Idle)
    case Indexing(who, envelope, _) =>
      var record := IdempotencyRecord(c.batch.canonicalRequest, c.batch.result);
      m.(view := m.view.(idempotency := m.view.idempotency[c.batch.commandId := record]),
         phase := Sequencing(who, envelope, c))
    case Sequencing(who, envelope, _) =>
      m.(view := m.view.(nextSequence := Following(m.view.nextSequence)), phase := Publishing(who, envelope, c))
    case Publishing(_, _, _) =>
      m.(view := m.view.(snapshot := c.prospective), phase := Idle, published := m.published + 1)
  }

  /** Execute is these steps run without interruption. */
  lemma StepsComposeToExecute(v: ServiceView, envelope: CommandEnvelope, fault: AppendFault)
    ensures match Prepared(v, envelope)
            case None => AfterExecute(v, envelope, fault).0 == v
            case Some(c) =>
              AfterExecute(v, envelope, fault) == AfterStoreAppend(v, c.batch, c.frame, c.prospective, fault)
  {
    hide EncodedRequest, Evaluated, EncodedFrame, AfterStoreAppend;
  }

  /** The four advances of one uninterrupted command build execute's view. */
  lemma UninterruptedIsExecute(m: Machine, who: nat, envelope: CommandEnvelope)
    requires m.phase.Idle? && Prepared(m.view, envelope).Some?
    ensures var m1 := AfterMove(m, Lock(who, envelope));
            var m2 := AfterMove(m1, Advance(who, Completes));
            var m3 := AfterMove(m2, Advance(who, Completes));
            var m4 := AfterMove(m3, Advance(who, Completes));
            var m5 := AfterMove(m4, Advance(who, Completes));
            m5.phase.Idle? && m5.view == AfterExecute(m.view, envelope, Completes).0
  {
    hide EncodedRequest, Evaluated, EncodedFrame, Prepared;
    StepsComposeToExecute(m.view, envelope, Completes);
  }

  // The invariant of every interleaving

  /** Between append and publication the view is the earlier service with some fields already advanced. */
  ghost predicate Between(phase: Phase, view: ServiceView, earlier: ServiceView, next: ServiceView)
    requires !phase.Idle?
  {
    var c := phase.commit;
    && c.prospective == next.snapshot
    && next.idempotency == earlier.idempotency[c.batch.commandId := IdempotencyRecord(c.batch.canonicalRequest,
        c.batch.result)]
    && next.nextSequence == Following(earlier.nextSequence)
    && view.bytes == next.bytes && view.writable == next.writable
    && view.snapshot == earlier.snapshot
    && view.idempotency == (if phase.Indexing? then earlier.idempotency else next.idempotency)
    && view.nextSequence == (if phase.Publishing? then next.nextSequence else earlier.nextSequence)
  }

  ghost predicate Midway(m: Machine, limits: LimitMap, h: History)
    requires !m.phase.Idle? && Accepted(limits, h + [m.phase.envelope]) && Accepted(limits, h)
  {
    && m.durable == h + [m.phase.envelope] && m.published == |h|
    && Between(m.phase, m.view, ServiceAfter(limits, h), ServiceAfter(limits, h + [m.phase.envelope]))
  }

  /** Between commands the disk holds the journal and, once a write has failed, part of that one frame. */
  ghost predicate Resting(limits: LimitMap, view: ServiceView, h: History, cut: Option<CommandEnvelope>, tail: Bytes)
    requires Accepted(limits, h)
  {
    CutTail(limits, h, cut, tail) && Serves(view, limits, h, tail) && (view.writable <==> cut.None?)
  }

  ghost predicate Sane(limits: LimitMap, m: Machine) {
    match m.phase
    case Idle =>
      && Accepted(limits, m.durable) && m.published == |m.durable|
      && exists cut, tail :: Resting(limits, m.view, m.durable, cut, tail)
    case Appending(_, envelope, commit) =>
      && Accepted(limits, m.durable) && m.published == |m.durable| && m.view == ServiceAfter(limits, m.durable)
      && Prepared(m.view, envelope) == Some(commit) && Accepted(limits, m.durable + [envelope])
    case _ =>
      && |m.durable| > 0
      && Accepted(limits, m.durable) && Accepted(limits, m.durable[..|m.durable| - 1])
      && m.durable == m.durable[..|m.durable| - 1] + [m.phase.envelope]
      && Midway(m, limits, m.durable[..|m.durable| - 1])
  }

  /**
   The disk is the durable journal and a tail; only when everything durable is published may the tail be a cut frame.
   */
  ghost predicate OnDisk(limits: LimitMap, o: Observation, cut: Option<CommandEnvelope>, tail: Bytes)
    requires Accepted(limits, o.durable)
  {
    && CutTail(limits, o.durable, cut, tail) && o.bytes == JournalOf(limits, o.durable) + tail
    && (cut.Some? ==> o.published == |o.durable|)
  }

  /** What a load may see: the state of a prefix of the journal on disk, at most one command behind. */
  ghost predicate Coherent(limits: LimitMap, o: Observation) {
    && Accepted(limits, o.durable) && o.published <= |o.durable| <= o.published + 1
    && Accepted(limits, o.durable[..o.published]) && o.snapshot == StateAfter(limits, o.durable[..o.published])
    && exists cut, tail :: OnDisk(limits, o, cut, tail)
  }

  ghost predicate LoadsInOrder(loads: seq<Observation>) {
    forall i, j :: 0 <= i < j < |loads| ==>
      loads[i].published <= loads[j].published && loads[i].durable <= loads[j].durable
          && loads[i].bytes <= loads[j].bytes
  }

  ghost predicate Behaves(limits: LimitMap, m: Machine) {
    && Sane(limits, m)
    && (forall i :: 0 <= i < |m.loads| ==> Coherent(limits, m.loads[i]))
    && LoadsInOrder(m.loads)
    && (forall i :: 0 <= i < |m.loads| ==>
          m.loads[i].published <= m.published && m.loads[i].durable <= m.durable && m.loads[i].bytes <= m.view.bytes)
  }

  lemma SaneIsCoherent(limits: LimitMap, m: Machine)
    requires Sane(limits, m)
    ensures Coherent(limits, Observation(m.view.snapshot, m.view.bytes, m.durable, m.published))
  {
    hide Accepted, StateAfter, JournalOf, IndexOf, Batches, Prepared, CutTail;
    assert m.durable[..|m.durable|] == m.durable;
    var o := Observation(m.view.snapshot, m.view.bytes, m.durable, m.published);
    if m.phase.Idle? {
      var cut, tail :| Resting(limits, m.view, m.durable, cut, tail);
      assert OnDisk(limits, o, cut, tail);
    } else {
      NoTail(limits, m.durable);
      assert OnDisk(limits, o, None, []);
    }
  }

  lemma NoTail(limits: LimitMap, h: History)
    requires Accepted(limits, h)
    ensures CutTail(limits, h, None, []) && JournalOf(limits, h) + [] == JournalOf(limits, h)
  {
  }

  lemma PreparedExtends(limits: LimitMap, m: Machine, envelope: CommandEnvelope)
    requires Sane(limits, m) && m.phase.Idle? && Prepared(m.view, envelope).Some?
    ensures m.view == ServiceAfter(limits, m.durable) && Accepted(limits, m.durable + [envelope])
  {
    hide Evaluated, EncodedRequest, EncodedFrame, CreateBatch, JournalOf, IndexOf, Batches;
    var cut, tail :| Resting(limits, m.view, m.durable, cut, tail);
    assert JournalOf(limits, m.durable) + [] == JournalOf(limits, m.durable);
    IndexExact(limits, m.durable);
    HistoryBounded(limits, m.durable);
    RunStep(limits, m.durable, envelope);
  }

  lemma CommitIsNext(limits: LimitMap, h: History, envelope: CommandEnvelope, commit: Commit)
    requires Accepted(limits, h) && Accepted(limits, h + [envelope])
    requires Prepared(ServiceAfter(limits, h), envelope) == Some(commit)
    ensures var next, earlier := ServiceAfter(limits, h + [envelope]), ServiceAfter(limits, h);
            && commit.frame == FrameOfLast(limits, h, envelope)
            && commit.prospective == next.snapshot
            && next.bytes == earlier.bytes + commit.frame
            && next.idempotency == earlier.idempotency[commit.batch.commandId :=
                                     IdempotencyRecord(commit.batch.canonicalRequest, commit.batch.result)]
            && next.nextSequence == Following(earlier.nextSequence)
  {
    hide Accepted, Prepared, ServiceAfter, AfterExecute, FrameOfLast;
    var v := ServiceAfter(limits, h);
    StepsComposeToExecute(v, envelope, Completes);
    StepsComposeToExecute(v, envelope, FailsAfter(0, AppendFailed));
    ServesItself(limits, h);
    ExtendingAppends(v, limits, h, envelope, Completes);
    CommitFrame(limits, h, envelope, commit);
  }

  lemma ServesItself(limits: LimitMap, h: History)
    requires Accepted(limits, h)
    ensures Serves(ServiceAfter(limits, h), limits, h, []) && ServiceAfter(limits, h).writable
  {
    hide JournalOf, Accepted, IndexOf, Batches;
    assert JournalOf(limits, h) + [] == JournalOf(limits, h);
  }

  lemma CommitFrame(limits: LimitMap, h: History, envelope: CommandEnvelope, commit: Commit)
    requires Accepted(limits, h) && Accepted(limits, h + [envelope])
    requires Prepared(ServiceAfter(limits, h), envelope) == Some(commit)
    ensures commit.frame == FrameOfLast(limits, h, envelope)
  {
    hide Evaluated, EncodedFrame, JournalOf, IndexOf, Accepted, Batches;
    BatchesStep(limits, h, envelope);
    FrameOfLastIs(limits, h, envelope);
    RequestAlwaysEncodes(envelope);
    HistoryBounded(limits, h);
  }

  lemma AppendStaysSane(limits: LimitMap, m: Machine, fault: AppendFault)
    requires Sane(limits, m) && m.phase.Appending?
    ensures Sane(limits, AfterAdvance(m, fault))
  {
    hide Accepted, Prepared, ServiceAfter, FrameOfLast, JournalOf;
    CommitIsNext(limits, m.durable, m.phase.envelope, m.phase.commit);
    var next := AfterAdvance(m, fault);
    if fault.Completes? {
      assert next.durable[..|next.durable| - 1] == m.durable;
      NextWritable(limits, m.durable);
      NextWritable(limits, m.durable + [m.phase.envelope]);
    } else {
      FailedAppendRests(limits, m.durable, m.phase.envelope, fault.written);
      assert Resting(limits, next.view, m.durable, Some(m.phase.envelope), Prefix(m.phase.commit.frame, fault.written));
    }
  }

  lemma NextWritable(limits: LimitMap, h: History)
    requires Accepted(limits, h)
    ensures ServiceAfter(limits, h).writable
  {
    hide JournalOf, Accepted, IndexOf, Batches;
  }

  lemma FailedAppendRests(limits: LimitMap, h: History, envelope: CommandEnvelope, written: nat)
    requires Accepted(limits, h) && Accepted(limits, h + [envelope])
    ensures var tail := Prefix(FrameOfLast(limits, h, envelope), written);
            var view := ServiceAfter(limits, h);
            Resting(limits, view.(bytes := view.bytes + tail, writable := false), h, Some(envelope), tail)
  {
    hide JournalOf, Accepted, IndexOf, Batches, FrameOfLast, Prefix;
  }

  lemma PublishStaysSane(limits: LimitMap, m: Machine, fault: AppendFault)
    requires Sane(limits, m) && m.phase.Publishing?
    ensures Sane(limits, AfterAdvance(m, fault))
  {
    hide Accepted, Prepared, ServiceAfter, Serves;
    ServesItself(limits, m.durable);
    NextWritable(limits, m.durable);
    NoTail(limits, m.durable);
    assert Resting(limits, ServiceAfter(limits, m.durable), m.durable, None, []);
    assert m.durable == m.durable[..|m.durable| - 1] + [m.phase.envelope];
    assert AfterAdvance(m, fault).view == ServiceAfter(limits, m.durable);
  }

  lemma AdvanceStaysSane(limits: LimitMap, m: Machine, fault: AppendFault)
    requires Sane(limits, m) && !m.phase.Idle?
    ensures Sane(limits, AfterAdvance(m, fault))
  {
    hide Accepted, Prepared, ServiceAfter, Serves;
    match m.phase
    case Appending(_, _, _) => AppendStaysSane(limits, m, fault);
    case Publishing(_, _, _) => PublishStaysSane(limits, m, fault);
    case Indexing(_, _, _) => assert Midway(AfterAdvance(m, fault), limits, m.durable[..|m.durable| - 1]);
    case Sequencing(_, _, _) => assert Midway(AfterAdvance(m, fault), limits, m.durable[..|m.durable| - 1]);
  }

  lemma MoveKeepsBehaving(limits: LimitMap, m: Machine, move: Move)
    requires Behaves(limits, m)
    ensures Behaves(limits, AfterMove(m, move))
  {
    hide Accepted, Coherent, Sane, AfterAdvance, Prepared;
    match move
    case Load => SaneIsCoherent(limits, m); LoadStaysSane(limits, m,
        m.loads + [Observation(m.view.snapshot, m.view.bytes, m.durable, m.published)]);
    case Lock(who, envelope) =>
      if m.phase.Idle? && Prepared(m.view, envelope).Some? { LockStaysSane(limits, m, who, envelope); }
    case Advance(who, fault) =>
      if !m.phase.Idle? && m.phase.thread == who {
        AdvanceStaysSane(limits, m, fault);
        AdvanceMovesForward(limits, m, fault);
      }
  }

  lemma LoadStaysSane(limits: LimitMap, m: Machine, loads: seq<Observation>)
    requires Sane(limits, m)
    ensures Sane(limits, m.(loads := loads))
  {
    hide Accepted, Prepared, ServiceAfter, Serves;
  }

  lemma LockStaysSane(limits: LimitMap, m: Machine, who: nat, envelope: CommandEnvelope)
    requires Sane(limits, m) && m.phase.Idle? && Prepared(m.view, envelope).Some?
    ensures Sane(limits, m.(phase := Appending(who, envelope, Prepared(m.view, envelope).value)))
  {
    hide Accepted, Prepared, ServiceAfter, Serves;
    PreparedExtends(limits, m, envelope);
  }

  lemma AdvanceMovesForward(limits: LimitMap, m: Machine, fault: AppendFault)
    requires !m.phase.Idle?
    ensures var next := AfterAdvance(m, fault);
            && m.published <= next.published && m.durable <= next.durable && m.view.bytes <= next.view.bytes
            && next.loads == m.loads
  {
  }

  ghost function MachineAfter(start: Machine, moves: seq<Move>): Machine
    decreases |moves|
  {
    if moves == [] then start else AfterMove(MachineAfter(start, moves[..|moves| - 1]), moves[|moves| - 1])
  }

  /** A service that has just been created over a history's journal, before any load. */
  ghost function Started(limits: LimitMap, h: History): Machine
    requires Accepted(limits, h)
  {
    Machine(ServiceAfter(limits, h), Idle, h, |h|, [])
  }

  /**
   In every interleaving, each load is the replay of the durable journal or of all but its last batch, and loads
   never go back.
   */
  lemma {:induction false} EveryInterleavingBehaves(limits: LimitMap, h: History, moves: seq<Move>)
    requires Accepted(limits, h)
    ensures Behaves(limits, MachineAfter(Started(limits, h), moves))
    decreases |moves|
  {
    hide Behaves, AfterMove, Accepted;
    if moves == [] {
      StartBehaves(limits, h);
    } else {
      EveryInterleavingBehaves(limits, h, moves[..|moves| - 1]);
      MoveKeepsBehaving(limits, MachineAfter(Started(limits, h), moves[..|moves| - 1]), moves[|moves| - 1]);
    }
  }

  lemma StartBehaves(limits: LimitMap, h: History)
    requires Accepted(limits, h)
    ensures Behaves(limits, Started(limits, h))
  {
    hide Accepted, ServiceAfter, JournalOf, CutTail;
    ServesItself(limits, h);
    NoTail(limits, h);
    assert Resting(limits, ServiceAfter(limits, h), h, None, []);
  }

  /** A coherent load is what replaying that prefix of the durable batches gives. */
  lemma LoadIsReplay(limits: LimitMap, o: Observation)
    requires Coherent(limits, o)
    ensures Replayed(limits, Batches(limits, o.durable)[..o.published]) == Success(o.snapshot)
  {
    hide Replayed, StateAfter, Accepted, Batches;
    BatchesPrefix(limits, o.durable, o.published);
    ReplayReproduces(limits, o.durable[..o.published]);
  }

  /** A scan of the disk finds the loaded commands, in front of at most one further command. */
  lemma LoadIsNearDisk(limits: LimitMap, o: Observation)
    requires Coherent(limits, o)
    ensures Scanned(o.bytes).Success?
    ensures o.published <= |Scanned(o.bytes).value.batches| <= o.published + 1
    ensures Replayed(limits, Scanned(o.bytes).value.batches[..o.published]) == Success(o.snapshot)
  {
    hide Replayed, Scanned, StateAfter, Accepted, Batches, Frames, TornTail, FrameOfLast, CutTail;
    var cut, tail :| OnDisk(limits, o, cut, tail);
    LoadIsReplay(limits, o);
    CutWholeOrTorn(limits, o.durable, cut, tail);
    if TornTail(tail) {
      HistoryEncodes(limits, o.durable);
      ScanExact(Batches(limits, o.durable), tail);
    } else {
      var whole := o.durable + [cut.value];
      JournalStep(limits, o.durable, cut.value);
      HistoryEncodes(limits, whole);
      EmptyIsTorn();
      ScanExact(Batches(limits, whole), []);
      assert o.bytes + [] == o.bytes;
      BatchesStep(limits, o.durable, cut.value);
      assert Batches(limits, whole)[..o.published] == Batches(limits, o.durable)[..o.published];
    }
  }

  lemma {:induction false} BatchesPrefix(limits: LimitMap, h: History, n: nat)
    requires Accepted(limits, h) && n <= |h| && Accepted(limits, h[..n])
    ensures Batches(limits, h)[..n] == Batches(limits, h[..n])
    decreases |h|
  {
    hide Evaluated, CanonicalBytes, RecordOf;
    if n == |h| {
      assert h[..n] == h;
    } else {
      var last := |h| - 1;
      assert h == h[..last] + [h[last]];
      assert h[..last][..n] == h[..n];
      BatchesStep(limits, h[..last], h[last]);
      BatchesPrefix(limits, h[..last], n);
    }
  }
}
