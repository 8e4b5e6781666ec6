/**
 The transactional command service (command_service.cpp): recovery on creation;
 then, for each command, idempotency, evaluation, durable append and publication.
 */
module Service {
  import opened Wrappers
  import opened Values
  import opened Limits
  import opened Ledger
  import opened StateMachine
  import opened Journal
  import opened Replay
  import opened Wire
  import opened Codec
  import opened JournalCodec
  import opened Evaluator
  import opened Requests
  import opened RequestCodec
  import opened Storage

  datatype IdempotencyRecord = IdempotencyRecord(canonicalRequest: Bytes, result: CommandResult)

  type Index = map<CommandId, IdempotencyRecord>

  datatype ServiceError =
    | MissingStore
    | RecoveryFailure(recovery: RecoveryError)
    | ReplayFailure(replay: ReplayError)
    | DuplicateJournalCommandId
    | SequenceExhausted
    | CommandEncodingFailure
    | InvalidCanonicalRequest(request: RequestError)
    | IdempotencyConflict
    | DomainRejected(state: StateError)
    | JournalEncodingFailure(codec: CodecError)
    | JournalUnavailable
    | InvariantViolation

  datatype CommandReceipt = CommandReceipt(result: CommandResult, idempotentReplay: bool)

  /** Everything a running service holds, including its store. */
  datatype ServiceView = ServiceView(
    bytes: Bytes, writable: bool, snapshot: State, idempotency: Index, nextSequence: uint64)

  // Recovery

  function BatchDefect(batch: CommandBatch): Option<RequestError> {
    match ValidatedRequest(batch.canonicalRequest, batch.commandId)
    case Failure(e) => Some(e)
    case Success(tag) => if |batch.events| == 1 && tag != EventTag(batch.events[0]) then Some(CommandEventMismatch)
        else None
  }

  /** The first stored request that does not fit its batch. */
  function FirstDefect(batches: seq<CommandBatch>): Option<RequestError> {
    if batches == [] then None
    else if BatchDefect(batches[0]).Some? then BatchDefect(batches[0])
    else FirstDefect(batches[1..])
  }

  /** The idempotency index of a journal, or none if a command id repeats. */
  function IndexOf(batches: seq<CommandBatch>): Option<Index> {
    if batches == [] then Some(map[])
    else
      var last := batches[|batches| - 1];
      match IndexOf(batches[..|batches| - 1])
      case None => None
      case Some(index) =>
        if last.commandId in index then None
        else Some(index[last.commandId := IdempotencyRecord(last.canonicalRequest, last.result)])
  }

  function Following(sequence: uint64): uint64 {
    if sequence == UINT64_MAX then 0 else sequence + 1
  }

  function NextAfter(batches: seq<CommandBatch>): uint64 {
    if batches == [] then 1 else Following(batches[|batches| - 1].sequence)
  }

  datatype Recovery = Recovery(view: ServiceView, tornTail: bool)

  /** What creation makes of the journal's bytes when reads and truncation work. */
  ghost function Recovered(bytes: Bytes, limits: LimitMap): Outcome<Recovery, ServiceError> {
    match Scanned(bytes)
    case Failure(e) => Failure(RecoveryFailure(CodecFailure(e)))
    case Success(scan) => RecoveredFrom(Prefix(bytes, scan.lastValidOffset), scan, limits)
  }

  ghost function RecoveredFrom(kept: Bytes, scan: Scan, limits: LimitMap): Outcome<Recovery, ServiceError> {
    match FirstDefect(scan.batches)
    case Some(e) => Failure(InvalidCanonicalRequest(e))
    case None =>
      var state :- Replayed(limits, scan.batches).MapFailure(e => ReplayFailure(e));
      match IndexOf(scan.batches)
      case None => Failure(DuplicateJournalCommandId)
      case Some(index) => Success(Recovery(ServiceView(kept, true, state, index, NextAfter(scan.batches)),
          scan.truncatedTail))
  }

  /** What creation makes of a store under faults: the recovered service, keeping the store's own latch. */
  ghost function Created(bytes: Bytes, writable: bool, limits: LimitMap, readFault: Option<StoreError>,
          truncateFails: bool): Outcome<Recovery, ServiceError>
  {
    match ScanOutcome(bytes, writable, readFault, truncateFails)
    case Failure(e) => Failure(RecoveryFailure(e))
    case Success(_) =>
      var recovery :- Recovered(bytes, limits);
      Success(recovery.(view := recovery.view.(writable := writable)))
  }

  // Execution

  /** The batch, frame and next view of a command that evaluates; what is appended is decided by the store. */
  ghost function AfterExecute(v: ServiceView, envelope: CommandEnvelope, fault: AppendFault): (ServiceView,
          Outcome<CommandReceipt, ServiceError>)
  {
    match EncodedRequest(envelope)
    case Failure(_) => (v, Failure(CommandEncodingFailure))
    case Success(canonical) =>
      if envelope.commandId in v.idempotency then
        var existing := v.idempotency[envelope.commandId];
        if existing.canonicalRequest == canonical then (v, Success(CommandReceipt(existing.result, true)))
        else (v, Failure(IdempotencyConflict))
      else if !v.writable then (v, Failure(JournalUnavailable))
      else if v.nextSequence == 0 then (v, Failure(SequenceExhausted))
      else
        match Evaluated(v.snapshot, envelope.command)
        case Failure(DomainRejected(e)) => (v, Failure(ServiceError.DomainRejected(e)))
        case Failure(InvariantViolation) => (v, Failure(ServiceError.InvariantViolation))
        case Success(ev) => AfterEvaluation(v, envelope, canonical, ev, fault)
  }

  ghost function AfterEvaluation(v: ServiceView, envelope: CommandEnvelope, canonical: Bytes, ev: Evaluation,
          fault: AppendFault):
    (ServiceView, Outcome<CommandReceipt, ServiceError>)
  {
    match CreateBatch(v.nextSequence, envelope.commandId, canonical, [ev.event], ev.result)
    case Failure(_) => (v, Failure(ServiceError.InvariantViolation))
    case Success(batch) =>
      match EncodedFrame(batch)
      case Failure(e) => (v, Failure(JournalEncodingFailure(e)))
      case Success(frame) => AfterStoreAppend(v, batch, frame, ev.prospective, fault)
  }

  /** The append commits the command; only then is the new state published. */
  ghost function AfterStoreAppend(v: ServiceView, batch: CommandBatch, frame: Bytes, prospective: State,
          fault: AppendFault):
    (ServiceView, Outcome<CommandReceipt, ServiceError>)
  {
    match fault
    case FailsAfter(written, _) => (v.(bytes := v.bytes + Prefix(frame, written), writable := false),
        Failure(JournalUnavailable))
    case Completes =>
      (ServiceView(v.bytes + frame, v.writable, prospective,
                   v.idempotency[batch.commandId := IdempotencyRecord(batch.canonicalRequest, batch.result)],
                   Following(v.nextSequence)),
       Success(CommandReceipt(batch.result, false)))
  }

  class CommandService {
    const store: JournalStore
    var snapshot: State
    var idempotency: Index
    var nextSequence: uint64
    const recoveredTornTail: bool

    ghost function View(): ServiceView
      reads this, store
    {
      ServiceView(store.bytes, store.writable, snapshot, idempotency, nextSequence)
    }

    constructor (store: JournalStore, initialSnapshot: State, idempotency: Index, nextSequence: uint64,
        recoveredTornTail: bool)
      ensures this.store == store && this.recoveredTornTail == recoveredTornTail
      ensures View() == ServiceView(store.bytes, store.writable, initialSnapshot, idempotency, nextSequence)
    {
      this.store := store;
      this.snapshot := initialSnapshot;
      this.idempotency := idempotency;
      this.nextSequence := nextSequence;
      this.recoveredTornTail := recoveredTornTail;
    }

    /** One command under the service lock: the new view and the reply are those of AfterExecute. */
    method Execute(envelope: CommandEnvelope, fault: AppendFault) returns (r: Outcome<CommandReceipt, ServiceError>)
      modifies this, store
      ensures View() == AfterExecute(old(View()), envelope, fault).0
      ensures r == AfterExecute(old(View()), envelope, fault).1
    {
      hide EncodedRequest, Evaluated, AfterEvaluation;
      var canonical := CanonicalCommandBytes(envelope);
      if canonical.Failure? {
        return Failure(CommandEncodingFailure);
      }
      if envelope.commandId in idempotency {
        var existing := idempotency[envelope.commandId];
        if existing.canonicalRequest == canonical.value {
          return Success(CommandReceipt(existing.result, true));
        }
        return Failure(IdempotencyConflict);
      }
      if !store.writable {
        return Failure(JournalUnavailable);
      }
      if nextSequence == 0 {
        return Failure(SequenceExhausted);
      }
      var evaluated := EvaluateCommand(snapshot, envelope.command);
      if evaluated.Failure? {
        match evaluated.error
        case DomainRejected(e) => return Failure(ServiceError.DomainRejected(e));
        case InvariantViolation => return Failure(ServiceError.InvariantViolation);
      }
      r := Commit(envelope, canonical.value, evaluated.value, fault);
    }

    method Commit(envelope: CommandEnvelope, canonical: Bytes, ev: Evaluation,
            fault: AppendFault) returns (r: Outcome<CommandReceipt, ServiceError>)
      requires store.writable && envelope.commandId !in idempotency
      modifies this, store
      ensures View() == AfterEvaluation(old(View()), envelope, canonical, ev, fault).0
      ensures r == AfterEvaluation(old(View()), envelope, canonical, ev, fault).1
    {
      hide EncodedFrame;
      var batch := CreateBatch(nextSequence, envelope.commandId, canonical, [ev.event], ev.result);
      if batch.Failure? {
        return Failure(ServiceError.InvariantViolation);
      }
      var frame := EncodeFrame(batch.value);
      if frame.Failure? {
        return Failure(JournalEncodingFailure(frame.error));
      }
      // Everything published after the commit point is prepared before it.
      var publishedSnapshot := ev.prospective;
      var receipt := CommandReceipt(ev.result, false);
      var pendingRecord := IdempotencyRecord(canonical, ev.result);
      var followingSequence := Following(nextSequence);
      var appended := store.AppendAndFlush(frame.value, fault);
      if appended.Failure? {
        return Failure(JournalUnavailable);
      }
      idempotency := Emplace(idempotency, envelope.commandId, pendingRecord);
      nextSequence := followingSequence;
      snapshot := publishedSnapshot;
      return Success(receipt);
    }

    method Snapshot() returns (s: State)
      ensures s == snapshot
    {
      return snapshot;
    }
  }

  method CheckRequests(batches: seq<CommandBatch>) returns (defect: Option<RequestError>)
    ensures defect == FirstDefect(batches)
  {
    hide ValidatedRequest;
    for i := 0 to |batches|
      invariant FirstDefect(batches) == FirstDefect(batches[i..])
    {
      var batch := batches[i];
      var validated := ValidateCanonicalCommandRequest(batch.canonicalRequest, batch.commandId);
      if validated.Failure? {
        return Some(validated.error);
      }
      if |batch.events| == 1 && validated.value != EventTag(batch.events[0]) {
        return Some(CommandEventMismatch);
      }
      assert batches[i..][1..] == batches[i + 1..];
    }
    return None;
  }

  lemma {:induction false} RepeatedIdStays(batches: seq<CommandBatch>, i: nat)
    requires i <= |batches| && IndexOf(batches[..i]).None?
    ensures IndexOf(batches).None?
    decreases |batches| - i
  {
    if i < |batches| {
      assert batches[..i + 1][..i] == batches[..i];
      RepeatedIdStays(batches, i + 1);
    } else {
      assert batches[..i] == batches;
    }
  }

  method BuildIndex(batches: seq<CommandBatch>) returns (r: Option<Index>)
    ensures r == IndexOf(batches)
  {
    var index: Index := map[];
    for i := 0 to |batches|
      invariant IndexOf(batches[..i]) == Some(index)
    {
      assert batches[..i + 1][..i] == batches[..i];
      if batches[i].commandId in index {
        RepeatedIdStays(batches, i + 1);
        return None;
      }
      index := index[batches[i].commandId := IdempotencyRecord(batches[i].canonicalRequest, batches[i].result)];
    }
    assert batches[..|batches|] == batches;
    return Some(index);
  }

  /** Creation gives exactly the recovered service over its store, or the first error. */
  method Create(store: JournalStore?, initialLimits: LimitMap, readFault: Option<StoreError>, truncateFails: bool)
    returns (r: Outcome<CommandService, ServiceError>)
    modifies if store == null then {} else {store}
    ensures store == null ==> r == Failure(MissingStore)
    ensures store != null ==>
              match Created(old(store.bytes), old(store.writable), initialLimits, readFault, truncateFails)
              case Failure(e) => r == Failure(e)
              case Success(recovery) =>
                && r.Success? && fresh(r.value) && r.value.store == store
                && r.value.View() == recovery.view && r.value.recoveredTornTail == recovery.tornTail
  {
    hide Scanned, Replayed, FirstDefect, IndexOf;
    if store == null {
      return Failure(MissingStore);
    }
    var recovered := RecoverJournal(store, readFault, truncateFails);
    if recovered.Failure? {
      return Failure(RecoveryFailure(recovered.error));
    }
    var batches := recovered.value.batches;
    var defect := CheckRequests(batches);
    if defect.Some? {
      return Failure(InvalidCanonicalRequest(defect.value));
    }
    var replayed := ReplayBatches(initialLimits, batches);
    if replayed.Failure? {
      return Failure(ReplayFailure(replayed.error));
    }
    var index := BuildIndex(batches);
    if index.None? {
      return Failure(DuplicateJournalCommandId);
    }
    var nextSequence := NextAfter(batches);
    var service := new CommandService(store, replayed.value, index.value, nextSequence, recovered.value.truncatedTail);
    return Success(service);
  }
}
