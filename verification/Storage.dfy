/**
 The journal store (journal_store.cpp).  A failed write leaves some prefix of what
 was written and closes the store to further writes until the next recovery.
 */
module Storage {
  import opened Wrappers
  import opened Values
  import opened Codec
  import opened Wire
  import opened JournalCodec

  datatype StoreError = OpenFailed | ReadFailed | AppendFailed | FlushFailed | TruncateFailed | Unavailable

  /** How the environment treats one append: it completes, or it fails after some bytes. */
  datatype AppendFault = Completes | FailsAfter(written: nat, error: StoreError)

  function Prefix(b: Bytes, n: nat): Bytes {
    if n <= |b| then b[..n] else b
  }

  datatype RecoveryError = StoreFailure(store: StoreError) | CodecFailure(codec: CodecError)

  class JournalStore {
    var bytes: Bytes
    var writable: bool

    constructor (initial: Bytes)
      ensures bytes == initial && writable
    {
      bytes := initial;
      writable := true;
    }

    method ReadAll(fault: Option<StoreError>) returns (r: Outcome<Bytes, StoreError>)
      ensures r == if fault.Some? then Failure(fault.value) else Success(bytes)
    {
      if fault.Some? {
        return Failure(fault.value);
      }
      return Success(bytes);
    }

    /** All of the frame, or a prefix of it and a closed store, or nothing because the store is closed. */
    method AppendAndFlush(frame: Bytes, fault: AppendFault) returns (r: Outcome<(), StoreError>)
      modifies this
      ensures !old(writable) ==> r == Failure(Unavailable) && bytes == old(bytes) && !writable
      ensures old(writable) && fault.Completes? ==> r == Success(()) && bytes == old(bytes) + frame && writable
      ensures old(writable) && fault.FailsAfter? ==>
          r == Failure(fault.error) && bytes == old(bytes) + Prefix(frame, fault.written) && !writable
    {
      if !writable {
        return Failure(Unavailable);
      }
      match fault
      case FailsAfter(written, error) =>
        bytes := bytes + Prefix(frame, written);
        writable := false;
        return Failure(error);
      case Completes =>
        bytes := bytes + frame;
        return Success(());
    }

    method Truncate(size: nat, fails: bool) returns (r: Outcome<(), StoreError>)
      modifies this
      ensures !old(writable) ==> r == Failure(Unavailable) && bytes == old(bytes) && !writable
      ensures old(writable) && fails ==> r == Failure(TruncateFailed) && bytes == old(bytes) && !writable
      ensures old(writable) && !fails && size <= |old(bytes)| ==>
          r == Success(()) && bytes == old(bytes)[..size] && writable
      ensures old(writable) && !fails && size > |old(bytes)| ==>
          r == Failure(TruncateFailed) && bytes == old(bytes) && writable
    {
      if !writable {
        return Failure(Unavailable);
      }
      if fails {
        writable := false;
        return Failure(TruncateFailed);
      }
      if size > |bytes| {
        return Failure(TruncateFailed);
      }
      bytes := bytes[..size];
      return Success(());
    }
  }

  /** A torn tail needs one truncation; nothing else writes. */
  ghost function ScanOutcome(bytes: Bytes, writable: bool, readFault: Option<StoreError>,
          truncateFails: bool): Outcome<Scan, RecoveryError>
  {
    if readFault.Some? then Failure(StoreFailure(readFault.value))
    else
      match Scanned(bytes)
      case Failure(e) => Failure(CodecFailure(e))
      case Success(scan) =>
        if scan.truncatedTail && !writable then Failure(StoreFailure(Unavailable))
        else if scan.truncatedTail && truncateFails then Failure(StoreFailure(TruncateFailed))
        else Success(scan)
  }

  /** Recovery keeps exactly the validated frames, or fails and leaves the bytes untouched. */
  method RecoverJournal(store: JournalStore, readFault: Option<StoreError>,
          truncateFails: bool) returns (r: Outcome<Scan, RecoveryError>)
    modifies store
    ensures r == ScanOutcome(old(store.bytes), old(store.writable), readFault, truncateFails)
    ensures store.bytes == if r.Success? then Prefix(old(store.bytes), r.value.lastValidOffset) else old(store.bytes)
    ensures r.Success? ==> store.writable == old(store.writable)
  {
    hide Scanned;
    var bytes := store.ReadAll(readFault);
    if bytes.Failure? {
      return Failure(StoreFailure(bytes.error));
    }
    var scan := ScanJournal(bytes.value);
    if scan.Failure? {
      return Failure(CodecFailure(scan.error));
    }
    ScanCanonical(store.bytes);
    if scan.value.truncatedTail {
      // Only bytes after the last validated frame are removed.
      var truncated := store.Truncate(scan.value.lastValidOffset, truncateFails);
      if truncated.Failure? {
        return Failure(StoreFailure(truncated.error));
      }
    }
    return Success(scan.value);
  }
}
