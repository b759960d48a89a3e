/** Bluebird::CumulativeWriter<T>: an append-only store of R-byte records kept in
    one file. Every call runs as one atomic step (the store's mutex serialises them).
    Which stream call fails, and after how many bytes, is a parameter of each call;
    what a failure then does is decided by `failuresThrow`: the source's stream keeps
    the default exception mask, so a failure only sets the stream's failure bit and
    the code carries on, while the catch blocks are written for a stream that throws. */
module Store {
  import opened RecordFile

  datatype Option<T> = None | Some(value: T)

  /** Operational state of the store (CumulativeWriter::Status). */
  datatype Status =
    | Unknown
    | ReadyClosed
    | ReadyOpen
    | Writing
    | Reading
    | Closing
    | Closed
    | ErrorOpeningStream
    | ErrorWriting
    | PossibleCorruption
    | UnableToCalculateRecords

  /** Result code of a read (CumulativeWriter::RecordReadStatus). */
  datatype RecordReadStatus =
    | Unknown
    | OffsetOutOfRange
    | BadMemoryAlloc
    | StreamNotOpen
    | StreamReadError
    | Okay

  /** How CalculateRecordCount's stream calls turn out: the position query can
      fail before anything is assigned, or the rewind can fail after the count
      and the load verdict are assigned. */
  datatype SizeOutcome = SizeKnown | TellFails | RewindFails

  /** How creating and opening the stream turns out: allocating the stream object
      can throw `bad_alloc` (which always throws), or the operating system can
      refuse to open or create the file. */
  datatype OpenOutcome = Opened(size: SizeOutcome) | StreamAllocThrows | FileUnavailable

  /** How a positional read turns out: allocating the record can throw
      `bad_alloc`, the seek can fail, or the read can stop after `bytesRead`
      of the R bytes. */
  datatype ReadOutcome = ReadSucceeds | RecordAllocThrows | SeekFails | ReadFails(bytesRead: nat)

  /** How an append turns out: it can fail after `bytesWritten` of the R bytes
      reached the file (0 when the seek fails, R when only the sync fails). */
  datatype WriteOutcome = WriteSucceeds | WriteFails(bytesWritten: nat)

  /** A value-initialised record: what `new T()` holds before the read fills it. */
  function DefaultRecord(R: nat): (rec: seq<byte>)
    ensures |rec| == R && forall j :: 0 <= j < R ==> rec[j] == 0
  {
    seq(R, _ => 0)
  }

  /** The record buffer after a read that stopped once `bytes` had been copied in. */
  function PartialRecord(bytes: seq<byte>, R: nat): (rec: seq<byte>)
    requires |bytes| <= R
    ensures |rec| == R && rec[..|bytes|] == bytes
    ensures forall j :: |bytes| <= j < R ==> rec[j] == 0
  {
    bytes + DefaultRecord(R)[|bytes|..]
  }

  class CumulativeWriter {
    const filename: string
    /** c_RecordSize, that is sizeof(T). */
    const R: nat
    /** Whether a failing stream call throws `ios_base::failure`, the behaviour the
        catch blocks are written for. The source never enables exceptions on its
        stream, so `false` is the code as written. */
    const failuresThrow: bool
    /** The bytes of the backing file; they outlive the stream. */
    var file: seq<byte>
    /** Whether m_FileStream holds a stream. */
    var isOpen: bool
    /** Whether the stream's failbit or badbit is set. Nothing in the source clears
        it, so once set it stays set for the rest of the session, and every later
        seek, read or write on the stream does nothing. */
    var streamFailed: bool
    var status: Status
    var prevStatus: Status
    var loadState: LoadState
    var recordCount: nat
    /** The position CalculateRecordCount last derived the count from: the file
        size, or -1 when the stream could not report one. */
    ghost var positionAtLoad: int

    ghost predicate Valid()
      reads this
    {
      && 0 < R <= UINT_MAX
      && -1 <= positionAtLoad <= |file|
      && (loadState == LoadState.Okay ==> positionAtLoad % R == 0)
      && (loadState == LoadState.Corrupt ==> positionAtLoad % R != 0)
      && (!streamFailed ==> recordCount * R <= |file|)
      && ((status == Status.Closing || status == Closed) ==> !isOpen)
      && (isOpen && !streamFailed && loadState != LoadState.Unknown ==>
            |file| == recordCount * R + positionAtLoad % R)
    }

    /** No stream failure so far: every counted record is in the file. */
    ghost predicate Healthy()
      reads this
    {
      Valid() && !streamFailed
    }

    /** The file holds exactly the records the store counts, with no torn tail. */
    ghost predicate Aligned()
      reads this
    {
      |file| == recordCount * R
    }

    /** The records the store can read, in order. */
    ghost function Contents(): (rs: seq<seq<byte>>)
      reads this
      requires Healthy()
      ensures |rs| == recordCount
    {
      PrefixRecords(file, R, recordCount);
      Records(file[..recordCount * R], R)
    }

    /** Readable record `i` is the slice a positional read at offset `i` takes. */
    lemma ContentsAt(i: nat)
      requires Healthy() && i < recordCount
      ensures i * R + R <= |file| && Contents()[i] == Slot(file, R, i)
    {
      PrefixRecords(file, R, recordCount);
    }

    /** Whether opening leaves the store without a stream. */
    static predicate OpenRefused(outcome: OpenOutcome, failuresThrow: bool)
    {
      outcome == StreamAllocThrows || (outcome == FileUnavailable && failuresThrow)
    }

    /** Whether opening ends with a stream that cannot report its position, so
        that, as written, the count is derived from position -1. */
    static predicate PositionLost(outcome: OpenOutcome, failuresThrow: bool)
    {
      !failuresThrow && (outcome == FileUnavailable || outcome == Opened(TellFails))
    }

    /** Constructs the store on the file `disk` and opens it. */
    constructor (filename: string, R: nat, failuresThrow: bool, disk: seq<byte>, outcome: OpenOutcome)
      requires 0 < R <= UINT_MAX
      ensures Valid()
      ensures this.filename == filename && this.R == R && this.failuresThrow == failuresThrow
      ensures file == disk && prevStatus == Status.Unknown
      ensures isOpen <==> !OpenRefused(outcome, failuresThrow)
      ensures streamFailed <==> outcome != Opened(SizeKnown) && !OpenRefused(outcome, failuresThrow)
      ensures OpenRefused(outcome, failuresThrow) ==>
        status == ErrorOpeningStream && recordCount == 0 && loadState == LoadState.Unknown
      ensures outcome == Opened(SizeKnown) ==>
        && status == ReadyOpen
        && recordCount == CountAt(|disk|, R)
        && loadState == LoadStateAt(|disk|, R)
        && Contents() == Records(disk, R)
        && (Aligned() <==> loadState == LoadState.Okay)
      ensures outcome == Opened(TellFails) && failuresThrow ==>
        status == UnableToCalculateRecords && recordCount == 0 && loadState == LoadState.Unknown
      ensures outcome == Opened(RewindFails) ==>
        && status == (if failuresThrow then UnableToCalculateRecords else ReadyOpen)
        && recordCount == CountAt(|disk|, R)
        && loadState == LoadStateAt(|disk|, R)
      ensures PositionLost(outcome, failuresThrow) ==>
        status == ReadyOpen && (recordCount, loadState) == DeriveFromTellAsWritten(-1, R)
    {
      this.filename := filename;
      this.R := R;
      this.failuresThrow := failuresThrow;
      file := disk;
      isOpen := false;
      streamFailed := false;
      status := Status.Unknown;
      prevStatus := Status.Unknown;
      loadState := LoadState.Unknown;
      recordCount := 0;
      positionAtLoad := 0;
      new;
      status := ReadyClosed;
      OpenFileStream(outcome);
      if outcome == Opened(SizeKnown) {
        PrefixRecords(disk, R, recordCount);
        RecordsOfWholePrefix(disk, R);
      }
    }

    /** Opens the stream unless one is already held, then derives the record count.
        Only the constructor calls it, before any verdict exists. */
    method OpenFileStream(outcome: OpenOutcome)
      requires Valid() && !Closing() && loadState == LoadState.Unknown
      modifies this
      ensures Valid()
      ensures file == old(file) && prevStatus == old(prevStatus)
      ensures old(isOpen) ==> unchanged(this)
      ensures !old(isOpen) && OpenRefused(outcome, failuresThrow) ==>
        && !isOpen && status == ErrorOpeningStream && streamFailed == old(streamFailed)
        && recordCount == old(recordCount) && loadState == old(loadState)
        && positionAtLoad == old(positionAtLoad)
      ensures !old(isOpen) && !OpenRefused(outcome, failuresThrow) ==>
        && isOpen
        && (streamFailed <==> old(streamFailed) || outcome != Opened(SizeKnown))
      ensures !old(isOpen) && !old(streamFailed) && outcome.Opened? && outcome.size != TellFails ==>
        && recordCount == CountAt(|file|, R) && loadState == LoadStateAt(|file|, R)
        && positionAtLoad == |file|
      ensures !old(isOpen) && !old(streamFailed) && outcome == Opened(SizeKnown) ==>
        status == if old(status) == UnableToCalculateRecords then old(status) else ReadyOpen
      ensures !old(isOpen) && !old(streamFailed) && outcome == Opened(RewindFails) ==>
        status == if failuresThrow || old(status) == UnableToCalculateRecords
                  then UnableToCalculateRecords else ReadyOpen
      ensures !old(isOpen) && outcome == Opened(TellFails) && failuresThrow ==>
        && status == UnableToCalculateRecords
        && recordCount == old(recordCount) && loadState == old(loadState)
        && positionAtLoad == old(positionAtLoad)
      ensures !old(isOpen) && PositionLost(outcome, failuresThrow) ==>
        && status == (if old(status) == UnableToCalculateRecords then old(status) else ReadyOpen)
        && (recordCount, loadState) == DeriveFromTellAsWritten(-1, R)
        && positionAtLoad == -1
    {
      if !isOpen {
        match outcome
        case StreamAllocThrows =>
          status := ErrorOpeningStream;
        case FileUnavailable =>
          if failuresThrow {
            status := ErrorOpeningStream;
          } else {
            isOpen := true;
            streamFailed := true;
            CalculateRecordCount(SizeKnown);
            if status != UnableToCalculateRecords {
              status := ReadyOpen;
            }
          }
        case Opened(size) =>
          isOpen := true;
          CalculateRecordCount(size);
          if status != UnableToCalculateRecords {
            status := ReadyOpen;
          }
      }
    }

    /** Measures the open file: `|file| / R` whole records, Okay exactly when no
        bytes are left over. A stream that cannot report its position yields -1,
        which the code as written divides like a size. Only the constructor calls it. */
    method CalculateRecordCount(outcome: SizeOutcome)
      requires Valid() && !Closing() && loadState == LoadState.Unknown
      modifies this
      ensures Valid()
      ensures file == old(file) && isOpen == old(isOpen) && prevStatus == old(prevStatus)
      ensures !isOpen ==> unchanged(this)
      ensures isOpen && (old(streamFailed) || outcome == TellFails) ==>
        && streamFailed
        && (failuresThrow ==>
              status == UnableToCalculateRecords
              && recordCount == old(recordCount) && loadState == old(loadState)
              && positionAtLoad == old(positionAtLoad))
        && (!failuresThrow ==>
              status == old(status)
              && (recordCount, loadState) == DeriveFromTellAsWritten(-1, R)
              && positionAtLoad == -1)
      ensures isOpen && !old(streamFailed) && outcome != TellFails ==>
        && recordCount == CountAt(|file|, R)
        && loadState == LoadStateAt(|file|, R)
        && positionAtLoad == |file|
        && (loadState == LoadState.Okay <==> Aligned())
        && (streamFailed <==> outcome == RewindFails)
        && status == (if outcome == RewindFails && failuresThrow then UnableToCalculateRecords
                      else old(status))
    {
      if isOpen {
        if streamFailed || outcome == TellFails {
          streamFailed := true;
          if failuresThrow {
            status := UnableToCalculateRecords;
            return;
          }
          var derived := DeriveFromTellAsWritten(-1, R);
          recordCount, loadState := derived.0, derived.1;
          positionAtLoad := -1;
          return;
        }
        var size := |file|;
        recordCount := CountAt(size, R);
        positionAtLoad := size;
        loadState := LoadStateAt(size, R);
        SizeSplit(size, R);
        if outcome == RewindFails {
          streamFailed := true;
          if failuresThrow {
            status := UnableToCalculateRecords;
          }
        }
      }
    }

    /** Reads record `offset`: the R bytes at `offset*R .. offset*R+R`. */
    method ReadRecord(offset: nat, outcome: ReadOutcome)
      returns (code: RecordReadStatus, rec: Option<seq<byte>>)
      requires Valid()
      requires outcome.ReadFails? ==> outcome.bytesRead < R
      modifies this
      ensures Valid()
      ensures file == old(file) && recordCount == old(recordCount) && isOpen == old(isOpen)
      ensures loadState == old(loadState) && positionAtLoad == old(positionAtLoad)
      ensures !isOpen ==>
        && code == StreamNotOpen && rec == None
        && status == old(status) && prevStatus == old(prevStatus) && streamFailed == old(streamFailed)
      ensures isOpen && offset >= recordCount ==>
        && code == OffsetOutOfRange && rec == None
        && status == old(status) && prevStatus == old(prevStatus) && streamFailed == old(streamFailed)
      ensures isOpen && offset < recordCount ==> prevStatus == old(status)
      ensures isOpen && offset < recordCount && outcome == RecordAllocThrows ==>
        && code == BadMemoryAlloc && rec == None && status == Reading
        && streamFailed == old(streamFailed)
      ensures isOpen && offset < recordCount && !old(streamFailed) && outcome == ReadSucceeds ==>
        && code == RecordReadStatus.Okay
        && status == old(status)
        && !streamFailed
        && offset * R + R <= |file|
        && rec == Some(Slot(file, R, offset))
        && rec == Some(Contents()[offset])
      ensures isOpen && offset < recordCount && outcome != RecordAllocThrows
              && (old(streamFailed) || outcome != ReadSucceeds) ==>
        && streamFailed
        && (failuresThrow ==> code == StreamReadError && status == Reading)
        && (!failuresThrow ==> code == RecordReadStatus.Okay && status == old(status))
      ensures isOpen && offset < recordCount && outcome != RecordAllocThrows
              && (old(streamFailed) || outcome == SeekFails) ==>
        rec == Some(DefaultRecord(R))
      ensures isOpen && offset < recordCount && !old(streamFailed) && outcome.ReadFails? ==>
        && offset * R + R <= |file|
        && rec == Some(PartialRecord(file[offset * R .. offset * R + outcome.bytesRead], R))
    {
      if !isOpen {
        return StreamNotOpen, None;
      }
      if offset >= recordCount {
        return OffsetOutOfRange, None;
      }
      prevStatus := status;
      status := Reading;
      if outcome == RecordAllocThrows {
        return BadMemoryAlloc, None;
      }
      if !streamFailed && outcome == ReadSucceeds {
        ContentsAt(offset);
        rec := Some(file[offset * R .. offset * R + R]);
        status := prevStatus;
        return RecordReadStatus.Okay, rec;
      }
      if streamFailed || outcome == SeekFails {
        rec := Some(DefaultRecord(R));
      } else {
        SlotFits(offset, recordCount, R, |file|);
        rec := Some(PartialRecord(file[offset * R .. offset * R + outcome.bytesRead], R));
      }
      streamFailed := true;
      if failuresThrow {
        code := StreamReadError;
      } else {
        status := prevStatus;
        code := RecordReadStatus.Okay;
      }
    }

    /** Reads the last record. On an empty store the source's `m_RecordCount - 1`
        wraps to UINT_MAX, which is out of range; the guard is written out. */
    method LoadLastRecord(outcome: ReadOutcome)
      returns (code: RecordReadStatus, rec: Option<seq<byte>>)
      requires Valid()
      requires outcome.ReadFails? ==> outcome.bytesRead < R
      modifies this
      ensures Valid()
      ensures file == old(file) && recordCount == old(recordCount) && isOpen == old(isOpen)
      ensures loadState == old(loadState) && positionAtLoad == old(positionAtLoad)
      ensures !isOpen ==>
        && code == StreamNotOpen && rec == None
        && status == old(status) && prevStatus == old(prevStatus) && streamFailed == old(streamFailed)
      ensures isOpen && recordCount == 0 ==>
        && code == OffsetOutOfRange && rec == None
        && status == old(status) && prevStatus == old(prevStatus) && streamFailed == old(streamFailed)
      ensures isOpen && recordCount > 0 ==> prevStatus == old(status)
      ensures isOpen && recordCount > 0 && outcome == RecordAllocThrows ==>
        && code == BadMemoryAlloc && rec == None && status == Reading
        && streamFailed == old(streamFailed)
      ensures isOpen && recordCount > 0 && !old(streamFailed) && outcome == ReadSucceeds ==>
        && code == RecordReadStatus.Okay
        && status == old(status)
        && !streamFailed
        && rec == Some(Contents()[recordCount - 1])
      ensures isOpen && recordCount > 0 && outcome != RecordAllocThrows
              && (old(streamFailed) || outcome != ReadSucceeds) ==>
        && streamFailed
        && (failuresThrow ==> code == StreamReadError && status == Reading)
        && (!failuresThrow ==> code == RecordReadStatus.Okay && status == old(status))
      ensures isOpen && recordCount > 0 && outcome != RecordAllocThrows
              && (old(streamFailed) || outcome == SeekFails) ==>
        rec == Some(DefaultRecord(R))
      ensures isOpen && recordCount > 0 && !old(streamFailed) && outcome.ReadFails? ==>
        && (recordCount - 1) * R + R <= |file|
        && rec == Some(PartialRecord(
             file[(recordCount - 1) * R .. (recordCount - 1) * R + outcome.bytesRead], R))
    {
      var offset := if recordCount == 0 then UINT_MAX else recordCount - 1;
      code, rec := ReadRecord(offset, outcome);
    }

    function RecordCount(): (n: nat)
      reads this
      requires Valid()
      ensures !streamFailed ==> n * R <= |file| && n == |Contents()|
    {
      recordCount
    }

    /** The source returns an undeclared member here; the model returns R. */
    function RecordSize(): (r: nat)
      reads this
      requires Valid()
      ensures r > 0 && r == R
    {
      R
    }

    function CurrentLoadState(): (s: LoadState)
      reads this
      requires Valid()
      ensures s == LoadState.Okay ==> positionAtLoad % R == 0
      ensures s == LoadState.Corrupt ==> positionAtLoad % R != 0
    {
      loadState
    }

    function WasCorruptAtLoad(): (b: bool)
      reads this
      requires Valid()
      ensures b <==> loadState == LoadState.Corrupt
      ensures b ==> positionAtLoad % R != 0
      ensures b && isOpen && !streamFailed ==>
        recordCount * R < |file| < recordCount * R + R
    {
      loadState == LoadState.Corrupt
    }

    function WasOkayAtLoad(): (b: bool)
      reads this
      requires Valid()
      ensures b <==> loadState == LoadState.Okay
      ensures b ==> positionAtLoad % R == 0 && !WasCorruptAtLoad()
      ensures b && isOpen && !streamFailed ==> Aligned()
    {
      loadState == LoadState.Okay
    }

    /** Holds in the two terminal states, in which Write refuses; a store in them
        holds no stream, so reads report StreamNotOpen. */
    function Closing(): (b: bool)
      reads this
      requires Valid()
      ensures b <==> status == Status.Closing || status == Closed
      ensures b ==> !isOpen
    {
      status == Status.Closing || status == Closed
    }

    /** Closes the stream; calling it again changes nothing. */
    method Close()
      requires Valid()
      modifies this
      ensures Valid()
      ensures status == Closed && !isOpen
      ensures file == old(file) && recordCount == old(recordCount) && prevStatus == old(prevStatus)
      ensures loadState == old(loadState) && positionAtLoad == old(positionAtLoad)
      ensures streamFailed == old(streamFailed)
      ensures old(status) == Closed && !old(isOpen) ==> unchanged(this)
    {
      status := Status.Closing;
      if isOpen {
        isOpen := false;
      }
      status := Closed;
    }

    /** The successful append of source/main.cpp:294-304 on a sound stream: the
        whole record reaches the end of the file and is counted. */
    method AppendRecord(record: seq<byte>)
      requires Healthy() && isOpen && |record| == R && status == Writing
      requires prevStatus != Status.Closing && prevStatus != Closed
      modifies this
      ensures Healthy()
      ensures file == old(file) + record && recordCount == old(recordCount) + 1
      ensures status == old(prevStatus) && prevStatus == old(prevStatus)
      ensures isOpen && loadState == old(loadState) && positionAtLoad == old(positionAtLoad)
      ensures Contents()[.. old(recordCount)] == old(Contents())
      ensures old(loadState) == LoadState.Okay ==>
        Aligned() && Contents() == old(Contents()) + [record]
      ensures old(loadState) == LoadState.Corrupt ==>
        old(recordCount) * R < |old(file)| < old(recordCount) * R + R
        && Contents()[old(recordCount)]
           == old(file)[old(recordCount) * R ..] + record[.. R - (|old(file)| - old(recordCount) * R)]
    {
      ghost var count, tail := recordCount, positionAtLoad % R;
      ghost var before := Contents();
      assert before == Records(file[..count * R], R);
      assert (count + 1) * R == count * R + R;
      AppendRecords(file, record, R, count);
      if loadState == LoadState.Corrupt {
        assert |file| == count * R + tail && 0 < tail < R;
        TornTailSlot(file, record, R, count);
      }
      file := file + record;
      recordCount := recordCount + 1;
      status := prevStatus;
      assert Healthy();
      assert Contents() == Records(file[..(count + 1) * R], R);
      if loadState == LoadState.Corrupt {
        ContentsAt(count);
      }
    }

    /** Appends `record` at the end of the file. */
    method Write(record: seq<byte>, outcome: WriteOutcome) returns (ok: bool)
      requires Valid() && |record| == R
      requires outcome.WriteFails? ==> outcome.bytesWritten <= R
      modifies this
      ensures Valid()
      ensures isOpen == old(isOpen) && loadState == old(loadState)
      ensures positionAtLoad == old(positionAtLoad)
      ensures old(Closing()) ==> !ok && unchanged(this)
      ensures !old(Closing()) ==> prevStatus == old(status)
      ensures !old(Closing()) && !isOpen ==>
        && !ok && file == old(file) && recordCount == old(recordCount)
        && status == old(status) && streamFailed == old(streamFailed)
      ensures !old(Closing()) && isOpen && !old(streamFailed) && outcome == WriteSucceeds ==>
        && ok
        && file == old(file) + record
        && recordCount == old(recordCount) + 1
        && status == old(status)
        && !streamFailed
        && Contents()[.. old(recordCount)] == old(Contents())
        && (old(loadState) == LoadState.Okay ==>
              Aligned() && Contents() == old(Contents()) + [record])
        && (old(loadState) == LoadState.Corrupt ==>
              old(recordCount) * R < |old(file)| < old(recordCount) * R + R
              && Contents()[old(recordCount)]
                 == old(file)[old(recordCount) * R ..]
                    + record[.. R - (|old(file)| - old(recordCount) * R)])
      ensures !old(Closing()) && isOpen && (old(streamFailed) || outcome != WriteSucceeds) ==>
        && streamFailed
        && file == old(file) + (if old(streamFailed) then [] else record[.. outcome.bytesWritten])
        && (failuresThrow ==> !ok && recordCount == old(recordCount) && status == ErrorWriting)
        && (!failuresThrow ==> ok && recordCount == old(recordCount) + 1 && status == old(status))
      ensures failuresThrow && ok ==> file == old(file) + record
    {
      if Closing() {
        return false;
      }
      prevStatus := status;
      if !isOpen {
        return false;
      }
      status := Writing;
      if !streamFailed && outcome == WriteSucceeds {
        AppendRecord(record);
        return true;
      }
      if !streamFailed {
        file := file + record[.. outcome.bytesWritten];
      }
      streamFailed := true;
      if failuresThrow {
        status := ErrorWriting;
        ok := false;
      } else {
        recordCount := recordCount + 1;
        status := prevStatus;
        ok := true;
      }
    }
  }
}
