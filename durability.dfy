/** Whole-session properties of the store, stated as client programs: each builds
    fresh writers on a file, calls the store's methods and promises what a caller
    observes. A reopen is a new writer constructed on the bytes the last one left.
    `failuresThrow == false` is the store as written; `true` is a stream that
    reports failures by throwing, the behaviour the store's catch blocks expect. */
module Durability {
  import opened RecordFile
  import opened Store

  /** Write one record into a file of whole records, close, reopen: the new writer
      counts the record, sees an Okay file and reads the record back as the last one;
      the first writer reads it back too before closing. */
  method ReopenReturnsLastWrite(R: nat, failuresThrow: bool, disk: seq<byte>, record: seq<byte>)
    returns (written: bool, sameSession: Option<seq<byte>>, count: nat, corrupt: bool,
             code: RecordReadStatus, loaded: Option<seq<byte>>)
    requires 0 < R <= UINT_MAX && |record| == R && LoadStateAt(|disk|, R) == LoadState.Okay
    ensures written && sameSession == Some(record)
    ensures count == CountAt(|disk|, R) + 1 && !corrupt
    ensures code == RecordReadStatus.Okay && loaded == Some(record)
  {
    var w := new CumulativeWriter("store", R, failuresThrow, disk, Opened(SizeKnown));
    written := w.Write(record, WriteSucceeds);
    var _, last := w.LoadLastRecord(ReadSucceeds);
    sameSession := last;
    w.Close();
    ReopenAfterAppends(|disk|, 1, R);
    var reopened := new CumulativeWriter("store", R, failuresThrow, w.file, Opened(SizeKnown));
    count := reopened.RecordCount();
    corrupt := reopened.WasCorruptAtLoad();
    code, loaded := reopened.LoadLastRecord(ReadSucceeds);
    AppendedSlot(disk, record, R, count - 1);
  }

  /** On a stream that throws, a write that fails after `k` bytes (0 < k < R)
      reports failure and keeps the count; the next open sees a Corrupt file with
      the same number of records, so the writer and the file agree. */
  method ReopenAfterTornWrite(R: nat, disk: seq<byte>, record: seq<byte>, k: nat)
    returns (written: bool, sessionCount: nat, count: nat, corrupt: bool)
    requires 0 < R <= UINT_MAX && |record| == R && LoadStateAt(|disk|, R) == LoadState.Okay
    requires 0 < k < R
    ensures !written
    ensures sessionCount == count == CountAt(|disk|, R) && corrupt
  {
    var w := new CumulativeWriter("store", R, true, disk, Opened(SizeKnown));
    written := w.Write(record, WriteFails(k));
    sessionCount := w.recordCount;
    w.Close();
    TornAppendIsCorrupt(|disk|, k, R);
    var reopened := new CumulativeWriter("store", R, true, w.file, Opened(SizeKnown));
    count := reopened.RecordCount();
    corrupt := reopened.WasCorruptAtLoad();
  }

  /** The store as written: a write that fails after `k` bytes (0 < k < R) still
      returns true and counts the record, the last record then reads back as Okay
      but all zeros, a second write also returns true yet adds nothing, and the next
      open counts neither record. */
  method TornWriteReportedAsWritten(R: nat, disk: seq<byte>, record: seq<byte>, k: nat)
    returns (written: bool, sessionCount: nat, code: RecordReadStatus, last: Option<seq<byte>>,
             writtenAgain: bool, count: nat, corrupt: bool)
    requires 0 < R <= UINT_MAX && |record| == R && LoadStateAt(|disk|, R) == LoadState.Okay
    requires 0 < k < R
    ensures written && sessionCount == CountAt(|disk|, R) + 1
    ensures code == RecordReadStatus.Okay && last == Some(DefaultRecord(R))
    ensures writtenAgain
    ensures count == CountAt(|disk|, R) && count < sessionCount && corrupt
  {
    var w := new CumulativeWriter("store", R, false, disk, Opened(SizeKnown));
    written := w.Write(record, WriteFails(k));
    sessionCount := w.recordCount;
    code, last := w.LoadLastRecord(ReadSucceeds);
    writtenAgain := w.Write(record, WriteSucceeds);
    w.Close();
    TornAppendIsCorrupt(|disk|, k, R);
    var reopened := new CumulativeWriter("store", R, false, w.file, Opened(SizeKnown));
    count := reopened.RecordCount();
    corrupt := reopened.WasCorruptAtLoad();
  }

  /** After Close, reads report StreamNotOpen, writes are refused, and a second
      Close leaves the store closed. */
  method UseAfterClose(R: nat, failuresThrow: bool, disk: seq<byte>, record: seq<byte>, offset: nat)
    returns (code: RecordReadStatus, rec: Option<seq<byte>>, written: bool, closed: bool)
    requires 0 < R <= UINT_MAX && |record| == R
    ensures code == StreamNotOpen && rec == None
    ensures !written && closed
  {
    var w := new CumulativeWriter("store", R, failuresThrow, disk, Opened(SizeKnown));
    w.Close();
    code, rec := w.ReadRecord(offset, ReadSucceeds);
    written := w.Write(record, WriteSucceeds);
    w.Close();
    closed := w.Closing() && !w.isOpen;
  }

  /** Any store in a terminal status holds no stream: reads and LoadLastRecord
      report StreamNotOpen and writes are refused, however the status was reached. */
  method UseInTerminalStatus(w: CumulativeWriter, record: seq<byte>, offset: nat)
    returns (code: RecordReadStatus, lastCode: RecordReadStatus, written: bool)
    requires w.Valid() && w.Closing() && |record| == w.R
    modifies w
    ensures code == StreamNotOpen && lastCode == StreamNotOpen && !written
  {
    var rec, last;
    code, rec := w.ReadRecord(offset, ReadSucceeds);
    lastCode, last := w.LoadLastRecord(ReadSucceeds);
    written := w.Write(record, WriteSucceeds);
  }

  /** On an open store whose stream is sound and whose file was Okay at load, a
      write succeeds and the record reads back as the last one; on a store that
      was Corrupt at load the last record is instead the torn tail followed by the
      start of the new record. */
  method WriteThenLoadLast(w: CumulativeWriter, record: seq<byte>)
    returns (written: bool, code: RecordReadStatus, rec: Option<seq<byte>>)
    requires w.Valid() && w.isOpen && !w.streamFailed && !w.Closing() && |record| == w.R
    modifies w
    ensures written && code == RecordReadStatus.Okay
    ensures old(w.WasOkayAtLoad()) ==> rec == Some(record)
    ensures old(w.WasCorruptAtLoad()) ==>
      var c, n := old(w.recordCount), |old(w.file)|;
      c * w.R < n < c * w.R + w.R
      && rec == Some(old(w.file)[c * w.R ..] + record[.. w.R - (n - c * w.R)])
  {
    written := w.Write(record, WriteSucceeds);
    code, rec := w.LoadLastRecord(ReadSucceeds);
  }

  /** A store left without a stream (the stream object could not be allocated, or
      the file could not be opened on a stream that throws) reports
      ErrorOpeningStream, counts no records, answers reads with StreamNotOpen and
      refuses writes. */
  method UseAfterFailedOpen(R: nat, failuresThrow: bool, outcome: OpenOutcome, disk: seq<byte>,
                            record: seq<byte>, offset: nat)
    returns (status: Status, count: nat, code: RecordReadStatus, lastCode: RecordReadStatus,
             written: bool)
    requires 0 < R <= UINT_MAX && |record| == R
    requires outcome == StreamAllocThrows || (outcome == FileUnavailable && failuresThrow)
    ensures status == ErrorOpeningStream && count == 0
    ensures code == StreamNotOpen && lastCode == StreamNotOpen && !written
  {
    var w := new CumulativeWriter("store", R, failuresThrow, disk, outcome);
    status := w.status;
    count := w.RecordCount();
    var lastRec, rec;
    lastCode, lastRec := w.LoadLastRecord(ReadSucceeds);
    code, rec := w.ReadRecord(offset, ReadSucceeds);
    written := w.Write(record, WriteSucceeds);
  }

  /** The store as written on a file it cannot open: it reports ReadyOpen with
      0xFFFFFFFF / R phantom records and a Corrupt verdict, reads record 0 back as
      Okay and all zeros, and accepts a write that leaves the file unchanged. */
  method UnavailableFileAsWritten(R: nat, disk: seq<byte>, record: seq<byte>)
    returns (status: Status, count: nat, corrupt: bool, code: RecordReadStatus,
             rec: Option<seq<byte>>, written: bool, unchangedFile: bool)
    requires 1 < R <= UINT_MAX && |record| == R
    ensures status == ReadyOpen && count == UINT_MAX / R && count >= 1 && corrupt
    ensures code == RecordReadStatus.Okay && rec == Some(DefaultRecord(R))
    ensures written && unchangedFile
  {
    var w := new CumulativeWriter("store", R, false, disk, FileUnavailable);
    FailedOpenReportsPhantomRecords(R);
    status := w.status;
    count := w.RecordCount();
    corrupt := w.WasCorruptAtLoad();
    code, rec := w.ReadRecord(0, ReadSucceeds);
    written := w.Write(record, WriteSucceeds);
    unchangedFile := w.file == disk;
  }

  /** Three records written to an empty file: the count is 3, record 1 is the
      second one written, the last is the third, and offset 3 is out of range. */
  method ThreeRecordSession(failuresThrow: bool, a: seq<byte>, b: seq<byte>, c: seq<byte>)
    returns (count: nat, second: Option<seq<byte>>, last: Option<seq<byte>>, beyond: RecordReadStatus)
    requires |a| == 12 && |b| == 12 && |c| == 12
    ensures count == 3 && second == Some(b) && last == Some(c)
    ensures beyond == OffsetOutOfRange
  {
    var w := new CumulativeWriter("store", 12, failuresThrow, [], Opened(SizeKnown));
    var okA := w.Write(a, WriteSucceeds);
    var okB := w.Write(b, WriteSucceeds);
    var okC := w.Write(c, WriteSucceeds);
    count := w.RecordCount();
    var _, s := w.ReadRecord(1, ReadSucceeds);
    second := s;
    var _, l := w.LoadLastRecord(ReadSucceeds);
    last := l;
    var none;
    beyond, none := w.ReadRecord(3, ReadSucceeds);
  }
}
