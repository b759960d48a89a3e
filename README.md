# CumulativeWriter, modelled in Dafny

`Bluebird::CumulativeWriter<T>` (source/main.cpp) is an append-only store of
fixed-size binary records kept in one file. A record is the `sizeof(T)` bytes of a
plain value. The file has no header and no checksum: record `i` sits at byte offsets
`i*R .. i*R+R`. When the store is constructed it opens the file and derives the
record count from the file size. It records an `Okay` load verdict when the size is
a whole number of records and `Corrupt` otherwise; the usual cause of `Corrupt` is a
torn last append. The store reads a record by offset, reads the last record, appends
a record at the end of the file and closes, updating a status field as it goes.

The model has three modules:

- `RecordFile` (record_file.dfy) covers the on-disk format. It has the count
  derivation (`CountAt`, `LoadStateAt`), the positional slice (`Slot`), decoding a
  file into its complete records (`Records`) and its inverse (`Concat`). Its lemmas
  cover the round trip, what an append does to the records, and what a reopen sees
  after whole and after torn appends. It also holds the source's own arithmetic on
  the raw stream position (`DeriveFromTellAsWritten`).
- `Store` (store.dfy) covers the store itself. It has the three enumerations of the
  source and the class `CumulativeWriter`. The class's fields are the file bytes,
  whether a stream is held, whether the stream has failed, the status, the previous
  status, the load state and the record count. Each method changes these fields as
  the C++ method does. `Valid()` is the class invariant. The load verdict matches
  the position measured at load. A store in a terminal status (Closing or Closed)
  holds no stream. As long as the stream has not failed, `recordCount * R <= |file|`.
  Once a verdict exists on an open, sound stream, the file holds exactly the counted
  records plus the torn tail measured at load, so it is aligned exactly when the
  verdict is Okay. `Contents()` is the sequence of records the store
  can read from a stream that has not failed. `OpenFileStream` and
  `CalculateRecordCount` are private in the source (source/main.cpp:110-166) and
  only the constructor calls them.
- `Durability` (durability.dfy) holds client programs that build writers and call
  the store. They state what a caller observes over a session and across a reopen
  on the same bytes, which is what the source's driver loop checks
  (source/main.cpp:334-384).

What the operating system does is a parameter of each method. `OpenOutcome`,
`SizeOutcome`, `ReadOutcome` and `WriteOutcome` say which stream call fails, and
after how many bytes. What a failure then does depends on the class constant
`failuresThrow`:

- `failuresThrow == false` is the code as written. The stream keeps the default
  exception mask, so a failing call only sets the stream's failure bit and returns.
  Nothing clears that bit, so every later seek, read and write on the stream does
  nothing. The code then carries on as if the call had worked. A failed append
  still counts the record and returns true. A failed read returns Okay with a
  record that is all zeros or only partly filled. A file that cannot be opened
  gives a stream in the failed state, whose position query reports -1. Only
  allocation failures (`StreamAllocThrows`, `RecordAllocThrows`) throw.
- `failuresThrow == true` is the behaviour the catch blocks were written for. Every
  failure throws and reaches its catch: ErrorOpeningStream with no stream,
  UnableToCalculateRecords, StreamReadError, or ErrorWriting with the record not
  counted. Both findings below compare the two.

Further behaviour of the code that the model keeps:

- When a read fails, the status stays `Reading` in the throwing case
  (`StreamReadError`, `BadMemoryAlloc`). Only a read that returns Okay restores the
  previous status.
- On `StreamReadError` the source returns the record it allocated, not a null
  record. That record holds the bytes read before the failure, padded with zeros
  (`PartialRecord`), or all zeros when the seek failed (`DefaultRecord`).
- `Write` on a store that holds no stream only copies the status into the previous
  status and returns false. It does not set an error status.
- `LoadLastRecord` on an empty store is correct only because `m_RecordCount - 1`
  wraps to `UINT_MAX`. The model writes that case out as an explicit guard.

## Model

| member | source | states |
|---|---|---|
| `RecordFile.CountAt` | source/main.cpp:145 | the derived count is the number of complete records: `count*R <= size < count*R + R` |
| `RecordFile.LoadStateAt` | source/main.cpp:147-157 | the verdict is never Unknown, and it is Okay exactly when the size is `count*R`, that is, no partial record trails |
| `RecordFile.CountUnique` | source/main.cpp:145 | any `c` with `c*R <= size < c*R + R` is the derived count |
| `RecordFile.Slot` | source/main.cpp:190-196 | a positional read takes exactly R bytes, starting at byte `i*R` |
| `RecordFile.Records` | source/main.cpp:145-157 | decoding a file yields exactly as many records as the derived count (the recursive calls' contracts carry the induction) |
| `RecordFile.RecordsAt` | source/main.cpp:183-196 | record `i` of the decoded file is the slice a positional read at offset `i` takes, and that slice lies inside the file |
| `RecordFile.PrefixRecords` | source/main.cpp:183-196 | the first `c*R` bytes decode to `c` records, the slots `0..c-1` |
| `RecordFile.SlotAfterAppend` | source/main.cpp:294-295 | appending bytes leaves every record already in the file unchanged |
| `RecordFile.AppendedSlot` | source/main.cpp:294-302 | after an append to a file of exactly `c` records, slot `c` is the appended record |
| `RecordFile.AppendRecords` | source/main.cpp:294-302 | one append keeps the first `c` records; on an aligned file the records become the old ones plus the new record |
| `RecordFile.ConcatLength` | source/main.cpp:294-295 | `n` appended records of R bytes occupy `n*R` bytes |
| `RecordFile.ConcatSlot` | source/main.cpp:190-196 | record `i` of an appended run is read back at offset `i` |
| `RecordFile.RecordsOfConcat` | source/main.cpp:142-157 | round trip: a file of appended records, followed by a torn tail shorter than R or not, decodes to exactly those records |
| `RecordFile.ReopenAfterAppends` | source/main.cpp:142-157 | after `k` more whole appends a reopen counts `k` more records and gives the same verdict |
| `RecordFile.TornAppendIsCorrupt` | source/main.cpp:294-309 | a torn append of `0 < k < R` bytes to an Okay file is reported Corrupt at the next open, with the count unchanged |
| `RecordFile.MisalignedAppend` | source/main.cpp:183-196 | on a Corrupt file with an `m`-byte tail, the slot the store next reads is the `m` torn bytes plus the first `R-m` bytes of the appended record |
| `RecordFile.TornTailSlot` | source/main.cpp:190-196 | appending to `c` whole records plus fewer than R torn bytes puts those bytes and the start of the new record in slot `c` |
| `RecordFile.DeriveFromTellAsWritten` | source/main.cpp:142-157 | the source's arithmetic on the signed stream position: a 32-bit unsigned cast before the division and a truncating remainder; the count fits in 32 bits, the verdict is never Unknown, and it is Okay exactly when the position is a multiple of R |
| `RecordFile.TellAsWrittenBelow4GiB` | source/main.cpp:142-157 | for a real position below 4 GiB the source's arithmetic equals `CountAt` and `LoadStateAt` |
| `RecordFile.FailedOpenReportsPhantomRecords` | source/main.cpp:142-157 | position -1 (the report of a stream in the failed state) yields `0xFFFFFFFF / R >= 1` records and, for R > 1, Corrupt |
| `RecordFile.RecordsOfWholePrefix` | source/main.cpp:142-145 | the complete records of a file are those of its first `count*R` bytes |
| `Store.DefaultRecord` | source/main.cpp:188 | the value-initialised record is R zero bytes |
| `Store.PartialRecord` | source/main.cpp:188-196 | the buffer after a read that stopped early: R bytes, starting with the bytes read, zeros after them |
| `Store.CumulativeWriter.Contents` | source/main.cpp:183-200 | on a stream that has not failed, the readable records number `recordCount` |
| `Store.CumulativeWriter.ContentsAt` | source/main.cpp:183-196 | readable record `i` lies inside the file and is the R-byte slice at `i*R` that a read at offset `i` takes |
| `Store.CumulativeWriter.constructor` | source/main.cpp:90-103 | an opened and measured file gives ReadyOpen, a count of the file size divided by R, the verdict from the size modulo R, readable records equal to the file's complete records, and alignment exactly when Okay; a failed allocation, or an unopenable file on a throwing stream, gives ErrorOpeningStream, no stream and no records; as written, an unopenable file or a failed position query gives ReadyOpen and the count and verdict of position -1; a failed rewind keeps the measured count and verdict, with UnableToCalculateRecords only on a throwing stream; a stream held after any outcome but a clean open is failed |
| `Store.CumulativeWriter.OpenFileStream` | source/main.cpp:112-134 | called only as the constructor calls it, before any verdict exists and outside the terminal statuses; does nothing when a stream is held; otherwise a refused open gives ErrorOpeningStream with no stream and nothing else changed, and any other outcome gives a stream, failed unless opened cleanly, with the count measured from the file or derived from position -1, and ReadyOpen unless a throwing measurement failed |
| `Store.CumulativeWriter.CalculateRecordCount` | source/main.cpp:136-166 | on a sound stream, a count of the file size divided by R and the verdict from the size modulo R, with Okay exactly when the file is aligned; a failed position query assigns nothing and gives UnableToCalculateRecords when it throws, and as written gives the count and verdict of position -1; a failed rewind keeps the measured values and gives UnableToCalculateRecords only when it throws; the failure bit is set exactly when a call failed |
| `Store.CumulativeWriter.ReadRecord` | source/main.cpp:173-223 | no stream gives StreamNotOpen and no record; `offset >= recordCount` gives OffsetOutOfRange and no record, with nothing changed; an allocation failure leaves status Reading with no record; on a sound stream a successful read returns Okay with the R bytes at `offset*R` (record `offset` of `Contents()`) and restores the status; any stream failure sets the failure bit and returns the zeroed record (seek failed or stream already failed) or the partly filled one (read stopped after `n` bytes), with StreamReadError and status Reading when it throws and, as written, Okay with the status restored; file, count, stream and verdict never change |
| `Store.CumulativeWriter.LoadLastRecord` | source/main.cpp:225-228 | reads offset `recordCount-1` with the same outcomes as ReadRecord; an empty store gives OffsetOutOfRange with nothing changed; on a sound stream success returns the last record of `Contents()` |
| `Store.CumulativeWriter.RecordCount` | source/main.cpp:230-233 | while the stream has not failed, the count never claims more bytes than the file has, and it is the number of readable records |
| `Store.CumulativeWriter.RecordSize` | source/main.cpp:235-238 | the record size, which is positive |
| `Store.CumulativeWriter.CurrentLoadState` | source/main.cpp:240-243 | Okay implies the position measured at load was a multiple of R; Corrupt implies it was not |
| `Store.CumulativeWriter.WasCorruptAtLoad` | source/main.cpp:245-248 | true exactly for a Corrupt verdict, which implies a partial record at load and, on an open sound stream, a file of the counted records plus a tail shorter than R |
| `Store.CumulativeWriter.WasOkayAtLoad` | source/main.cpp:250-253 | true exactly for an Okay verdict, which implies whole records at load, excludes WasCorruptAtLoad and, on an open sound stream, means the file holds exactly the counted records |
| `Store.CumulativeWriter.Closing` | source/main.cpp:255-258 | true exactly in the two terminal statuses, Closing and Closed, in which the store holds no stream |
| `Store.CumulativeWriter.Close` | source/main.cpp:260-278 | always ends Closed with no stream, leaving file, count, verdict, failure bit and previous status alone; on a closed store it changes nothing (idempotence) |
| `Store.CumulativeWriter.Write` | source/main.cpp:280-314 | refused with nothing changed while Closing(); refused without a stream; on a sound stream success gives the old file plus the record, a count one higher, the status restored and the old records untouched; when the verdict at load was Okay the file stays aligned and the records become the old ones plus the new record, and when it was Corrupt the new last record is the torn tail followed by the start of the new record; a failure sets the failure bit and leaves the old file plus the written prefix of the record (nothing on a stream already failed), and then either ErrorWriting with the old count when it throws or, as written, true with the count one higher and the status restored; on a throwing stream, true means the whole record was appended |
| `Durability.ReopenReturnsLastWrite` | source/main.cpp:334-384 | on an Okay file a write succeeds, reads back as the last record in the same session, and after Close and a reopen on the same bytes the count is one higher, the file is not Corrupt and the last record is the one written |
| `Durability.ReopenAfterTornWrite` | source/main.cpp:288-309 | on a throwing stream a write that fails after `0 < k < R` bytes returns false and keeps the count, and the next open reports Corrupt with that same count |
| `Durability.TornWriteReportedAsWritten` | source/main.cpp:288-309 | as written, a write that fails after `0 < k < R` bytes returns true and counts the record; the last record then reads back Okay but all zeros; a second write returns true; and the next open reports Corrupt with fewer records than the session counted |
| `Store.CumulativeWriter.AppendRecord` | source/main.cpp:294-304 | the successful append on a sound stream: the file gains the record at its end, the count grows by one, the status is restored, the old records stay, and the new last record is the record on an Okay store or the torn tail plus its start on a Corrupt one |
| `Durability.UseInTerminalStatus` | source/main.cpp:173-286 | on any store in a terminal status, reads and LoadLastRecord give StreamNotOpen and writes are refused |
| `Durability.WriteThenLoadLast` | source/main.cpp:225-314 | on an open, sound store that is not closing, a write succeeds and LoadLastRecord returns Okay with the record when the file was Okay at load, or with the torn tail followed by the start of the record when it was Corrupt |
| `Durability.UseAfterClose` | source/main.cpp:260-286 | after Close a read gives StreamNotOpen with no record, a write is refused, and a second Close leaves the store closed |
| `Durability.UseAfterFailedOpen` | source/main.cpp:112-134 | after a failed stream allocation, or an unopenable file on a throwing stream, the status is ErrorOpeningStream, the count is 0, reads and LoadLastRecord give StreamNotOpen, and writes are refused |
| `Durability.UnavailableFileAsWritten` | source/main.cpp:112-166 | as written, an unopenable file gives ReadyOpen with `0xFFFFFFFF / R >= 1` phantom records and a Corrupt verdict; record 0 reads back Okay and all zeros; and a write returns true without changing the file |
| `Durability.ThreeRecordSession` | source/main.cpp:173-314 | after three writes of 12-byte records to an empty file the count is 3, offset 1 holds the second record, the last record is the third, and offset 3 is out of range |

## Left out

- Locking: the `std::mutex` and `std::lock_guard` are left out. Each operation is one
  atomic step, so the model says nothing about interleavings or concurrent callers.
  The checks that the source makes outside the lock (`m_FileStream` in ReadRecord,
  `Closing()` in Write, `m_Status = Closing` in Close) are made in the same step.
- Durability plumbing: the stream `sync()`, the POSIX `sync()`, the `_WIN32` branch
  and the 50 ms sleep in Write are left out. Bytes in `file` count as on disk.
- iostreams: `std::unitbuf`, `tellg`/`seekg`/`seekp` and the `shared_ptr` ownership
  of the stream and of records are abstracted. The file is a byte sequence, and
  which call fails is an outcome parameter. The stream's eofbit, failbit and badbit
  are merged into one failure bit.
- Store.CumulativeWriter.CalculateRecordCount: a position query that fails on a
  stream whose failure bit is still clear is modelled as failing the stream. The
  standard lets `tellg` report -1 there without setting the bit; the model does not
  capture a stream that stays usable after that.
- Store.CumulativeWriter.ReadRecord: a read past the end of the file cannot happen in
  the model. On a sound stream every counted record lies inside the file, and the
  file changes only through this store. A file shortened by another process is not
  modelled.
- The path: `filename` is kept as a field. The bytes found at that path are the
  constructor's `disk` parameter.
- The console message of CalculateRecordCount (source/main.cpp:154) is output only.
- The destructor (source/main.cpp:105-108) calls Close. The client programs call
  Close explicitly.
- Store.CumulativeWriter.Close: the model always drops the stream. As written,
  `close()` cannot throw. On a throwing stream a failing `close()` would leave the
  stream held, and the model does not capture that.
- Integer widths: `recordCount`, the read offset and the product `offset * R` are
  unbounded naturals, so the model does not wrap the count past `UINT_MAX` or
  overflow the product. The 32-bit cast of the file size is modelled only in
  `DeriveFromTellAsWritten`. The class uses `|file| / R`, which agrees with the cast
  for files below 4 GiB (`TellAsWrittenBelow4GiB`).
- RecordSize: the source returns a member that does not exist (`m_RecordSize`); the
  model returns R.
- The status `PossibleCorruption` is declared but never assigned by the source.
- Bit layout: a record is an opaque sequence of R bytes. The `reinterpret_cast`
  layout of `Something` and `PrintSomething` are not part of this model.
- The driver `main()` (random payloads, the 10000-iteration loop, console input and
  output) is not part of this model. Its reopen check is stated by
  `Durability.ReopenReturnsLastWrite`.

## Findings

| source | as written | input that shows it | evidently intended | confidence | as-written member | corrected member |
|---|---|---|---|---|---|---|
| source/main.cpp:119-131, 142-157 | A file that cannot be opened or created does not make the `std::fstream` constructor throw: the stream is created in a failed state, so the `catch` at line 129 is never reached. CalculateRecordCount then reads position -1 from `tellg`, casts it to 0xFFFFFFFF and derives `0xFFFFFFFF / R` records with a Corrupt verdict, and the status becomes ReadyOpen. Reads of those records return Okay and all zeros, and writes return true and store nothing. | a path whose directory does not exist, with R = 12: 357913941 phantom records, Corrupt, ReadyOpen | ErrorOpeningStream, no usable stream, no records; reads give StreamNotOpen and writes are refused | medium (standard behaviour of a stream with the default exception mask; not executed) | `Durability.UnavailableFileAsWritten` | `Durability.UseAfterFailedOpen` |
| source/main.cpp:288-309 | The stream never has exceptions enabled, so a failing `seekp`, `write` or `sync` only sets the failure bit, and the `catch` at line 306 is never reached. Write then counts the record and returns true, whatever reached the file. The bit is never cleared, so every later write also returns true and stores nothing, and every later read returns Okay with a zeroed record. ReadRecord has the same gap (source/main.cpp:190-205). | a disk that fills after 5 bytes of a 12-byte record appended to an Okay file: Write returns true, RecordCount grows by one, LoadLastRecord returns Okay with 12 zero bytes, and the next open reports Corrupt with the old count | Write returns false with ErrorWriting and the old count, so the in-session count agrees with what the next open finds; a failed read gives StreamReadError | medium (standard behaviour of a stream with the default exception mask; not executed) | `Durability.TornWriteReportedAsWritten` | `Durability.ReopenAfterTornWrite` |
