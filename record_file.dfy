/** The on-disk format of a CumulativeWriter file: a flat run of R-byte records
    with no header, no footer and no checksum. A size that is not a multiple of R
    means the last append was torn. */
module RecordFile {

  newtype byte = b: int | 0 <= b < 256

  /** The largest `unsigned int`; the source's offsets and counts are 32-bit. */
  const UINT_MAX: nat := 0xFFFF_FFFF

  /** Verdict on the file computed once when the store opens it. */
  datatype LoadState = Unknown | Corrupt | Okay

  /** Number of complete records in a file of `size` bytes. */
  function CountAt(size: nat, R: nat): (count: nat)
    requires R > 0
    ensures count * R <= size < count * R + R
  {
    size / R
  }

  /** Load verdict for a file of `size` bytes: Okay exactly when the file holds
      whole records only. */
  function LoadStateAt(size: nat, R: nat): (s: LoadState)
    requires R > 0
    ensures s != LoadState.Unknown
    ensures s == LoadState.Okay <==> size == CountAt(size, R) * R
  {
    if size % R == 0 then LoadState.Okay else LoadState.Corrupt
  }

  /** A size splits into its complete records and a tail shorter than R, and the
      verdict is Okay exactly when that tail is empty. */
  lemma SizeSplit(size: nat, R: nat)
    requires R > 0
    ensures size == CountAt(size, R) * R + size % R
    ensures LoadStateAt(size, R) == LoadState.Okay <==> size % R == 0
  {
  }

  lemma MulMonotone(a: nat, b: nat, R: nat)
    requires a <= b
    ensures a * R <= b * R
  {
  }

  /** The two bounds of CountAt determine it. */
  lemma CountUnique(size: nat, R: nat, c: nat)
    requires R > 0 && c * R <= size < c * R + R
    ensures CountAt(size, R) == c
  {
    var q := CountAt(size, R);
    if q < c {
      MulMonotone(q + 1, c, R);
    } else if q > c {
      MulMonotone(c + 1, q, R);
    }
  }

  /** Record `i` of a file that holds at least `count` records lies inside it. */
  lemma SlotFits(i: nat, count: nat, R: nat, size: nat)
    requires i < count && count * R <= size
    ensures i * R + R <= size
  {
    MulMonotone(i + 1, count, R);
  }

  /** The R bytes of record `i`, at byte offsets `i*R .. i*R+R`. */
  function Slot(file: seq<byte>, R: nat, i: nat): (rec: seq<byte>)
    requires i * R + R <= |file|
    ensures |rec| == R
  {
    file[i * R .. i * R + R]
  }

  /** The complete records of a file, in order; a trailing partial record is dropped. */
  function Records(file: seq<byte>, R: nat): (rs: seq<seq<byte>>)
    requires R > 0
    ensures |rs| == CountAt(|file|, R)
    decreases |file|
  {
    if |file| < R then
      CountUnique(|file|, R, 0);
      []
    else
      var rest := Records(file[R..], R);
      CountUnique(|file|, R, |rest| + 1);
      [file[..R]] + rest
  }

  /** A file made of the given records, appended in order. */
  function Concat(rs: seq<seq<byte>>): seq<byte>
  {
    if rs == [] then [] else Concat(rs[..|rs| - 1]) + rs[|rs| - 1]
  }

  ghost predicate Uniform(rs: seq<seq<byte>>, R: nat)
  {
    forall k :: 0 <= k < |rs| ==> |rs[k]| == R
  }

  /** Decoding the file agrees with the positional slice the store reads. */
  lemma {:induction false} RecordsAt(file: seq<byte>, R: nat, i: nat)
    requires R > 0 && i < CountAt(|file|, R)
    ensures i * R + R <= |file|
    ensures Records(file, R)[i] == Slot(file, R, i)
  {
    SlotFits(i, CountAt(|file|, R), R, |file|);
    if i > 0 {
      RecordsAt(file[R..], R, i - 1);
      assert (i - 1) * R + R == i * R;
    }
  }

  /** The records of the first `c*R` bytes are the first `c` positional slots. */
  lemma PrefixRecords(file: seq<byte>, R: nat, c: nat)
    requires R > 0 && c * R <= |file|
    ensures |Records(file[..c * R], R)| == c
    ensures forall i :: 0 <= i < c ==>
      i * R + R <= |file| && Records(file[..c * R], R)[i] == Slot(file, R, i)
  {
    var prefix := file[..c * R];
    CountUnique(|prefix|, R, c);
    forall i | 0 <= i < c
      ensures i * R + R <= |file| && Records(prefix, R)[i] == Slot(file, R, i)
    {
      RecordsAt(prefix, R, i);
    }
  }

  /** Appending bytes leaves every record already in the file where it was. */
  lemma SlotAfterAppend(file: seq<byte>, extra: seq<byte>, R: nat, i: nat)
    requires i * R + R <= |file|
    ensures Slot(file + extra, R, i) == Slot(file, R, i)
  {
    assert (file + extra)[i * R .. i * R + R] == file[i * R .. i * R + R];
  }

  /** A record appended to a file of whole records is read back at the next index. */
  lemma AppendedSlot(file: seq<byte>, rec: seq<byte>, R: nat, c: nat)
    requires |file| == c * R && |rec| == R
    ensures Slot(file + rec, R, c) == rec
  {
    assert (file + rec)[c * R .. c * R + R] == rec;
  }

  /** Appending one record keeps the first `c` records; when the file held
      exactly `c` records, the new record becomes record `c`. */
  lemma AppendRecords(file: seq<byte>, rec: seq<byte>, R: nat, c: nat)
    requires R > 0 && |rec| == R && c * R <= |file|
    ensures (c + 1) * R <= |file + rec|
    ensures Records((file + rec)[..(c + 1) * R], R)[..c] == Records(file[..c * R], R)
    ensures |file| == c * R ==>
      Records((file + rec)[..(c + 1) * R], R) == Records(file[..c * R], R) + [rec]
  {
    var grown := file + rec;
    assert (c + 1) * R == c * R + R;
    PrefixRecords(file, R, c);
    PrefixRecords(grown, R, c + 1);
    forall i | 0 <= i < c
      ensures Records(grown[..(c + 1) * R], R)[i] == Records(file[..c * R], R)[i]
    {
      SlotAfterAppend(file, rec, R, i);
    }
    if |file| == c * R {
      AppendedSlot(file, rec, R, c);
    }
  }

  lemma {:induction false} ConcatLength(rs: seq<seq<byte>>, R: nat)
    requires Uniform(rs, R)
    ensures |Concat(rs)| == |rs| * R
  {
    if rs != [] {
      var init := rs[..|rs| - 1];
      assert Uniform(init, R);
      ConcatLength(init, R);
      assert |Concat(rs)| == |init| * R + R;
      assert (|init| + 1) * R == |init| * R + R;
    }
  }

  /** Record `i` of a concatenation sits at slot `i`. */
  lemma {:induction false} ConcatSlot(rs: seq<seq<byte>>, R: nat, i: nat)
    requires Uniform(rs, R) && i < |rs|
    ensures i * R + R <= |Concat(rs)|
    ensures Slot(Concat(rs), R, i) == rs[i]
  {
    var init := rs[..|rs| - 1];
    ConcatLength(init, R);
    ConcatLength(rs, R);
    SlotFits(i, |rs|, R, |Concat(rs)|);
    if i < |rs| - 1 {
      ConcatSlot(init, R, i);
      SlotAfterAppend(Concat(init), rs[|rs| - 1], R, i);
    } else {
      AppendedSlot(Concat(init), rs[|rs| - 1], R, i);
    }
  }

  /** Round trip: a file written as whole records, possibly followed by a torn
      partial record, decodes to exactly those records. */
  lemma RecordsOfConcat(rs: seq<seq<byte>>, tail: seq<byte>, R: nat)
    requires R > 0 && Uniform(rs, R) && |tail| < R
    ensures Records(Concat(rs) + tail, R) == rs
  {
    var file := Concat(rs) + tail;
    ConcatLength(rs, R);
    CountUnique(|file|, R, |rs|);
    forall i | 0 <= i < |rs|
      ensures Records(file, R)[i] == rs[i]
    {
      RecordsAt(file, R, i);
      ConcatSlot(rs, R, i);
      SlotAfterAppend(Concat(rs), tail, R, i);
    }
  }

  /** The complete records of a file are those of its whole-record prefix. */
  lemma RecordsOfWholePrefix(file: seq<byte>, R: nat)
    requires R > 0
    ensures CountAt(|file|, R) * R <= |file|
    ensures Records(file[..CountAt(|file|, R) * R], R) == Records(file, R)
  {
    var c := CountAt(|file|, R);
    PrefixRecords(file, R, c);
    forall i | 0 <= i < c
      ensures Records(file[..c * R], R)[i] == Records(file, R)[i]
    {
      RecordsAt(file, R, i);
    }
  }

  /** Reopening after `k` further whole-record appends finds `k` more records and
      the same load verdict. */
  lemma ReopenAfterAppends(size: nat, k: nat, R: nat)
    requires R > 0
    ensures CountAt(size + k * R, R) == CountAt(size, R) + k
    ensures LoadStateAt(size + k * R, R) == LoadStateAt(size, R)
  {
    var q := CountAt(size, R);
    assert (q + k) * R == q * R + k * R;
    CountUnique(size + k * R, R, q + k);
  }

  /** A torn append of `k` bytes (0 < k < R) to a file of whole records is seen
      as Corrupt at the next open, with the record count it had before. */
  lemma TornAppendIsCorrupt(size: nat, k: nat, R: nat)
    requires R > 0 && LoadStateAt(size, R) == LoadState.Okay && 0 < k < R
    ensures CountAt(size + k, R) == CountAt(size, R)
    ensures LoadStateAt(size + k, R) == LoadState.Corrupt
  {
    var q := CountAt(size, R);
    CountUnique(size + k, R, q);
  }

  /** On a file with a torn tail of m bytes, the next appended record is not
      where the store will read it: slot `CountAt` holds the m torn bytes followed
      by the first R - m bytes of the new record. */
  lemma MisalignedAppend(file: seq<byte>, rec: seq<byte>, R: nat)
    requires R > 0 && |rec| == R && LoadStateAt(|file|, R) == LoadState.Corrupt
    ensures var q := CountAt(|file|, R);
      q * R < |file| && q * R + R <= |file| + R &&
      Slot(file + rec, R, q) == file[q * R ..] + rec[.. R - (|file| - q * R)]
  {
    TornTailSlot(file, rec, R, CountAt(|file|, R));
  }

  /** Appending to a file that holds `c` whole records and then fewer than R
      torn bytes: slot `c` is the torn bytes followed by the start of the new record. */
  lemma TornTailSlot(file: seq<byte>, rec: seq<byte>, R: nat, c: nat)
    requires |rec| == R && c * R <= |file| < c * R + R
    ensures c * R + R <= |file + rec|
    ensures Slot(file + rec, R, c) == file[c * R ..] + rec[.. R - (|file| - c * R)]
  {
    var m := |file| - c * R;
    assert (file + rec)[c * R .. c * R + R] == file[c * R ..] + rec[.. R - m];
  }

  /** CalculateRecordCount as the source computes it from the stream position:
      the position is a signed 64-bit value, cast to a 32-bit unsigned before the
      division, while the remainder is C++'s truncating `%` on the signed value. */
  function DeriveFromTellAsWritten(pos: int, R: nat): (d: (nat, LoadState))
    requires -0x8000_0000_0000_0000 <= pos < 0x8000_0000_0000_0000
    requires 0 < R <= UINT_MAX
    ensures d.0 <= UINT_MAX
    ensures d.1 != LoadState.Unknown
    ensures d.1 == LoadState.Okay <==> pos % R == 0
  {
    var truncated: nat := pos % (UINT_MAX + 1);
    var remainder := if pos >= 0 then pos % R else -((-pos) % R);
    var count := CountAt(truncated, R);
    MulMonotone(1, R, count);
    NegatedMultiple(pos, R);
    (count, if remainder == 0 then LoadState.Okay else LoadState.Corrupt)
  }

  /** The truncating and the Euclidean remainder are zero together. */
  lemma NegatedMultiple(x: int, R: nat)
    requires R > 0
    ensures (-x) % R == 0 <==> x % R == 0
  {
    if x % R == 0 {
      assert -x == (-(x / R)) * R;
      MultipleHasNoRemainder(-(x / R), R);
    }
    if (-x) % R == 0 {
      assert x == (-((-x) / R)) * R;
      MultipleHasNoRemainder(-((-x) / R), R);
    }
  }

  lemma MultipleHasNoRemainder(m: int, R: nat)
    requires R > 0
    ensures (m * R) % R == 0
  {
    var x := m * R;
    var q, r := x / R, x % R;
    assert (m - q) * R == r;
    if m > q {
      MulMonotone(1, m - q, R);
    } else if m < q {
      MulMonotone(1, q - m, R);
    }
  }

  /** For a genuine position below 4 GiB the source's arithmetic is CountAt and LoadStateAt. */
  lemma TellAsWrittenBelow4GiB(pos: nat, R: nat)
    requires pos <= UINT_MAX && 0 < R <= UINT_MAX
    ensures DeriveFromTellAsWritten(pos, R) == (CountAt(pos, R), LoadStateAt(pos, R))
  {
    assert pos % (UINT_MAX + 1) == pos;
  }

  /** A stream that failed to open reports position -1; the source then derives
      0xFFFFFFFF / R phantom records and, for R > 1, a Corrupt verdict. */
  lemma FailedOpenReportsPhantomRecords(R: nat)
    requires 1 < R <= UINT_MAX
    ensures DeriveFromTellAsWritten(-1, R) == (UINT_MAX / R, LoadState.Corrupt)
    ensures UINT_MAX / R >= 1
  {
    assert -1 % (UINT_MAX + 1) == UINT_MAX;
    assert 1 % R == 1;
  }
}
