/** Inputs on which src/evb/CompassFile.cpp as written departs from what it
    evidently means to do, each set against the corrected definition the rest
    of the model uses, and the files on which the two agree. */
module Findings {
  import opened Bytes
  import opened Results
  import opened Layout
  import opened Records
  import opened CompassFile
  import opened DecoderProofs
  import opened Arith
  import HitSource

  /** A header word that switches every optional field off: 16-byte records. */
  function NoOptions(word: u16): HeaderFlags {
    HeaderFlags(false, false, false, false)
  }

  // ---------------------------------------------------------------------
  // Open on a path that cannot be opened (lines 45-67)

  /** As written, a path that cannot be opened reaches the hit count with
      m_hitsize still 0 and divides by it; corrected, the file is closed and
      already at end of stream, which is what GetBinaryFiles tests for. */
  lemma UnopenableDividesByZero(name: string, bufsize: nat, flagsOf: u16 -> HeaderFlags)
    requires bufsize > 0
    ensures OpenAsWritten(name, Unopenable, bufsize, flagsOf) == Failed(DivisionByZero)
    ensures var r := Open(name, Unopenable, bufsize, flagsOf);
      r.Ok? && !r.value.open && r.value.eof && r.value.nHits == 0
  {
  }

  // ---------------------------------------------------------------------
  // The hit count includes the header (line 63)

  /** As written, the file size divided by the record size includes the two
      header bytes: a 32-byte file holds one 16-byte record after its header
      but is counted as two hits. Corrected, the count is the one record the
      file holds. */
  lemma HeaderCountedAsWritten()
    ensures var img := Contents(Zeros(32));
      && OpenAsWritten("run", img, 1, NoOptions).Ok?
      && OpenAsWritten("run", img, 1, NoOptions).value.nHits == 2
      && Open("run", img, 1, NoOptions).Ok?
      && Open("run", img, 1, NoOptions).value.nHits == 1
      && |ImageHits(img, NoOptions, None)| == 1
  {
    var img := Contents(Zeros(32));
    assert ReadHeader(Zeros(32), NoOptions) == Ok(Header(NoOptions(0), 16));
    assert WholeRecords(32, 16) == 2 by { WholeRecordsIsQuotient(32, 16); }
    assert WholeRecords(30, 16) == 1 by { WholeRecordsIsQuotient(30, 16); }
    OpenHits("run", img, 1, NoOptions, None);
  }

  /** As written, the count is one more than the whole records after the
      header exactly when the bytes past the last whole record, together with
      the two header bytes, fill a record; otherwise the two counts agree.
      A waveform file never reaches the count as written (see below). */
  lemma HitCountOverBy(name: string, data: seq<byte>, bufsize: nat, flagsOf: u16 -> HeaderFlags)
    requires bufsize > 0 && |data| != HeaderSize && ReadHeader(data, flagsOf).Ok?
    ensures Open(name, Contents(data), bufsize, flagsOf).Ok?
    ensures ReadHeader(data, flagsOf).value.flags.waves ==>
      OpenAsWritten(name, Contents(data), bufsize, flagsOf) == Failed(InvalidDelete)
    ensures !ReadHeader(data, flagsOf).value.flags.waves ==>
      && OpenAsWritten(name, Contents(data), bufsize, flagsOf).Ok?
      && var h := ReadHeader(data, flagsOf).value.hitSize;
         var after := |data| - HeaderSize;
         OpenAsWritten(name, Contents(data), bufsize, flagsOf).value.nHits ==
           Open(name, Contents(data), bufsize, flagsOf).value.nHits
             + (if after - WholeRecordBytes(after, h) + HeaderSize >= h then 1 else 0)
  {
    CountWithExtra(|data| - HeaderSize, HeaderSize, ReadHeader(data, flagsOf).value.hitSize);
  }

  /** A file of nothing but whole records after its header and no waveforms
      is opened alike as written and corrected, hit count included. */
  lemma WholeRecordFileCountedAlike(name: string, data: seq<byte>, bufsize: nat, flagsOf: u16 -> HeaderFlags)
    requires bufsize > 0 && |data| != HeaderSize && ReadHeader(data, flagsOf).Ok?
    requires WholeRecordsOnly(|data| - HeaderSize, ReadHeader(data, flagsOf).value.hitSize)
    ensures !ReadHeader(data, flagsOf).value.flags.waves ==>
      OpenAsWritten(name, Contents(data), bufsize, flagsOf) == Open(name, Contents(data), bufsize, flagsOf)
    ensures ReadHeader(data, flagsOf).value.flags.waves ==>
      OpenAsWritten(name, Contents(data), bufsize, flagsOf) == Failed(InvalidDelete)
  {
    HitCountOverBy(name, data, bufsize, flagsOf);
  }

  // ---------------------------------------------------------------------
  // The waveform probe frees a moved pointer (lines 100-107)

  /** A header word that switches on waveforms only: 21 bytes before the
      samples. */
  function WavesOnly(word: u16): HeaderFlags {
    HeaderFlags(false, false, false, true)
  }

  /** As written, every waveform file whose header and first record can be
      read ends in undefined behaviour: the probe pointer has moved by a
      non-zero offset when it is freed. Corrected, the file opens. */
  lemma WaveformProbeFreesMovedPointer(name: string, data: seq<byte>, bufsize: nat, flagsOf: u16 -> HeaderFlags)
    requires bufsize > 0 && |data| != HeaderSize && ReadHeader(data, flagsOf).Ok?
    requires ReadHeader(data, flagsOf).value.flags.waves
    ensures PreSampleSize(ReadHeader(data, flagsOf).value.flags) - 4 > 0
    ensures ReadHeaderAsWritten(data, flagsOf) == Failed(InvalidDelete)
    ensures OpenAsWritten(name, Contents(data), bufsize, flagsOf) == Failed(InvalidDelete)
    ensures Open(name, Contents(data), bufsize, flagsOf).Ok? && Open(name, Contents(data), bufsize, flagsOf).value.open
  {
  }

  /** The smallest such file: a header and one 21-byte waveform record with
      no samples. */
  lemma WaveformFileFaultsAsWritten()
    ensures OpenAsWritten("w", Contents(Zeros(23)), 1, WavesOnly) == Failed(InvalidDelete)
    ensures var d := Open("w", Contents(Zeros(23)), 1, WavesOnly);
      d.Ok? && d.value.open && d.value.hitSize == 21 && d.value.nHits == 1
  {
    assert ReadHeader(Zeros(23), WavesOnly) == Ok(Header(WavesOnly(0), 21));
    assert WholeRecords(21, 21) == 1 by { WholeRecordsIsQuotient(21, 21); }
    WaveformProbeFreesMovedPointer("w", Zeros(23), 1, WavesOnly);
  }

  // ---------------------------------------------------------------------
  // End of stream raised one read late (lines 141-152)

  /** A file of one 16-byte record after its header, read one record at a time. */
  function OneRecordFile(): FileImage {
    Contents(Zeros(18))
  }

  /** As written, a refill that finds the stream with nothing left reads no
      bytes and sets the stream's eof bit, but does not raise end of stream:
      the decoder goes on to decode the stale buffer into a hit the file does
      not hold. Corrected, the same call reports end of stream. */
  lemma StaleHitAsWritten(d: Decoder, smap: Option<ShiftMap>)
    requires Valid(d) && d.open && !d.eof && !d.streamEof && d.pos == |d.data|
    requires NeedsBuffer(d)
    ensures var r := GetNextHitAsWritten(d, smap);
      r.Ok? && !r.value.atEof && r.value.file.end == 0 < r.value.file.iter
  {
    var b := GetNextBufferAsWritten(d);
    assert b.end == 0 && b.iter == 0 && !b.eof && |b.buffer| == |d.buffer|;
    assert ParseAtCursor(b, smap).Ok?;
    assert GetNextHitAsWritten(d, smap) == DecodeUnlessEof(b, smap);
  }

  /** Corrected, the refill that finds nothing left reports end of stream. */
  lemma EmptyRefillCorrected(d: Decoder, smap: Option<ShiftMap>)
    requires Valid(d) && d.open && !d.eof && !d.streamEof && d.pos == |d.data|
    requires NeedsBuffer(d)
    ensures var r := GetNextHit(d, smap);
      r.Ok? && r.value.atEof
  {
    var b := GetNextBuffer(d);
    assert b.end == 0 && b.eof;
  }

  /** After such a stale hit the cursor is past the empty window, so the next
      call parses without refilling, and with one record's worth of buffer it
      reads past the buffer's end. */
  lemma OverrunAfterStaleHit(d: Decoder, smap: Option<ShiftMap>)
    requires Valid(d) && d.open && !d.eof && d.end < d.iter
    requires d.iter + PreSampleSize(d.flags) > |d.buffer|
    ensures GetNextHitAsWritten(d, smap) == Failed(BufferOverrun)
  {
  }

  /** The state after the first GetNextHit on the one-record file, as written
      and corrected alike: its record delivered, the stream drained but its eof
      bit not yet set. */
  ghost predicate AfterFirstHit(d: Decoder) {
    && Valid(d) && d.open && !d.eof && !d.streamEof && d.pos == |d.data| == 18
    && d.iter == d.end == |d.buffer| == 16 && d.flags == NoOptions(0)
  }

  lemma FirstHitAsWritten()
    ensures var d0 := Open("run", OneRecordFile(), 1, NoOptions);
      && d0.Ok?
      && var s1 := GetNextHitAsWritten(d0.value, None);
      && s1.Ok? && !s1.value.atEof && AfterFirstHit(s1.value.file)
  {
    assert ReadHeader(Zeros(18), NoOptions) == Ok(Header(NoOptions(0), 16));
    assert WholeRecords(16, 16) == 1 by { WholeRecordsIsQuotient(16, 16); }
    var d0 := Open("run", OneRecordFile(), 1, NoOptions).value;
    assert d0.pos == 2 && |d0.buffer| == 16 && !d0.eof && !d0.streamEof;
  }

  lemma FirstHitCorrected()
    ensures var d0 := Open("run", OneRecordFile(), 1, NoOptions);
      && d0.Ok?
      && var s1 := GetNextHit(d0.value, None);
      && s1.Ok? && !s1.value.atEof && AfterFirstHit(s1.value.file)
  {
    assert ReadHeader(Zeros(18), NoOptions) == Ok(Header(NoOptions(0), 16));
    assert WholeRecords(16, 16) == 1 by { WholeRecordsIsQuotient(16, 16); }
    var d0 := Open("run", OneRecordFile(), 1, NoOptions).value;
    assert d0.pos == 2 && |d0.buffer| == 16 && !d0.eof && !d0.streamEof;
    var b := GetNextBuffer(d0);
    assert WholeRecordBytes(16, 16) == 16;
    assert b.end == 16 && b.iter == 0 && b.pos == 18 && !b.streamEof && !b.eof;
    assert GetNextHit(d0, None) == DecodeUnlessEof(b, None);
  }

  /** The one-record file, as written: the second GetNextHit delivers a second
      hit although the file holds one record, and the third reads past the
      buffer. Corrected, the second call reports end of stream. */
  lemma OneRecordFileDeliversTwo()
    ensures |ImageHits(OneRecordFile(), NoOptions, None)| == 1
    ensures var d0 := Open("run", OneRecordFile(), 1, NoOptions);
      && d0.Ok?
      && var s1 := GetNextHitAsWritten(d0.value, None);
      && s1.Ok? && !s1.value.atEof
      && var s2 := GetNextHitAsWritten(s1.value.file, None);
      && s2.Ok? && !s2.value.atEof
      && GetNextHitAsWritten(s2.value.file, None) == Failed(BufferOverrun)
    ensures var d0 := Open("run", OneRecordFile(), 1, NoOptions);
      && d0.Ok?
      && var s1 := GetNextHit(d0.value, None);
      && s1.Ok? && !s1.value.atEof
      && var s2 := GetNextHit(s1.value.file, None);
      && s2.Ok? && s2.value.atEof
  {
    assert ReadHeader(Zeros(18), NoOptions) == Ok(Header(NoOptions(0), 16));
    assert WholeRecords(16, 16) == 1 by { WholeRecordsIsQuotient(16, 16); }
    OpenHits("run", OneRecordFile(), 1, NoOptions, None);
    FirstHitAsWritten();
    FirstHitCorrected();
    var d0 := Open("run", OneRecordFile(), 1, NoOptions).value;
    var w1 := GetNextHitAsWritten(d0, None).value.file;
    StaleHitAsWritten(w1, None);
    var w2 := GetNextHitAsWritten(w1, None).value.file;
    OverrunAfterStaleHit(w2, None);
    var c1 := GetNextHit(d0, None).value.file;
    EmptyRefillCorrected(c1, None);
  }

  // ---------------------------------------------------------------------
  // A truncated last record (lines 141-152)

  /** A file holding one 16-byte record and then 5 bytes of a second, read
      two records at a time. */
  function TruncatedTailFile(): FileImage {
    Contents(Zeros(23))
  }

  lemma TruncatedFirstHitAsWritten()
    ensures var d0 := Open("run", TruncatedTailFile(), 2, NoOptions);
      && d0.Ok?
      && var s1 := GetNextHitAsWritten(d0.value, None);
      && s1.Ok? && !s1.value.atEof
      && var d := s1.value.file;
      && Valid(d) && d.open && !d.eof && d.streamEof && d.flags == NoOptions(0)
      && d.iter == 16 && d.end == 21 && |d.buffer| == 32
  {
    assert ReadHeader(Zeros(23), NoOptions) == Ok(Header(NoOptions(0), 16));
    assert WholeRecords(21, 16) == 1 by { WholeRecordsIsQuotient(21, 16); }
    var d0 := Open("run", TruncatedTailFile(), 2, NoOptions).value;
    assert d0.pos == 2 && |d0.buffer| == 32 && !d0.eof && !d0.streamEof;
    var b := GetNextBufferAsWritten(d0);
    assert b.end == 21 && b.iter == 0 && b.streamEof && !b.eof;
  }

  lemma TruncatedFirstHitCorrected()
    ensures var d0 := Open("run", TruncatedTailFile(), 2, NoOptions);
      && d0.Ok?
      && var s1 := GetNextHit(d0.value, None);
      && s1.Ok? && !s1.value.atEof
      && var d := s1.value.file;
      && Valid(d) && d.open && !d.eof && d.streamEof && d.iter == d.end
  {
    assert ReadHeader(Zeros(23), NoOptions) == Ok(Header(NoOptions(0), 16));
    assert WholeRecords(21, 16) == 1 by { WholeRecordsIsQuotient(21, 16); }
    var d0 := Open("run", TruncatedTailFile(), 2, NoOptions).value;
    assert d0.pos == 2 && |d0.buffer| == 32 && !d0.eof && !d0.streamEof;
    var b := GetNextBuffer(d0);
    assert WholeRecordBytes(21, 16) == 16 by { assert WholeRecords(21, 16) == 1; }
    assert b.end == 16 && b.iter == 0 && b.streamEof && !b.eof;
  }

  /** With the cursor inside a window shorter than a record, the next call
      decodes the window's bytes and the leftover buffer bytes after them as one
      more hit, and leaves the cursor past the window. */
  lemma PartialRecordAsWritten(d: Decoder, smap: Option<ShiftMap>)
    requires Valid(d) && d.open && !d.eof && d.iter < d.end < d.iter + PreSampleSize(d.flags)
    requires d.iter + PreSampleSize(d.flags) <= |d.buffer|
    ensures var r := GetNextHitAsWritten(d, smap);
      r.Ok? && !r.value.atEof && r.value.file.end < r.value.file.iter
  {
    assert GetNextHitAsWritten(d, smap) == DecodeUnlessEof(d, smap);
  }

  lemma TruncatedTailAsWritten()
    ensures var d0 := Open("run", TruncatedTailFile(), 2, NoOptions);
      && d0.Ok?
      && var s1 := GetNextHitAsWritten(d0.value, None);
      && s1.Ok? && !s1.value.atEof
      && var s2 := GetNextHitAsWritten(s1.value.file, None);
      && s2.Ok? && !s2.value.atEof
      && GetNextHitAsWritten(s2.value.file, None) == Failed(BufferOverrun)
  {
    TruncatedFirstHitAsWritten();
    var d0 := Open("run", TruncatedTailFile(), 2, NoOptions).value;
    var w1 := GetNextHitAsWritten(d0, None).value.file;
    PartialRecordAsWritten(w1, None);
    var w2 := GetNextHitAsWritten(w1, None).value.file;
    OverrunAfterStaleHit(w2, None);
  }

  lemma TruncatedTailCorrected()
    ensures var d0 := Open("run", TruncatedTailFile(), 2, NoOptions);
      && d0.Ok?
      && var s1 := GetNextHit(d0.value, None);
      && s1.Ok? && !s1.value.atEof
      && var s2 := GetNextHit(s1.value.file, None);
      && s2.Ok? && s2.value.atEof
  {
    TruncatedFirstHitCorrected();
  }

  /** The truncated-tail file, as written: the second GetNextHit delivers a
      hit made of the 5 trailing bytes and leftover buffer bytes although the
      file holds one record, and the third reads past the buffer. Corrected,
      the refill drops the partial record and the second call reports end of
      stream. */
  lemma TruncatedTailDeliversTwo()
    ensures |ImageHits(TruncatedTailFile(), NoOptions, None)| == 1
    ensures var d0 := Open("run", TruncatedTailFile(), 2, NoOptions);
      && d0.Ok?
      && var s1 := GetNextHitAsWritten(d0.value, None);
      && s1.Ok? && !s1.value.atEof
      && var s2 := GetNextHitAsWritten(s1.value.file, None);
      && s2.Ok? && !s2.value.atEof
      && GetNextHitAsWritten(s2.value.file, None) == Failed(BufferOverrun)
    ensures var d0 := Open("run", TruncatedTailFile(), 2, NoOptions);
      && d0.Ok?
      && var s1 := GetNextHit(d0.value, None);
      && s1.Ok? && !s1.value.atEof
      && var s2 := GetNextHit(s1.value.file, None);
      && s2.Ok? && s2.value.atEof
  {
    assert ReadHeader(Zeros(23), NoOptions) == Ok(Header(NoOptions(0), 16));
    assert WholeRecords(21, 16) == 1 by { WholeRecordsIsQuotient(21, 16); }
    OpenHits("run", TruncatedTailFile(), 2, NoOptions, None);
    TruncatedTailAsWritten();
    TruncatedTailCorrected();
  }

  // ---------------------------------------------------------------------
  // Where the code as written is right

  /** The two refills agree when the read returns a whole, non-zero number of
      records: a full buffer, or a short read that ends on a record boundary.
      GetNextHit as written is then the corrected GetNextHit. */
  lemma AsWrittenAgrees(d: Decoder, smap: Option<ShiftMap>)
    requires Valid(d)
    requires d.open && !d.eof && NeedsBuffer(d) && !d.streamEof ==>
      |d.data| - d.pos >= |d.buffer| || (|d.data| - d.pos > 0 && WholeRecordsOnly(|d.data| - d.pos, d.hitSize))
    ensures GetNextHitAsWritten(d, smap) == GetNextHit(d, smap)
  {
    if d.open && !d.eof && NeedsBuffer(d) && !d.streamEof {
      var r := ReadBuffer(d);
      if |d.data| - d.pos >= |d.buffer| {
        assert r.end == |d.buffer|;
      } else {
        assert r.end == |d.data| - d.pos;
      }
      assert WholeRecordBytes(r.end, d.hitSize) == r.end > 0;
      assert GetNextBuffer(d) == GetNextBufferAsWritten(d);
    }
  }

  /** Every refill so far has been a full buffer: the stream stands a whole
      number of buffers past the header until its eof bit is set. */
  ghost predicate RefillsAligned(d: Decoder) {
    d.open && !d.eof && !d.streamEof ==>
      HeaderSize <= d.pos && |d.buffer| > 0 && WholeRecordsOnly(d.pos - HeaderSize, |d.buffer|)
  }

  /** A file of whole records after its header whose byte count is not a
      whole number of buffers: its last refill is short but not empty. */
  ghost predicate EndsMidBuffer(d: Decoder) {
    && |d.data| >= HeaderSize && d.hitSize > 0 && |d.buffer| > 0
    && WholeRecordsOnly(|d.data| - HeaderSize, d.hitSize)
    && !WholeRecordsOnly(|d.data| - HeaderSize, |d.buffer|)
  }

  /** What is left after a whole number of buffers of such a file is a
      non-empty run of whole records. */
  lemma RemainderIsWholeRecords(a: nat, p: nat, b: nat, h: nat)
    requires h > 0 && b > 0 && p <= a
    requires WholeRecordsOnly(a, h) && WholeRecordsOnly(b, h)
    requires WholeRecordsOnly(p, b) && !WholeRecordsOnly(a, b)
    ensures a - p > 0 && WholeRecordsOnly(a - p, h)
  {
    WholeOfWhole(WholeRecords(p, b), b, h);
    WholeDifference(a, p, h);
  }

  /** On a file that ends mid-buffer, an aligned refill reads a full buffer or
      a non-empty run of whole records. */
  lemma AlignedRefillIsWhole(d: Decoder)
    requires Valid(d) && RefillsAligned(d) && d.open && !d.eof && !d.streamEof && EndsMidBuffer(d)
    ensures |d.data| - d.pos >= |d.buffer| || (|d.data| - d.pos > 0 && WholeRecordsOnly(|d.data| - d.pos, d.hitSize))
  {
    RemainderIsWholeRecords(|d.data| - HeaderSize, d.pos - HeaderSize, |d.buffer|, d.hitSize);
  }

  /** A refill that leaves the stream's eof bit clear read a full buffer. */
  lemma RefillKeepsAligned(d: Decoder)
    requires Valid(d) && RefillsAligned(d) && d.open && !d.eof
    ensures RefillsAligned(GetNextBuffer(d))
  {
    if !d.streamEof {
      var r := GetNextBuffer(d);
      if !r.streamEof {
        OneMoreRun(d.pos - HeaderSize, |d.buffer|);
        assert r.pos - HeaderSize == d.pos - HeaderSize + |d.buffer|;
      }
    }
  }

  lemma StepKeepsAligned(d: Decoder, smap: Option<ShiftMap>)
    requires Valid(d) && RefillsAligned(d)
    ensures GetNextHit(d, smap).Ok? ==> RefillsAligned(GetNextHit(d, smap).value.file)
  {
    if d.open && !d.eof {
      var d1 := if NeedsBuffer(d) then GetNextBuffer(d) else d;
      if NeedsBuffer(d) {
        RefillKeepsAligned(d);
      }
      assert GetNextHit(d, smap) == DecodeUnlessEof(d1, smap);
      DecodeKeepsStream(d1, smap);
    }
  }

  /** Decoding moves the cursor only: the stream and its bits stay put. */
  lemma DecodeKeepsStream(d: Decoder, smap: Option<ShiftMap>)
    requires Valid(d) && d.open && RefillsAligned(d)
    ensures DecodeUnlessEof(d, smap).Ok? ==> RefillsAligned(DecodeUnlessEof(d, smap).value.file)
  {
    if !d.eof && ParseAtCursor(d, smap).Ok? {
      var e := ParseAtCursor(d, smap).value;
      assert e.pos == d.pos && e.streamEof == d.streamEof && e.buffer == d.buffer && !e.eof;
    }
  }

  /** On a file that ends mid-buffer, GetNextHit as written is the corrected
      GetNextHit at every call, and refills stay aligned. */
  lemma AlignedRefillAgrees(d: Decoder, smap: Option<ShiftMap>)
    requires Valid(d) && RefillsAligned(d) && (d.open && !d.eof ==> EndsMidBuffer(d))
    ensures GetNextHitAsWritten(d, smap) == GetNextHit(d, smap)
    ensures GetNextHit(d, smap).Ok? ==> RefillsAligned(GetNextHit(d, smap).value.file)
  {
    if d.open && !d.eof && NeedsBuffer(d) && !d.streamEof {
      AlignedRefillIsWhole(d);
    }
    AsWrittenAgrees(d, smap);
    StepKeepsAligned(d, smap);
  }

  /** Any call result equal to GetNextHit's is one step of the abstract source. */
  lemma StepOfSource(d: Decoder, hits: seq<Hit>, k: nat, smap: Option<ShiftMap>, r: Result<Step>)
    requires Tracks(d, hits, k) && hits == FileHits(d, smap) && r == GetNextHit(d, smap)
    ensures r.Ok?
    ensures
      var k' := if r.value.atEof then k else k + 1;
      && Tracks(r.value.file, hits, k')
      && Abs(r.value.file, hits, k') == HitSource.NextHit(Abs(d, hits, k))
      && SameFile(d, r.value.file)
  {
    GetNextHitStep(d, hits, k, smap);
  }

  /** GetNextHit as written, on a file that ends mid-buffer, steps the
      abstract source of the file's hits exactly as the corrected one does. */
  lemma AsWrittenStepOnFileEndingMidBuffer(d: Decoder, hits: seq<Hit>, k: nat, smap: Option<ShiftMap>)
    requires Tracks(d, hits, k) && hits == FileHits(d, smap)
    requires RefillsAligned(d) && (d.open && !d.eof ==> EndsMidBuffer(d))
    ensures GetNextHitAsWritten(d, smap).Ok?
    ensures
      var st := GetNextHitAsWritten(d, smap).value;
      var k' := if st.atEof then k else k + 1;
      && Tracks(st.file, hits, k')
      && Abs(st.file, hits, k') == HitSource.NextHit(Abs(d, hits, k))
      && RefillsAligned(st.file)
      && (st.file.open && !st.file.eof ==> EndsMidBuffer(st.file))
  {
    AlignedRefillAgrees(d, smap);
    StepOfSource(d, hits, k, smap, GetNextHitAsWritten(d, smap));
  }

  /** A decoder just opened has made no refill yet. */
  lemma OpenedAligned(name: string, img: FileImage, bufsize: nat, flagsOf: u16 -> HeaderFlags)
    requires bufsize > 0 && Open(name, img, bufsize, flagsOf).Ok?
    ensures RefillsAligned(Open(name, img, bufsize, flagsOf).value)
  {
    var d := Open(name, img, bufsize, flagsOf).value;
    if d.open && !d.eof {
      MulAtLeast(bufsize, d.hitSize);
    }
  }
}
