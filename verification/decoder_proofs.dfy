/** What a CompassFile decoder delivers: the records of a well-formed file, in
    file order, each decoded once, followed by end of stream. The corrected
    decoder of module CompassFile is shown to behave, call by call, as the
    abstract source of module HitSource over those records. */
module DecoderProofs {
  import opened Bytes
  import opened Results
  import opened Layout
  import opened Records
  import opened CompassFile
  import HitSource

  // ---------------------------------------------------------------------
  // The records of a file

  /** Where record `k` of `h` bytes starts in the file: after the header
      and the `k` records before it. */
  function RecordOffset(k: nat, h: nat): nat {
    HeaderSize + RecordStart(k, h)
  }

  /** Hit `k` of a file whose records are `h` bytes long: record `k`
      decoded on top of hit `k - 1`, or on top of a blank hit for the first.
      A field the layout does not carry keeps the previous hit's value, as
      `m_currentHit` does. Past the last whole record nothing is decoded. */
  function HitAt(data: seq<byte>, f: HeaderFlags, h: nat, smap: Option<ShiftMap>, k: nat): Hit
    requires h >= PreSampleSize(f)
    decreases k
  {
    var before := if k == 0 then BlankHit else HitAt(data, f, h, smap, k - 1);
    if RecordOffset(k, h) + h <= |data| then ParseNextHit(before, data[RecordOffset(k, h)..], f, smap).hit else before
  }

  /** The hits the whole records after the header decode to, in order; a
      trailing partial record decodes to nothing. */
  function DecodeRecords(data: seq<byte>, f: HeaderFlags, h: nat, smap: Option<ShiftMap>): (r: seq<Hit>)
    requires h >= PreSampleSize(f) && |data| >= HeaderSize
    ensures |r| == WholeRecords(|data| - HeaderSize, h)
  {
    seq(WholeRecords(|data| - HeaderSize, h), k requires 0 <= k => HitAt(data, f, h, smap, k))
  }

  /** Hit `k` is record `k` (bytes 2 + k * h onwards) decoded on top of hit
      `k - 1`, or on top of a blank hit for the first. */
  lemma DecodeRecordsAt(data: seq<byte>, f: HeaderFlags, h: nat, smap: Option<ShiftMap>, k: nat)
    requires h >= PreSampleSize(f) && |data| >= HeaderSize && k < |DecodeRecords(data, f, h, smap)|
    ensures RecordOffset(k, h) + h <= |data|
    ensures
      var R := DecodeRecords(data, f, h, smap);
      R[k] == ParseNextHit(if k == 0 then BlankHit else R[k - 1], data[RecordOffset(k, h)..], f, smap).hit
  {
    CountedRecordFits(k, |data| - HeaderSize, h);
  }

  /** The length of the record at the start of `s` by its own sample count:
      the bytes ParseNextHit moves past. */
  function RecordLength(s: seq<byte>, f: HeaderFlags): nat
    requires |s| >= PreSampleSize(f)
  {
    PreSampleSize(f) + (if f.waves then WaveBytes(Le32(s, SamplesCountOffset(f))) else 0)
  }

  /** Record `k` of the file announces the record size the header
      promised: its own sample count gives it exactly `h` bytes. */
  ghost predicate RecordFits(data: seq<byte>, f: HeaderFlags, h: nat, k: nat) {
    && h >= PreSampleSize(f)
    && RecordOffset(k, h) + h <= |data|
    && RecordLength(data[RecordOffset(k, h)..], f) == h
  }

  /** A file the decoder reads correctly: header-only, or with a readable
      header after which every whole record has the size the header derived
      from the first one. A file without waveforms always qualifies once its
      header can be read. */
  ghost predicate WellFormed(data: seq<byte>, flagsOf: u16 -> HeaderFlags) {
    || |data| == HeaderSize
    || (&& ReadHeader(data, flagsOf).Ok?
        && var hd := ReadHeader(data, flagsOf).value;
           forall k :: 0 <= k < WholeRecords(|data| - HeaderSize, hd.hitSize) ==> RecordFits(data, hd.flags, hd.hitSize, k))
  }

  /** The decode moves past exactly the record's own length, whatever the
      previous hit and the shift map. */
  lemma AdvanceIsRecordLength(prev: Hit, s: seq<byte>, f: HeaderFlags, smap: Option<ShiftMap>)
    requires |s| >= PreSampleSize(f)
    ensures ParseNextHit(prev, s, f, smap).advance == RecordLength(s, f)
  {
  }

  /** Without waveforms every record has the fixed size, so every file whose
      header can be read is well-formed. */
  lemma NoWavesWellFormed(data: seq<byte>, flagsOf: u16 -> HeaderFlags)
    requires ReadHeader(data, flagsOf).Ok? && !ReadHeader(data, flagsOf).value.flags.waves
    ensures WellFormed(data, flagsOf)
  {
    var hd := ReadHeader(data, flagsOf).value;
    forall k | 0 <= k < WholeRecords(|data| - HeaderSize, hd.hitSize)
      ensures RecordFits(data, hd.flags, hd.hitSize, k)
    {
      CountedRecordFits(k, |data| - HeaderSize, hd.hitSize);
    }
  }

  /** The hits a file holds: its whole records after the header, decoded in
      order (with the shift map applied when there is one). */
  function ImageHits(img: FileImage, flagsOf: u16 -> HeaderFlags, smap: Option<ShiftMap>): seq<Hit> {
    match img
    case Unopenable => []
    case Contents(data) =>
      if |data| == HeaderSize then []
      else
        match ReadHeader(data, flagsOf)
        case Failed(_) => []
        case Ok(hd) => DecodeRecords(data, hd.flags, hd.hitSize, smap)
  }

  /** The records of the file a decoder reads. */
  function FileHits(d: Decoder, smap: Option<ShiftMap>): seq<Hit> {
    if |d.data| < HeaderSize || d.hitSize < PreSampleSize(d.flags) then []
    else DecodeRecords(d.data, d.flags, d.hitSize, smap)
  }

  // ---------------------------------------------------------------------
  // The decoder invariant

  /** What no call changes about a decoder reading records: the record size
      covers the fixed part, every whole record of the file has that size,
      and the buffer holds whole records, at least one. */
  ghost predicate FileFacts(d: Decoder) {
    var h := d.hitSize;
    && |d.data| >= HeaderSize
    && h >= PreSampleSize(d.flags)
    && (forall j :: 0 <= j < WholeRecords(|d.data| - HeaderSize, h) ==> RecordFits(d.data, d.flags, h, j))
    && WholeRecordsOnly(|d.buffer|, h) && |d.buffer| >= h
  }


  /** The unread window `buf[iter..end]` is whole records and equals the
      bytes of `data` from offset `at`; the stream stands just past them, or
      has reached its end with less than a record after them. */
  ghost predicate Window(buf: seq<byte>, iter: nat, end: nat, data: seq<byte>, at: nat, h: nat, pos: nat, streamEof: bool)
    requires h > 0
  {
    && iter <= end <= |buf|
    && WholeRecordsOnly(end - iter, h)
    && at + (end - iter) <= |data|
    && (forall j | iter <= j < end :: buf[j] == data[at + (j - iter)])
    && (pos == at + (end - iter) || (streamEof && |data| < at + (end - iter) + h))
  }

  /** A decoder reading records that has delivered the first `k` of `hits`,
      one per whole record: the window holds the records from `k` on, the
      current hit is hit `k - 1`, and end of stream is raised only once every
      record is out. */
  ghost predicate ReadsRecords(d: Decoder, hits: seq<Hit>, k: nat)
    requires FileFacts(d)
  {
    && |hits| == WholeRecords(|d.data| - HeaderSize, d.hitSize)
    && k <= |hits|
    && Window(d.buffer, d.iter, d.end, d.data, RecordOffset(k, d.hitSize), d.hitSize, d.pos, d.streamEof)
    && d.current == (if k == 0 then BlankHit else hits[k - 1])
    && (d.eof ==> k == |hits|)
  }

  /** The invariant of a decoder that has delivered the first `k` of the hits
      `hits` of its file. */
  ghost predicate Tracks(d: Decoder, hits: seq<Hit>, k: nat) {
    && Valid(d)
    && (!d.open ==> d.eof && k == 0 && hits == [])
    && (d.open ==> |d.data| >= HeaderSize)
    && (d.open && |d.data| == HeaderSize ==> d.eof && k == 0 && hits == [])
    && (d.open && |d.data| > HeaderSize ==> FileFacts(d) && ReadsRecords(d, hits, k))
  }

  /** The decoder seen as an abstract source of its file's hits. */
  function Abs(d: Decoder, hits: seq<Hit>, k: nat): HitSource.Source {
    HitSource.Source(hits, k, d.current, d.used, d.eof)
  }

  /** The file facts and the records belong to the file, not the state. */
  lemma SameFileFacts(d: Decoder, e: Decoder)
    requires SameFile(d, e) && FileFacts(d)
    ensures FileFacts(e)
  {
  }

  lemma SameFileHits(d: Decoder, e: Decoder, smap: Option<ShiftMap>)
    requires SameFile(d, e)
    ensures FileHits(e, smap) == FileHits(d, smap)
  {
  }

  // ---------------------------------------------------------------------
  // One call of GetNextHit

  /** Hit `k` of the file is record `k` decoded on top of hit `k - 1`, and
      record `k` is `h` bytes long. */
  lemma RecordAt(d: Decoder, k: nat, smap: Option<ShiftMap>)
    requires FileFacts(d)
    requires k < |FileHits(d, smap)|
    ensures RecordOffset(k, d.hitSize) + d.hitSize <= |d.data|
    ensures
      var hits := FileHits(d, smap);
      var t := d.data[RecordOffset(k, d.hitSize)..];
      && |t| >= d.hitSize
      && hits[k] == ParseNextHit(if k == 0 then BlankHit else hits[k - 1], t, d.flags, smap).hit
      && RecordLength(t, d.flags) == d.hitSize
  {
    DecodeRecordsAt(d.data, d.flags, d.hitSize, smap, k);
    assert RecordFits(d.data, d.flags, d.hitSize, k);
  }

  /** Bytes that agree one by one agree as slices. */
  lemma SliceOfAgreement(buf: seq<byte>, iter: nat, data: seq<byte>, at: nat, n: nat)
    requires iter + n <= |buf| && at + n <= |data|
    requires forall j | iter <= j < iter + n :: buf[j] == data[at + (j - iter)]
    ensures buf[iter..iter + n] == data[at..at + n]
  {
    var A, B := buf[iter..iter + n], data[at..at + n];
    forall i | 0 <= i < n
      ensures A[i] == B[i]
    {
      assert A[i] == buf[iter + i];
    }
    assert A == B;
  }

  /** Slices that agree agree byte by byte. */
  lemma AgreementOfSlice(buf: seq<byte>, iter: nat, data: seq<byte>, at: nat, n: nat)
    requires iter + n <= |buf| && at + n <= |data|
    requires buf[iter..iter + n] == data[at..at + n]
    ensures forall j | iter <= j < iter + n :: buf[j] == data[at + (j - iter)]
  {
    forall j | iter <= j < iter + n
      ensures buf[j] == data[at + (j - iter)]
    {
      assert buf[j] == buf[iter..iter + n][j - iter];
    }
  }

  /** A non-empty window starts with a whole record. */
  lemma WindowHead(buf: seq<byte>, iter: nat, end: nat, data: seq<byte>, at: nat, h: nat, pos: nat, streamEof: bool)
    requires h > 0 && Window(buf, iter, end, data, at, h, pos, streamEof) && iter < end
    ensures iter + h <= end && at + h <= |data|
    ensures buf[iter..iter + h] == data[at..at + h]
  {
    TakeOneRecord(end - iter, h);
    SliceOfAgreement(buf, iter, data, at, h);
  }

  /** Stepping past the first record of a non-empty window leaves a window
      over the records after it. */
  lemma WindowAdvance(buf: seq<byte>, iter: nat, end: nat, data: seq<byte>, at: nat, h: nat, pos: nat, streamEof: bool)
    requires h > 0 && Window(buf, iter, end, data, at, h, pos, streamEof) && iter < end
    ensures iter + h <= end
    ensures Window(buf, iter + h, end, data, at + h, h, pos, streamEof)
  {
    TakeOneRecord(end - iter, h);
  }

  /** Stepping past record `k` at the head of a window leaves the window
      over the records from `k + 1` on. */
  lemma WindowNextRecord(buf: seq<byte>, iter: nat, end: nat, data: seq<byte>, k: nat, h: nat, pos: nat, streamEof: bool)
    requires h > 0 && Window(buf, iter, end, data, RecordOffset(k, h), h, pos, streamEof) && iter < end
    ensures iter + h <= end
    ensures Window(buf, iter + h, end, data, RecordOffset(k + 1, h), h, pos, streamEof)
  {
    WindowAdvance(buf, iter, end, data, RecordOffset(k, h), h, pos, streamEof);
  }

  /** A record that lies inside the file after the header is counted. */
  lemma OffsetCounted(k: nat, h: nat, n: nat)
    requires h > 0 && RecordOffset(k, h) + h <= n
    ensures n >= HeaderSize && k < WholeRecords(n - HeaderSize, h)
  {
    RecordCounted(k, n - HeaderSize, h);
  }

  /** A non-empty window over the bytes from record `k` on starts with
      record `k`, which is one of the whole records after the header. */
  lemma CursorAtRecord(buf: seq<byte>, iter: nat, end: nat, data: seq<byte>, k: nat, h: nat, pos: nat, streamEof: bool)
    requires h > 0 && Window(buf, iter, end, data, RecordOffset(k, h), h, pos, streamEof) && iter < end
    ensures |data| >= HeaderSize && k < WholeRecords(|data| - HeaderSize, h)
    ensures iter + h <= |buf| && RecordOffset(k, h) + h <= |data|
    ensures buf[iter..iter + h] == data[RecordOffset(k, h)..][..h]
  {
    var at := RecordOffset(k, h);
    WindowHead(buf, iter, end, data, at, h, pos, streamEof);
    OffsetCounted(k, h, |data|);
    PrefixOfSuffix(data, at, h);
  }

  lemma PrefixOfSuffix(s: seq<byte>, at: nat, n: nat)
    requires at + n <= |s|
    ensures s[at..][..n] == s[at..at + n]
  {
  }

  /** Decoding bytes that agree with a record of `h` bytes decodes that
      record and moves past exactly those `h` bytes. */
  lemma CursorParse(buf: seq<byte>, iter: nat, t: seq<byte>, h: nat, f: HeaderFlags, prev: Hit, smap: Option<ShiftMap>)
    requires h >= PreSampleSize(f) && iter + h <= |buf| && h <= |t|
    requires buf[iter..iter + h] == t[..h]
    requires RecordLength(t, f) == h
    ensures ParseNextHit(prev, buf[iter..], f, smap) == ParseNextHit(prev, t, f, smap)
    ensures ParseNextHit(prev, buf[iter..], f, smap).advance == h
  {
    var pre := PreSampleSize(f);
    var s := buf[iter..];
    assert s[..pre] == buf[iter..iter + h][..pre];
    assert t[..pre] == t[..h][..pre];
    ParseReadsOnlyFixedPart(prev, s, t, f, smap);
    AdvanceIsRecordLength(prev, t, f, smap);
  }

  /** Decoding at the cursor of a non-empty window decodes hit `k` and moves
      the cursor past one record. */
  lemma ParseStep(d: Decoder, hits: seq<Hit>, k: nat, smap: Option<ShiftMap>)
    requires Tracks(d, hits, k) && hits == FileHits(d, smap) && d.open && !d.eof && d.iter < d.end
    ensures k < |hits|
    ensures d.iter + PreSampleSize(d.flags) <= |d.buffer|
    ensures ParseNextHit(d.current, d.buffer[d.iter..], d.flags, smap) == Parsed(hits[k], d.hitSize)
  {
    CursorAtRecord(d.buffer, d.iter, d.end, d.data, k, d.hitSize, d.pos, d.streamEof);
    RecordAt(d, k, smap);
    var t := d.data[RecordOffset(k, d.hitSize)..];
    CursorParse(d.buffer, d.iter, t, d.hitSize, d.flags, d.current, smap);
  }

  /** Refilling an empty window at the end of the stream: every record has
      been delivered. */
  lemma RefillAtStreamEnd(d: Decoder, hits: seq<Hit>, k: nat)
    requires Tracks(d, hits, k) && d.open && !d.eof && d.iter == d.end && d.streamEof
    ensures k == |hits|
  {
    CountFromBounds(k, |d.data| - HeaderSize, d.hitSize);
  }

  /** What a refill from offset `at` reads: `got` bytes of the file from
      there, fewer than the buffer holds only at the end of the file, of which
      the window keeps the whole records. */
  lemma RefillReads(d: Decoder, at: nat)
    requires Valid(d) && d.open && !d.eof && !d.streamEof && d.pos == at
    ensures
      var e := GetNextBuffer(d);
      var got := e.pos - d.pos;
      && got <= |d.buffer| && at + got <= |d.data|
      && (got < |d.buffer| ==> at + got == |d.data|)
      && e.iter == 0 && e.end == WholeRecordBytes(got, d.hitSize) && e.end <= |e.buffer|
      && (forall j | 0 <= j < e.end :: e.buffer[j] == d.data[at + (j - 0)])
      && e.pos == at + got
      && (e.streamEof <==> got < |d.buffer|)
      && (e.eof <==> e.end == 0)
  {
    var e := GetNextBuffer(d);
    AgreementOfSlice(e.buffer, 0, d.data, at, e.end);
  }

  /** The counting behind a refill: `got` bytes were read into a buffer of
      `B` bytes, a short read meaning the file ended, and the window keeps the
      whole records among them. The window is empty exactly when the `k`
      records before the stream position were all there were, and a window
      shorter than the read means the file ends within a record after it. */
  lemma RefillArithmetic(k: nat, h: nat, B: nat, got: nat, whole: nat, total: nat)
    requires h > 0 && WholeRecordsOnly(B, h) && B >= h
    requires k <= WholeRecords(total, h)
    requires RecordStart(k, h) + got <= total && got <= B
    requires got < B ==> RecordStart(k, h) + got == total
    requires whole == WholeRecordBytes(got, h)
    ensures WholeRecordsOnly(whole, h)
    ensures whole == 0 <==> k == WholeRecords(total, h)
    ensures got == whole || (got < B && total < RecordStart(k, h) + whole + h)
  {
    var off := RecordStart(k, h);
    TrimmedIsWhole(got, h);
    if whole == 0 {
      assert total == off + got;
      CountFromBounds(k, total, h);
    } else {
      if got == B {
        RecordsAreWhole(WholeRecords(B, h), h);
      }
      RecordStartMonotone(1, WholeRecords(got, h), h);
      CountAtLeast(k + 1, total, h);
    }
  }

  /** A refill that read `got` bytes of the `B`-byte buffer from record `k`
      on, a short read meaning the file ended, and kept the whole records
      among them as the window: the window is over the records from `k` on,
      and it is empty exactly when the `k` records before it were all there
      were. */
  lemma RefillWindow(buf: seq<byte>, end: nat, pos: nat, streamEof: bool, eof: bool,
                     data: seq<byte>, k: nat, h: nat, B: nat, got: nat)
    requires |data| >= HeaderSize
    requires h > 0 && WholeRecordsOnly(B, h) && B >= h
    requires k <= WholeRecords(|data| - HeaderSize, h)
    requires got <= B && RecordOffset(k, h) + got <= |data|
    requires got < B ==> RecordOffset(k, h) + got == |data|
    requires end == WholeRecordBytes(got, h) && end <= |buf|
    requires forall j | 0 <= j < end :: buf[j] == data[RecordOffset(k, h) + (j - 0)]
    requires pos == RecordOffset(k, h) + got
    requires streamEof <==> got < B
    requires eof <==> end == 0
    ensures Window(buf, 0, end, data, RecordOffset(k, h), h, pos, streamEof)
    ensures eof <==> k == WholeRecords(|data| - HeaderSize, h)
  {
    RefillArithmetic(k, h, B, got, end, |data| - HeaderSize);
  }

  /** Refilling an empty window either finds more whole records, or finds
      less than one and raises end of stream, which happens exactly when
      every record has been delivered. */
  lemma RefillStep(d: Decoder, hits: seq<Hit>, k: nat)
    requires Tracks(d, hits, k) && d.open && !d.eof && d.iter == d.end
    ensures
      var e := GetNextBuffer(d);
      && Tracks(e, hits, k)
      && e.current == d.current && e.used == d.used
      && (e.eof <==> k == |hits|)
      && (!e.eof ==> e.iter < e.end)
  {
    if d.streamEof {
      RefillAtStreamEnd(d, hits, k);
    } else {
      RefillFromStream(d, hits, k);
    }
  }

  /** Refilling from a stream not yet at its end keeps the invariant. */
  lemma RefillFromStream(d: Decoder, hits: seq<Hit>, k: nat)
    requires Tracks(d, hits, k) && d.open && !d.eof && d.iter == d.end && !d.streamEof
    ensures Tracks(GetNextBuffer(d), hits, k)
    ensures GetNextBuffer(d).eof <==> k == |hits|
  {
    var h := d.hitSize;
    var e := GetNextBuffer(d);
    assert d.pos == RecordOffset(k, h);
    RefillReads(d, RecordOffset(k, h));
    RefillWindow(e.buffer, e.end, e.pos, e.streamEof, e.eof, d.data, k, h, |d.buffer|, e.pos - d.pos);
    SameFileFacts(d, e);
    ReadsRecordsOf(e, hits, k);
    TracksOfReading(e, hits, k);
  }

  /** The parts of reading records put together. */
  lemma ReadsRecordsOf(d: Decoder, hits: seq<Hit>, k: nat)
    requires FileFacts(d)
    requires |hits| == WholeRecords(|d.data| - HeaderSize, d.hitSize) && k <= |hits|
    requires Window(d.buffer, d.iter, d.end, d.data, RecordOffset(k, d.hitSize), d.hitSize, d.pos, d.streamEof)
    requires d.current == (if k == 0 then BlankHit else hits[k - 1])
    requires d.eof ==> k == |hits|
    ensures ReadsRecords(d, hits, k)
  {
  }

  /** The decoder after delivering hit `k` from the record at its cursor. */
  function Delivered(d: Decoder, hits: seq<Hit>, k: nat): Decoder
    requires k < |hits|
  {
    d.(current := hits[k], iter := d.iter + d.hitSize, used := false)
  }

  /** GetNextHit on a window that is not empty decodes at the cursor; when
      the record there decodes to hit `k`, it delivers hit `k`. */
  lemma DecodeAtCursor(d: Decoder, hits: seq<Hit>, k: nat, smap: Option<ShiftMap>)
    requires Valid(d) && d.open && !d.eof && d.iter != d.end && d.iter + PreSampleSize(d.flags) <= |d.buffer|
    requires k < |hits| && ParseNextHit(d.current, d.buffer[d.iter..], d.flags, smap) == Parsed(hits[k], d.hitSize)
    ensures GetNextHit(d, smap) == Ok(Step(Delivered(d, hits, k), false))
  {
  }

  /** Delivering hit `k` from the record at the cursor of a decoder reading
      records leaves it reading records, now with `k + 1` delivered. */
  lemma DeliverReads(d: Decoder, hits: seq<Hit>, k: nat)
    requires FileFacts(d) && ReadsRecords(d, hits, k) && d.iter < d.end && k < |hits|
    ensures FileFacts(Delivered(d, hits, k)) && ReadsRecords(Delivered(d, hits, k), hits, k + 1)
  {
    var e := Delivered(d, hits, k);
    WindowNextRecord(d.buffer, d.iter, d.end, d.data, k, d.hitSize, d.pos, d.streamEof);
    SameFileFacts(d, e);
    ReadsRecordsOf(e, hits, k + 1);
  }

  /** Delivering hit `k` from the record at the cursor keeps the invariant,
      now with `k + 1` hits delivered. */
  lemma DeliverKeepsTracks(d: Decoder, hits: seq<Hit>, k: nat)
    requires Tracks(d, hits, k) && d.open && !d.eof && d.iter < d.end && k < |hits|
    ensures Tracks(Delivered(d, hits, k), hits, k + 1)
  {
    DeliverReads(d, hits, k);
    TracksOfReading(Delivered(d, hits, k), hits, k + 1);
  }

  /** A decoder reading a file with records keeps the invariant as soon as
      it reads them correctly. */
  lemma TracksOfReading(d: Decoder, hits: seq<Hit>, k: nat)
    requires Valid(d) && d.open && |d.data| > HeaderSize && FileFacts(d) && ReadsRecords(d, hits, k)
    ensures Tracks(d, hits, k)
  {
  }

  /** GetNextHit on an empty window with no record left raises end of
      stream and changes nothing the merge sees. */
  lemma StepAtEnd(d: Decoder, hits: seq<Hit>, k: nat, smap: Option<ShiftMap>)
    requires Tracks(d, hits, k) && d.open && !d.eof && d.iter == d.end && k == |hits|
    ensures GetNextHit(d, smap) == Ok(Step(GetNextBuffer(d), true))
    ensures Tracks(GetNextBuffer(d), hits, k)
    ensures GetNextBuffer(d).current == d.current && GetNextBuffer(d).used == d.used
  {
    RefillStep(d, hits, k);
  }

  /** GetNextHit on an empty window with records left refills the window
      and delivers the next one. */
  lemma StepAfterRefill(d: Decoder, hits: seq<Hit>, k: nat, smap: Option<ShiftMap>)
    requires Tracks(d, hits, k) && hits == FileHits(d, smap) && d.open && !d.eof && d.iter == d.end && k < |hits|
    ensures GetNextHit(d, smap) == Ok(Step(Delivered(GetNextBuffer(d), hits, k), false))
    ensures Tracks(Delivered(GetNextBuffer(d), hits, k), hits, k + 1)
  {
    var d1 := GetNextBuffer(d);
    RefillStep(d, hits, k);
    SameFileHits(d, d1, smap);
    ParseStep(d1, hits, k, smap);
    DecodeAtCursor(d1, hits, k, smap);
    DeliverKeepsTracks(d1, hits, k);
  }

  /** One call of the corrected GetNextHit on a decoder that has delivered
      `k` of its file's hits is one step of the abstract source: it delivers
      hit `k` when there is one and raises end of stream otherwise, and never
      faults. */
  lemma GetNextHitStep(d: Decoder, hits: seq<Hit>, k: nat, smap: Option<ShiftMap>)
    requires Tracks(d, hits, k) && hits == FileHits(d, smap)
    ensures k <= |hits|
    ensures GetNextHit(d, smap).Ok?
    ensures
      var st := GetNextHit(d, smap).value;
      var k' := if st.atEof then k else k + 1;
      && Tracks(st.file, hits, k')
      && hits == FileHits(st.file, smap)
      && Abs(st.file, hits, k') == HitSource.NextHit(Abs(d, hits, k))
      && st.atEof == HitSource.NextHit(Abs(d, hits, k)).eof
  {
    if d.open && !d.eof {
      if d.iter < d.end {
        ParseStep(d, hits, k, smap);
        DecodeAtCursor(d, hits, k, smap);
        DeliverKeepsTracks(d, hits, k);
        SameFileHits(d, Delivered(d, hits, k), smap);
      } else if k == |hits| {
        StepAtEnd(d, hits, k, smap);
        SameFileHits(d, GetNextBuffer(d), smap);
      } else {
        StepAfterRefill(d, hits, k, smap);
        SameFileHits(d, Delivered(GetNextBuffer(d), hits, k), smap);
      }
    }
  }

  /** Setting the used flag is invisible to the decoder invariant. */
  lemma MarkUsedKeepsTracks(d: Decoder, hits: seq<Hit>, k: nat, used: bool)
    requires Tracks(d, hits, k)
    ensures Tracks(d.(used := used), hits, k)
    ensures Abs(d.(used := used), hits, k) == Abs(d, hits, k).(used := used)
  {
  }

  /** Before the first read the window is empty and the stream stands at
      the first record. */
  lemma EmptyWindow(buf: seq<byte>, data: seq<byte>, h: nat)
    requires h > 0 && |data| >= HeaderSize
    ensures Window(buf, 0, 0, data, RecordOffset(0, h), h, HeaderSize, false)
  {
    TrimmedIsWhole(0, h);
  }

  /** A freshly opened file with records meets the file facts. */
  lemma OpenedFacts(name: string, data: seq<byte>, hd: Header, n: nat, bufsize: nat)
    requires hd.hitSize >= PreSampleSize(hd.flags) && bufsize > 0 && |data| > HeaderSize
    requires forall j :: 0 <= j < WholeRecords(|data| - HeaderSize, hd.hitSize) ==> RecordFits(data, hd.flags, hd.hitSize, j)
    ensures FileFacts(Opened(name, data, hd, n, bufsize))
  {
    RecordsAreWhole(bufsize, hd.hitSize);
    RecordStartIsProduct(bufsize, hd.hitSize);
    RecordStartMonotone(1, bufsize, hd.hitSize);
  }

  /** A decoder that has read nothing past the header of a file with
      records has delivered none of them. */
  lemma StartTracks(d: Decoder, hits: seq<Hit>)
    requires Valid(d) && d.open && !d.eof && |d.data| > HeaderSize && FileFacts(d)
    requires d.iter == 0 && d.end == 0 && d.pos == HeaderSize && !d.streamEof && d.current == BlankHit
    requires |hits| == WholeRecords(|d.data| - HeaderSize, d.hitSize)
    ensures Tracks(d, hits, 0)
  {
    EmptyWindow(d.buffer, d.data, d.hitSize);
    ReadsRecordsOf(d, hits, 0);
    TracksOfReading(d, hits, 0);
  }

  /** A freshly opened file with records has delivered none of them. */
  lemma OpenedTracks(d: Decoder, name: string, data: seq<byte>, hd: Header, hits: seq<Hit>, bufsize: nat)
    requires hd.hitSize >= PreSampleSize(hd.flags) && bufsize > 0 && |data| > HeaderSize
    requires forall j :: 0 <= j < WholeRecords(|data| - HeaderSize, hd.hitSize) ==> RecordFits(data, hd.flags, hd.hitSize, j)
    requires |hits| == WholeRecords(|data| - HeaderSize, hd.hitSize)
    requires d == Opened(name, data, hd, |hits|, bufsize)
    ensures Tracks(d, hits, 0)
  {
    OpenedFacts(name, data, hd, |hits|, bufsize);
    StartTracks(d, hits);
  }

  /** Opening a well-formed file counts as many hits as the file holds,
      and the decoder reads exactly the file's records. */
  lemma OpenHits(name: string, img: FileImage, bufsize: nat, flagsOf: u16 -> HeaderFlags, smap: Option<ShiftMap>)
    requires bufsize > 0
    requires img.Contents? ==> WellFormed(img.bytes, flagsOf)
    ensures Open(name, img, bufsize, flagsOf).Ok?
    ensures
      var d := Open(name, img, bufsize, flagsOf).value;
      && ImageHits(img, flagsOf, smap) == FileHits(d, smap)
      && d.nHits == |ImageHits(img, flagsOf, smap)|
  {
    if img.Contents? && |img.bytes| != HeaderSize {
      var data := img.bytes;
      var hd := ReadHeader(data, flagsOf).value;
    }
  }

  /** Opening a well-formed file gives a decoder that has delivered none of
      the file's hits, and has counted as many hits as the file holds. */
  lemma OpenTracks(name: string, img: FileImage, bufsize: nat, flagsOf: u16 -> HeaderFlags, smap: Option<ShiftMap>)
    requires bufsize > 0
    requires img.Contents? ==> WellFormed(img.bytes, flagsOf)
    ensures Open(name, img, bufsize, flagsOf).Ok?
    ensures
      var d := Open(name, img, bufsize, flagsOf).value;
      var hits := ImageHits(img, flagsOf, smap);
      && Tracks(d, hits, 0)
      && hits == FileHits(d, smap)
      && d.nHits == |hits|
      && Abs(d, hits, 0) == HitSource.Fresh(hits, d.eof)
  {
    OpenHits(name, img, bufsize, flagsOf, smap);
    if img.Contents? && |img.bytes| != HeaderSize {
      var data := img.bytes;
      var hd := ReadHeader(data, flagsOf).value;
      var d := Opened(name, data, hd, WholeRecords(|data| - HeaderSize, hd.hitSize), bufsize);
      var hits := ImageHits(img, flagsOf, smap);
      assert Open(name, img, bufsize, flagsOf) == Ok(d);
      OpenedTracks(d, name, data, hd, hits, bufsize);
    }
  }
}
