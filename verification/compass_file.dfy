/** One CoMPASS binary file and its buffered hit decoder (src/evb/CompassFile.cpp).
    The `std::ifstream` is modelled by the file's bytes, a read position and its
    eof bit; `m_hitBuffer` by a byte sequence; the two buffer pointers by
    offsets into it, both 0 while no buffer has been read (the null pointers
    compare equal, as offsets 0 and 0 do).

    Two versions of the open and refill steps are given: the ones named
    `...AsWritten` follow the source line by line, including its defects; the
    unsuffixed ones correct them and are what the rest of the model uses. */
module CompassFile {
  import opened Bytes
  import opened Results
  import opened Layout
  import opened Records

  /** What the operating system gives for a path: nothing, or the file's bytes. */
  datatype FileImage = Unopenable | Contents(bytes: seq<byte>)

  /** The state of one `CompassFile`. */
  datatype Decoder = Decoder(
    name: string,        // m_filename
    open: bool,          // IsOpen()
    data: seq<byte>,     // the bytes of the file
    pos: nat,            // the stream's read position
    streamEof: bool,     // the stream's eof bit
    flags: HeaderFlags,  // what the header word m_header says
    hitSize: nat,        // m_hitsize
    nHits: nat,          // m_nHits
    buffer: seq<byte>,   // m_hitBuffer
    iter: nat,           // m_bufferIter, as an offset into the buffer
    end: nat,            // m_bufferEnd, as an offset into the buffer
    current: Hit,        // m_currentHit
    used: bool,          // m_hitUsedFlag
    eof: bool)           // m_eofFlag

  /** What `ReadHeader` settles: the layout flags and the record size. */
  datatype Header = Header(flags: HeaderFlags, hitSize: nat)

  /** The facts every reachable decoder state keeps. */
  ghost predicate Valid(d: Decoder) {
    && d.pos <= |d.data|
    && (d.streamEof ==> d.pos == |d.data|)
    && d.end <= |d.buffer|
    && (d.open && !d.eof ==>
         && d.hitSize >= PreSampleSize(d.flags) && |d.buffer| >= d.hitSize
         && WholeRecordsOnly(|d.buffer|, d.hitSize))
  }

  /** ReadHeader on an open file of at least two bytes: read the header word,
      add the optional field widths to the 16 fixed bytes, and when waveforms
      are on probe the first record for its sample count. A short file leaves
      the header or the probed record unfilled, which is indeterminate. */
  function ReadHeader(data: seq<byte>, flagsOf: u16 -> HeaderFlags): (r: Result<Header>)
    ensures r.Ok? <==> |data| >= HeaderSize
                       && (flagsOf(Le16(data, 0)).waves ==> |data| >= HeaderSize + PreSampleSize(flagsOf(Le16(data, 0))))
    ensures r.Ok? ==> r.value.flags == flagsOf(Le16(data, 0)) && r.value.hitSize >= PreSampleSize(r.value.flags)
  {
    if |data| < HeaderSize then Failed(IndeterminateRead)
    else
      var f := flagsOf(Le16(data, 0));
      var size := PreSampleSize(f);
      if !f.waves then Ok(Header(f, size))
      else if |data| < HeaderSize + size then Failed(IndeterminateRead)
      else
        var nsamples := Le32(data, HeaderSize + size - 4);
        Ok(Header(f, size + WaveBytes(nsamples)))
  }

  /** ReadHeader as written. With waveforms on, the probe moves its buffer
      pointer forward by the fixed part less 4 to read the sample count, and
      then hands the moved pointer to `delete[]` (lines 102 and 107), which
      is undefined behaviour. Without waveforms it is ReadHeader. */
  function ReadHeaderAsWritten(data: seq<byte>, flagsOf: u16 -> HeaderFlags): (r: Result<Header>)
    ensures ReadHeader(data, flagsOf).Failed? ==> r == ReadHeader(data, flagsOf)
    ensures ReadHeader(data, flagsOf).Ok? && !ReadHeader(data, flagsOf).value.flags.waves ==>
      r == ReadHeader(data, flagsOf)
    ensures ReadHeader(data, flagsOf).Ok? && ReadHeader(data, flagsOf).value.flags.waves ==>
      r == Failed(InvalidDelete)
  {
    if |data| < HeaderSize then Failed(IndeterminateRead)
    else
      var f := flagsOf(Le16(data, 0));
      var size := PreSampleSize(f);
      if !f.waves then Ok(Header(f, size))
      else if |data| < HeaderSize + size then Failed(IndeterminateRead)
      else Failed(InvalidDelete)
  }

  /** The record size is 16 bytes, plus 2, 8 and 2 for the energy, calibrated
      energy and short energy fields when present, plus, with waveforms, 5
      bytes of wave code and sample count and two bytes per sample, where the
      sample count is the one the decoder reads from the first record. */
  lemma RecordSizeFormula(data: seq<byte>, flagsOf: u16 -> HeaderFlags)
    requires ReadHeader(data, flagsOf).Ok?
    ensures
      var hd := ReadHeader(data, flagsOf).value;
      var f := hd.flags;
      && (f.waves ==> |data| >= HeaderSize + PreSampleSize(f))
      && hd.hitSize == BaseSize + 2 * (if f.energy then 1 else 0) + 8 * (if f.calibrated then 1 else 0)
                       + 2 * (if f.short then 1 else 0)
                       + (if f.waves then 5 + WaveBytes(ParseNextHit(BlankHit, data[HeaderSize..], f, None).hit.ns)
                          else 0)
  {
    var hd := ReadHeader(data, flagsOf).value;
    var f := hd.flags;
    var size := PreSampleSize(f);
    if f.waves {
      SampleCountIsLastFixedField(f);
      var at := SamplesCountOffset(f);
      assert data[HeaderSize..][at..at + 4] == data[HeaderSize + at..HeaderSize + at + 4];
      assert hd.hitSize == size + WaveBytes(Le32(data, HeaderSize + size - 4));
      assert ParseNextHit(BlankHit, data[HeaderSize..], f, None).hit.ns == Le32(data, HeaderSize + size - 4);
    }
  }

  /** The state of a file opened on a two-byte (header-only) file: at end of
      stream, with no hits and nothing read, the stream left at the end of the
      file where the size was taken. */
  function EmptyMarker(name: string, data: seq<byte>): Decoder {
    Decoder(name, true, data, HeaderSize, false, HeaderFlags(false, false, false, false), 0, 0, [], 0, 0,
            BlankHit, true, true)
  }

  /** The state after ReadHeader on a file it could read. */
  function Opened(name: string, data: seq<byte>, hd: Header, nHits: nat, bufsize: nat): (r: Decoder)
    requires hd.hitSize >= PreSampleSize(hd.flags) && bufsize > 0 && |data| >= HeaderSize
    ensures Valid(r) && |r.buffer| == hd.hitSize * bufsize
  {
    RecordsAreWhole(bufsize, hd.hitSize);
    RecordStartIsProduct(bufsize, hd.hitSize);
    RecordStartMonotone(1, bufsize, hd.hitSize);
    Decoder(name, true, data, HeaderSize, false, hd.flags, hd.hitSize, nHits, Zeros(RecordStart(bufsize, hd.hitSize)),
            0, 0, BlankHit, true, false)
  }

  /** Open as written: an unopenable path leaves m_hitsize at 0, so line 63
      divides by zero; the header is read by ReadHeader as written; the hit
      count divides the whole file size, header included. */
  function OpenAsWritten(name: string, img: FileImage, bufsize: nat, flagsOf: u16 -> HeaderFlags): (r: Result<Decoder>)
    requires bufsize > 0
    ensures img.Unopenable? ==> r == Failed(DivisionByZero)
    ensures img.Contents? && |img.bytes| != HeaderSize && ReadHeader(img.bytes, flagsOf).Ok? ==>
      (r.Ok? <==> !ReadHeader(img.bytes, flagsOf).value.flags.waves)
    ensures r.Ok? ==> Valid(r.value) && r.value.open && r.value.used && r.value.iter == r.value.end
    ensures r.Ok? && !r.value.eof ==>
      RecordStart(r.value.nHits, r.value.hitSize) <= |img.bytes| < RecordStart(r.value.nHits + 1, r.value.hitSize)
  {
    match img
    case Unopenable => Failed(DivisionByZero)
    case Contents(data) =>
      if |data| == HeaderSize then Ok(EmptyMarker(name, data))
      else
        match ReadHeaderAsWritten(data, flagsOf)
        case Failed(fault) => Failed(fault)
        case Ok(hd) => Ok(Opened(name, data, hd, WholeRecords(|data|, hd.hitSize), bufsize))
  }

  /** Open, corrected: an unopenable file is a closed decoder already at end of
      stream with no hits, and the hit count is the number of whole records
      after the header. */
  function Open(name: string, img: FileImage, bufsize: nat, flagsOf: u16 -> HeaderFlags): (r: Result<Decoder>)
    requires bufsize > 0
    ensures img.Unopenable? ==> r.Ok? && !r.value.open && r.value.eof && r.value.nHits == 0
    ensures img.Contents? && |img.bytes| == HeaderSize ==> r.Ok? && r.value.open && r.value.eof && r.value.nHits == 0
    ensures img.Contents? && |img.bytes| != HeaderSize ==>
      (r.Ok? <==> ReadHeader(img.bytes, flagsOf).Ok?)
    ensures r.Ok? ==>
      Valid(r.value) && r.value.used && r.value.iter == r.value.end && r.value.current == BlankHit && r.value.name == name
    ensures r.Ok? ==> (r.value.open <==> img.Contents?)
    ensures r.Ok? && !r.value.eof ==>
      && r.value.open && r.value.pos == HeaderSize && !r.value.streamEof
      && RecordStart(r.value.nHits, r.value.hitSize) <= |img.bytes| - HeaderSize < RecordStart(r.value.nHits + 1, r.value.hitSize)
      && |r.value.buffer| == r.value.hitSize * bufsize
  {
    match img
    case Unopenable =>
      Ok(Decoder(name, false, [], 0, false, HeaderFlags(false, false, false, false), 0, 0, [], 0, 0,
                 BlankHit, true, true))
    case Contents(data) =>
      if |data| == HeaderSize then Ok(EmptyMarker(name, data))
      else
        match ReadHeader(data, flagsOf)
        case Failed(fault) => Failed(fault)
        case Ok(hd) => Ok(Opened(name, data, hd, WholeRecords(|data| - HeaderSize, hd.hitSize), bufsize))
  }

  /** Read the next batch into the buffer: as many bytes as the buffer holds,
      or what is left of the file; a short read sets the stream's eof bit. The
      window [iter, end) is then exactly the bytes read. */
  function ReadBuffer(d: Decoder): (r: Decoder)
    requires Valid(d) && !d.streamEof
    ensures r == d.(buffer := r.buffer, pos := r.pos, streamEof := r.streamEof, iter := 0, end := r.end)
    ensures Valid(r) && |r.buffer| == |d.buffer| && d.pos <= r.pos
    ensures r.pos - d.pos == r.end <= |d.buffer|
    ensures r.buffer[..r.end] == d.data[d.pos..r.pos]
    ensures r.streamEof <==> r.end < |d.buffer|
    ensures r.end < |d.buffer| ==> r.pos == |d.data|
  {
    var got := if |d.buffer| <= |d.data| - d.pos then |d.buffer| else |d.data| - d.pos;
    var chunk := d.data[d.pos..d.pos + got];
    assert (chunk + d.buffer[got..])[..got] == chunk;
    d.(buffer := chunk + d.buffer[got..], pos := d.pos + got, streamEof := got < |d.buffer|,
       iter := 0, end := got)
  }

  /** GetNextBuffer as written: end of stream is raised only when the stream
      was already at its end before this call; a read that returns fewer bytes
      than a record, or none at all, still leaves the decoder running. */
  function GetNextBufferAsWritten(d: Decoder): (r: Decoder)
    requires Valid(d)
    ensures Valid(r) && SameFile(d, r) && d.pos <= r.pos
    ensures r.eof <==> d.eof || d.streamEof
    ensures !d.streamEof ==> r.iter == 0 && r.end == r.pos - d.pos && r.buffer[..r.end] == d.data[d.pos..r.pos]
  {
    if d.streamEof then d.(eof := true) else ReadBuffer(d)
  }

  /** GetNextBuffer, corrected: the window keeps only whole records, and an
      empty window raises end of stream at once. */
  function GetNextBuffer(d: Decoder): (r: Decoder)
    requires Valid(d) && (d.open && !d.eof)
    ensures Valid(r) && SameFile(d, r) && d.pos <= r.pos
    ensures r.current == d.current && r.used == d.used
    ensures !d.streamEof ==> r.iter == 0 && d.pos + r.end <= r.pos && r.buffer[..r.end] == d.data[d.pos..d.pos + r.end]
    ensures !d.streamEof ==> r.end == WholeRecordBytes(r.pos - d.pos, d.hitSize)
    ensures !d.streamEof ==> r.pos == d.pos + r.end || r.streamEof
    ensures !d.streamEof ==> r.pos - d.pos <= |d.buffer| && (r.streamEof <==> r.pos - d.pos < |d.buffer|)
    ensures r.streamEof ==> r.pos == |d.data|
    ensures r.eof <==> d.streamEof || r.end == r.iter
  {
    if d.streamEof then d.(eof := true)
    else
      var r := ReadBuffer(d);
      var whole := WholeRecordBytes(r.end, d.hitSize);
      assert r.buffer[..whole] == r.buffer[..r.end][..whole];
      r.(end := whole, eof := whole == 0)
  }

  /** The outcome of one GetNextHit: the new state and the value it returns. */
  datatype Step = Step(file: Decoder, atEof: bool)

  /** ParseNextHit applied at the buffer cursor. Reading a field past the end
      of the buffer is undefined behaviour. */
  function ParseAtCursor(d: Decoder, smap: Option<ShiftMap>): (r: Result<Decoder>)
    requires Valid(d) && d.open && !d.eof
    ensures r.Ok? <==> d.iter + PreSampleSize(d.flags) <= |d.buffer|
    ensures r.Ok? ==> Valid(r.value) && r.value.iter > d.iter
    ensures r.Ok? ==> r.value == d.(current := r.value.current, iter := r.value.iter)
  {
    if d.iter + PreSampleSize(d.flags) > |d.buffer| then Failed(BufferOverrun)
    else
      var p := ParseNextHit(d.current, d.buffer[d.iter..], d.flags, smap);
      Ok(d.(current := p.hit, iter := d.iter + p.advance))
  }

  /** Lines 128-134: decode a record unless at end of stream, then report the
      end-of-stream flag. */
  function DecodeUnlessEof(d: Decoder, smap: Option<ShiftMap>): (r: Result<Step>)
    requires Valid(d) && d.open
    ensures d.eof ==> r == Ok(Step(d, true))
    ensures r.Ok? ==> Valid(r.value.file) && SameFile(d, r.value.file) && r.value.atEof == r.value.file.eof
    ensures r.Ok? && !r.value.atEof ==> !r.value.file.used
  {
    if d.eof then Ok(Step(d, true))
    else
      var next :- ParseAtCursor(d, smap);
      Ok(Step(next.(used := false), false))
  }

  /** Whether GetNextHit must refill the buffer first: the window is empty. */
  predicate NeedsBuffer(d: Decoder) {
    d.iter == d.end && !d.eof
  }

  /** The fields a call to GetNextHit never changes. */
  predicate SameFile(d: Decoder, e: Decoder) {
    && e.name == d.name && e.open == d.open && e.data == d.data && e.flags == d.flags
    && e.hitSize == d.hitSize && e.nHits == d.nHits && |e.buffer| == |d.buffer|
  }

  /** GetNextHit as written. */
  function GetNextHitAsWritten(d: Decoder, smap: Option<ShiftMap>): (r: Result<Step>)
    requires Valid(d)
    ensures !d.open ==> r == Ok(Step(d, true))
    ensures d.eof ==> r == Ok(Step(d, true))
    ensures r.Ok? ==> Valid(r.value.file) && SameFile(d, r.value.file)
    ensures r.Ok? && d.open ==> r.value.atEof == r.value.file.eof
    ensures r.Ok? && !r.value.atEof ==> !r.value.file.used
    ensures r.Ok? && r.value.atEof ==> r.value.file.current == d.current && r.value.file.used == d.used
  {
    if !d.open then Ok(Step(d, true))
    else
      var d1 := if NeedsBuffer(d) then GetNextBufferAsWritten(d) else d;
      DecodeUnlessEof(d1, smap)
  }

  /** GetNextHit with the corrected refill. */
  function GetNextHit(d: Decoder, smap: Option<ShiftMap>): (r: Result<Step>)
    requires Valid(d)
    ensures !d.open ==> r == Ok(Step(d, true))
    ensures d.eof ==> r == Ok(Step(d, true))
    ensures r.Ok? ==> Valid(r.value.file) && SameFile(d, r.value.file)
    ensures r.Ok? && d.open ==> r.value.atEof == r.value.file.eof
    ensures r.Ok? && !r.value.atEof ==> !r.value.file.used
    ensures r.Ok? && r.value.atEof ==> r.value.file.current == d.current && r.value.file.used == d.used
  {
    if !d.open then Ok(Step(d, true))
    else
      var d1 := if NeedsBuffer(d) then GetNextBuffer(d) else d;
      DecodeUnlessEof(d1, smap)
  }
}
