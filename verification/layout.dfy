/** The CoMPASS binary record: which fields a file's records carry, where each
    field sits inside a record, how one record is decoded into the current hit
    (src/evb/CompassFile.cpp, ReadHeader and ParseNextHit), and the encoder
    that is its inverse. */
module Layout {
  import opened Bytes
  import opened Results

  /** Bytes of the file header word that precedes the first record. */
  const HeaderSize: nat := 2
  /** Board, channel, timestamp and flags: the fields every record carries. */
  const BaseSize: nat := 16

  /** What the header word says about the record layout. The predicates that
      derive these from the word (IsEnergy, IsEnergyCalibrated, IsEnergyShort,
      IsWaves) are not part of this model; the decoder takes them as input. */
  datatype HeaderFlags = HeaderFlags(energy: bool, calibrated: bool, short: bool, waves: bool)

  /** The decoder's current hit (`m_currentHit`). Every field keeps its value
      until a record that carries that field overwrites it. */
  datatype Hit = Hit(
    board: u16,
    channel: u16,
    timestamp: u64,
    energy: u16,
    energyCalibrated: u64,
    energyShort: u16,
    flags: u32,
    waveCode: byte,
    ns: u32)

  /** The hit before any record was decoded. */
  const BlankHit := Hit(0, 0, 0, 0, 0, 0, 0, 0, 0)

  /** The timestamp offset table, looked up by global channel id. */
  type ShiftMap = int -> int

  /** `channel + board * 16`, the key of the shift map. */
  function GlobalChannel(board: u16, channel: u16): int {
    channel + board * 16
  }

  /** `timestamp += shift` on a `uint64_t`: the sum wraps modulo 2^64. */
  function Shifted(raw: u64, shift: int): (r: u64)
    ensures (r - raw - shift) % 0x1_0000_0000_0000_0000 == 0
  {
    (raw + shift) % 0x1_0000_0000_0000_0000
  }

  /** Bytes the optional energy fields add to a record. */
  function OptionalBytes(f: HeaderFlags): nat {
    (if f.energy then 2 else 0) + (if f.calibrated then 8 else 0) + (if f.short then 2 else 0)
  }

  /** `m_hitsize` before the waveform samples are added: the fixed part of a
      record, including the wave code and sample count when waves are on. */
  function PreSampleSize(f: HeaderFlags): nat {
    BaseSize + OptionalBytes(f) + (if f.waves then 5 else 0)
  }

  /** `2 * Ns` computed on `uint32_t`: the bytes of waveform samples skipped. */
  function WaveBytes(ns: u32): u32 {
    (2 * ns) % 0x1_0000_0000
  }

  /** Offsets of the fields within a record, in the order the decoder reads them. */
  const BoardOffset: nat := 0
  const ChannelOffset: nat := 2
  const TimestampOffset: nat := 4
  const EnergyOffset: nat := 12

  function CalibratedOffset(f: HeaderFlags): nat {
    EnergyOffset + (if f.energy then 2 else 0)
  }

  function ShortOffset(f: HeaderFlags): nat {
    CalibratedOffset(f) + (if f.calibrated then 8 else 0)
  }

  function FlagsOffset(f: HeaderFlags): nat {
    ShortOffset(f) + (if f.short then 2 else 0)
  }

  function WaveCodeOffset(f: HeaderFlags): nat {
    FlagsOffset(f) + 4
  }

  function SamplesCountOffset(f: HeaderFlags): nat {
    WaveCodeOffset(f) + 1
  }

  /** The sample count sits in the last four bytes of the fixed part, which is
      where the header probe reads it (`firstHit + m_hitsize - 4`). */
  lemma SampleCountIsLastFixedField(f: HeaderFlags)
    requires f.waves
    ensures SamplesCountOffset(f) == PreSampleSize(f) - 4
    ensures FlagsOffset(f) + 4 == PreSampleSize(f) - 5
  {
  }

  /** One decoded record and the number of bytes the cursor moves past it. */
  datatype Parsed = Parsed(hit: Hit, advance: nat)

  /** ParseNextHit: decode the record that starts at `s[0]` on top of the
      previous hit, then add the shift of its global channel if a shift map is
      attached. The cursor moves field by field, as `m_bufferIter` does. */
  function ParseNextHit(prev: Hit, s: seq<byte>, f: HeaderFlags, smap: Option<ShiftMap>): (r: Parsed)
    requires |s| >= PreSampleSize(f)
    ensures r.hit.board == Le16(s, BoardOffset) && r.hit.channel == Le16(s, ChannelOffset)
    ensures smap.None? ==> r.hit.timestamp == Le64(s, TimestampOffset)
    ensures smap.Some? ==>
      r.hit.timestamp == Shifted(Le64(s, TimestampOffset), smap.value(GlobalChannel(r.hit.board, r.hit.channel)))
    ensures r.hit.energy == if f.energy then Le16(s, EnergyOffset) else prev.energy
    ensures r.hit.energyCalibrated == if f.calibrated then Le64(s, CalibratedOffset(f)) else prev.energyCalibrated
    ensures r.hit.energyShort == if f.short then Le16(s, ShortOffset(f)) else prev.energyShort
    ensures r.hit.flags == Le32(s, FlagsOffset(f))
    ensures r.hit.waveCode == if f.waves then s[WaveCodeOffset(f)] else prev.waveCode
    ensures r.hit.ns == if f.waves then Le32(s, SamplesCountOffset(f)) else prev.ns
    ensures r.advance == PreSampleSize(f) + (if f.waves then WaveBytes(r.hit.ns) else 0)
  {
    var board := Le16(s, 0);
    var channel := Le16(s, 2);
    var raw := Le64(s, 4);
    var at := 12;
    var energy := if f.energy then Le16(s, at) else prev.energy;
    var at := if f.energy then at + 2 else at;
    var calibrated := if f.calibrated then Le64(s, at) else prev.energyCalibrated;
    var at := if f.calibrated then at + 8 else at;
    var short := if f.short then Le16(s, at) else prev.energyShort;
    var at := if f.short then at + 2 else at;
    var flags := Le32(s, at);
    var at := at + 4;
    var waveCode := if f.waves then s[at] else prev.waveCode;
    var ns := if f.waves then Le32(s, at + 1) else prev.ns;
    var at := if f.waves then at + 5 + WaveBytes(ns) else at;
    var timestamp := match smap
      case None => raw
      case Some(shift) => Shifted(raw, shift(GlobalChannel(board, channel)));
    Parsed(Hit(board, channel, timestamp, energy, calibrated, short, flags, waveCode, ns), at)
  }

  /** Only the timestamp depends on the shift map: every other field and the
      cursor advance are those of the unshifted decode. */
  lemma ShiftTouchesOnlyTimestamp(prev: Hit, s: seq<byte>, f: HeaderFlags, shift: ShiftMap)
    requires |s| >= PreSampleSize(f)
    ensures
      var plain := ParseNextHit(prev, s, f, None);
      var shifted := ParseNextHit(prev, s, f, Some(shift));
      && shifted.advance == plain.advance
      && shifted.hit == plain.hit.(timestamp := Shifted(plain.hit.timestamp,
                                                        shift(GlobalChannel(plain.hit.board, plain.hit.channel))))
  {
  }

  /** A shift map whose every offset is 0 decodes exactly as no shift map. */
  lemma ZeroShiftIsNoShift(prev: Hit, s: seq<byte>, f: HeaderFlags, shift: ShiftMap)
    requires |s| >= PreSampleSize(f)
    requires forall g :: shift(g) == 0
    ensures ParseNextHit(prev, s, f, Some(shift)) == ParseNextHit(prev, s, f, None)
  {
  }

  /** Bytes that agree on a prefix agree on every field read inside it. */
  lemma SamePrefixReads(s: seq<byte>, t: seq<byte>, n: nat)
    requires n <= |s| && n <= |t| && s[..n] == t[..n]
    ensures forall k :: 0 <= k < n ==> s[k] == t[k]
    ensures forall at: nat :: at + 2 <= n ==> Le16(s, at) == Le16(t, at)
    ensures forall at: nat :: at + 4 <= n ==> Le32(s, at) == Le32(t, at)
    ensures forall at: nat :: at + 8 <= n ==> Le64(s, at) == Le64(t, at)
  {
    forall k | 0 <= k < n
      ensures s[k] == t[k]
    {
      assert s[k] == s[..n][k];
    }
  }

  /** The decode reads nothing past the fixed part of the record. */
  lemma ParseReadsOnlyFixedPart(prev: Hit, s: seq<byte>, t: seq<byte>, f: HeaderFlags, smap: Option<ShiftMap>)
    requires |s| >= PreSampleSize(f) && |t| >= PreSampleSize(f)
    requires s[..PreSampleSize(f)] == t[..PreSampleSize(f)]
    ensures ParseNextHit(prev, s, f, smap) == ParseNextHit(prev, t, f, smap)
  {
    SamePrefixReads(s, t, PreSampleSize(f));
  }

  /** The hit that decoding a record of `h` produces on top of `prev`: the
      fields the layout carries come from `h`, the others stay as in `prev`. */
  function Overlay(prev: Hit, h: Hit, f: HeaderFlags): Hit {
    Hit(h.board, h.channel, h.timestamp,
        if f.energy then h.energy else prev.energy,
        if f.calibrated then h.energyCalibrated else prev.energyCalibrated,
        if f.short then h.energyShort else prev.energyShort,
        h.flags,
        if f.waves then h.waveCode else prev.waveCode,
        if f.waves then h.ns else prev.ns)
  }

  /** The optional energy fields of `h` that the layout carries, in order. */
  function EnergyBytes(h: Hit, f: HeaderFlags): (r: seq<byte>)
    ensures |r| == OptionalBytes(f)
  {
    (if f.energy then ToLittleEndian(h.energy, 2) else [])
    + ((if f.calibrated then ToLittleEndian(h.energyCalibrated, 8) else [])
       + (if f.short then ToLittleEndian(h.energyShort, 2) else []))
  }

  /** The wave code, the sample count and the samples, when the layout has waves. */
  function TrailerBytes(h: Hit, f: HeaderFlags, samples: seq<byte>): seq<byte> {
    if f.waves then [h.waveCode] + (ToLittleEndian(h.ns, 4) + samples) else []
  }

  /** The bytes of one record of `h` in the layout `f`, followed by the given
      waveform samples when the layout carries waves. */
  function EncodeRecord(h: Hit, f: HeaderFlags, samples: seq<byte>): (r: seq<byte>)
    ensures |r| == PreSampleSize(f) + (if f.waves then |samples| else 0)
  {
    ToLittleEndian(h.board, 2)
    + (ToLittleEndian(h.channel, 2)
       + (ToLittleEndian(h.timestamp, 8)
          + (EnergyBytes(h, f)
             + (ToLittleEndian(h.flags, 4) + TrailerBytes(h, f, samples)))))
  }

  /** Splitting a concatenation back into its parts. */
  lemma SplitAppend<T>(a: seq<T>, b: seq<T>)
    ensures (a + b)[..|a|] == a && (a + b)[|a|..] == b
  {
  }

  lemma AppendAssoc<T>(a: seq<T>, b: seq<T>, c: seq<T>)
    ensures (a + b) + c == a + (b + c)
  {
  }

  /** A window of `s` is a prefix of a suffix of `s`. */
  lemma WindowOfSuffix<T>(s: seq<T>, at: nat, w: nat)
    requires at + w <= |s|
    ensures s[at..at + w] == s[at..][..w]
  {
  }

  /** Reading `w` bytes at `at` from a sequence whose suffix from `at` starts
      with the image of `x` gives back `x`. */
  lemma ReadField(s: seq<byte>, at: nat, x: nat, w: nat, tail: seq<byte>)
    requires at <= |s| && x < Pow256(w)
    requires s[at..] == ToLittleEndian(x, w) + tail
    ensures at + w <= |s| && FromLittleEndian(s[at..at + w]) == x
    ensures w == 2 ==> Le16(s, at) == x
    ensures w == 4 ==> Le32(s, at) == x
    ensures w == 8 ==> Le64(s, at) == x
  {
    SplitAppend(ToLittleEndian(x, w), tail);
    WindowOfSuffix(s, at, w);
    ReadAfterWrite(x, w);
    if w == 2 {
      Le16IsLittleEndian(s, at);
    } else if w == 4 {
      Le32IsLittleEndian(s, at);
    } else if w == 8 {
      Le64IsLittleEndian(s, at);
    }
  }

  /** Dropping `i` and then `j` elements drops `i + j`. */
  lemma DropDrop<T>(s: seq<T>, i: nat, j: nat)
    requires i + j <= |s|
    ensures s[i..][j..] == s[i + j..]
  {
  }

  /** The suffixes of an encoded record at each field boundary. */
  lemma EncodedSuffixes(h: Hit, f: HeaderFlags, samples: seq<byte>)
    ensures
      var s := EncodeRecord(h, f, samples);
      var fl := ToLittleEndian(h.flags, 4) + TrailerBytes(h, f, samples);
      var en := EnergyBytes(h, f) + fl;
      var ts := ToLittleEndian(h.timestamp, 8) + en;
      && s == ToLittleEndian(h.board, 2) + (ToLittleEndian(h.channel, 2) + ts)
      && s[2..] == ToLittleEndian(h.channel, 2) + ts
      && s[4..] == ts
      && s[12..] == en
      && s[FlagsOffset(f)..] == fl
      && s[FlagsOffset(f) + 4..] == TrailerBytes(h, f, samples)
  {
    var s := EncodeRecord(h, f, samples);
    var tr := TrailerBytes(h, f, samples);
    var fl := ToLittleEndian(h.flags, 4) + tr;
    var en := EnergyBytes(h, f) + fl;
    var ts := ToLittleEndian(h.timestamp, 8) + en;
    var ch := ToLittleEndian(h.channel, 2) + ts;
    SplitAppend(ToLittleEndian(h.board, 2), ch);
    SplitAppend(ToLittleEndian(h.channel, 2), ts);
    DropDrop(s, 2, 2);
    SplitAppend(ToLittleEndian(h.timestamp, 8), en);
    DropDrop(s, 4, 8);
    SplitAppend(EnergyBytes(h, f), fl);
    DropDrop(s, 12, OptionalBytes(f));
    SplitAppend(ToLittleEndian(h.flags, 4), tr);
    DropDrop(s, FlagsOffset(f), 4);
  }

  /** The suffixes of the energy bytes at each optional field. */
  lemma EnergySuffixes(h: Hit, f: HeaderFlags, tail: seq<byte>)
    ensures
      var s := EnergyBytes(h, f) + tail;
      var sh := (if f.short then ToLittleEndian(h.energyShort, 2) else []) + tail;
      var ca := (if f.calibrated then ToLittleEndian(h.energyCalibrated, 8) else []) + sh;
      && s == (if f.energy then ToLittleEndian(h.energy, 2) else []) + ca
      && s[CalibratedOffset(f) - EnergyOffset..] == ca
      && s[ShortOffset(f) - EnergyOffset..] == sh
  {
    var x := if f.energy then ToLittleEndian(h.energy, 2) else [];
    var y := if f.calibrated then ToLittleEndian(h.energyCalibrated, 8) else [];
    var z := if f.short then ToLittleEndian(h.energyShort, 2) else [];
    var sh := z + tail;
    var ca := y + sh;
    var s := EnergyBytes(h, f) + tail;
    assert EnergyBytes(h, f) == x + (y + z);
    AppendAssoc(x, y + z, tail);
    AppendAssoc(y, z, tail);
    assert CalibratedOffset(f) - EnergyOffset == |x|;
    assert ShortOffset(f) - EnergyOffset == |x| + |y|;
    SplitAppend(x, ca);
    SplitAppend(y, sh);
    DropDrop(s, |x|, |y|);
  }

  /** Board, channel and timestamp of an encoded record decode to the encoded values. */
  lemma DecodeEncodeHead(prev: Hit, h: Hit, f: HeaderFlags, samples: seq<byte>)
    ensures
      var s := EncodeRecord(h, f, samples);
      var r := ParseNextHit(prev, s, f, None).hit;
      r.board == h.board && r.channel == h.channel && r.timestamp == h.timestamp
  {
    Pow256Widths();
    var s := EncodeRecord(h, f, samples);
    var en := EnergyBytes(h, f) + (ToLittleEndian(h.flags, 4) + TrailerBytes(h, f, samples));
    var ts := ToLittleEndian(h.timestamp, 8) + en;
    EncodedSuffixes(h, f, samples);
    ReadField(s, 0, h.board, 2, ToLittleEndian(h.channel, 2) + ts);
    ReadField(s, 2, h.channel, 2, ts);
    ReadField(s, 4, h.timestamp, 8, en);
  }

  /** The optional energies of an encoded record decode to the encoded values. */
  lemma DecodeEncodeEnergies(prev: Hit, h: Hit, f: HeaderFlags, samples: seq<byte>)
    ensures
      var s := EncodeRecord(h, f, samples);
      var r := ParseNextHit(prev, s, f, None).hit;
      var o := Overlay(prev, h, f);
      r.energy == o.energy && r.energyCalibrated == o.energyCalibrated && r.energyShort == o.energyShort
  {
    Pow256Widths();
    var s := EncodeRecord(h, f, samples);
    var fl := ToLittleEndian(h.flags, 4) + TrailerBytes(h, f, samples);
    EncodedSuffixes(h, f, samples);
    EnergySuffixes(h, f, fl);
    DropDrop(s, 12, CalibratedOffset(f) - 12);
    DropDrop(s, 12, ShortOffset(f) - 12);
    var sh := (if f.short then ToLittleEndian(h.energyShort, 2) else []) + fl;
    var ca := (if f.calibrated then ToLittleEndian(h.energyCalibrated, 8) else []) + sh;
    if f.energy {
      ReadField(s, 12, h.energy, 2, ca);
    }
    if f.calibrated {
      ReadField(s, CalibratedOffset(f), h.energyCalibrated, 8, sh);
    }
    if f.short {
      ReadField(s, ShortOffset(f), h.energyShort, 2, fl);
    }
  }

  /** The flags of an encoded record decode to the encoded value. */
  lemma DecodeEncodeFlags(prev: Hit, h: Hit, f: HeaderFlags, samples: seq<byte>)
    ensures ParseNextHit(prev, EncodeRecord(h, f, samples), f, None).hit.flags == h.flags
  {
    Pow256Widths();
    var s := EncodeRecord(h, f, samples);
    EncodedSuffixes(h, f, samples);
    ReadField(s, FlagsOffset(f), h.flags, 4, TrailerBytes(h, f, samples));
  }

  /** Wave code and sample count decode to the values the trailer holds, and
      the cursor moves past the samples the count announces. */
  lemma DecodeTrailer(prev: Hit, s: seq<byte>, h: Hit, f: HeaderFlags, samples: seq<byte>)
    requires f.waves && |s| >= PreSampleSize(f)
    requires s[WaveCodeOffset(f)..] == TrailerBytes(h, f, samples)
    requires |samples| == WaveBytes(h.ns)
    ensures
      var p := ParseNextHit(prev, s, f, None);
      && p.hit.waveCode == h.waveCode && p.hit.ns == h.ns
      && p.advance == PreSampleSize(f) + |samples|
  {
    Pow256Widths();
    var wo := WaveCodeOffset(f);
    SplitAppend([h.waveCode], ToLittleEndian(h.ns, 4) + samples);
    DropDrop(s, wo, 1);
    assert s[wo] == s[wo..][0];
    ReadField(s, wo + 1, h.ns, 4, samples);
  }

  /** Wave code and sample count decode to the encoded values, and the cursor
      moves past the whole record. */
  lemma DecodeEncodeTail(prev: Hit, h: Hit, f: HeaderFlags, samples: seq<byte>)
    requires f.waves ==> |samples| == WaveBytes(h.ns)
    ensures
      var s := EncodeRecord(h, f, samples);
      var p := ParseNextHit(prev, s, f, None);
      var o := Overlay(prev, h, f);
      && p.hit.waveCode == o.waveCode && p.hit.ns == o.ns
      && p.advance == |s|
  {
    if f.waves {
      EncodedSuffixes(h, f, samples);
      DecodeTrailer(prev, EncodeRecord(h, f, samples), h, f, samples);
    }
  }

  /** Round trip: decoding an encoded record gives the encoded fields (and
      keeps the fields the layout lacks), and the cursor moves exactly past the
      record whenever its samples are as long as its sample count says. */
  lemma DecodeEncode(prev: Hit, h: Hit, f: HeaderFlags, samples: seq<byte>)
    requires f.waves ==> |samples| == WaveBytes(h.ns)
    ensures
      var bytes := EncodeRecord(h, f, samples);
      && |bytes| >= PreSampleSize(f)
      && ParseNextHit(prev, bytes, f, None) == Parsed(Overlay(prev, h, f), |bytes|)
  {
    DecodeEncodeHead(prev, h, f, samples);
    DecodeEncodeEnergies(prev, h, f, samples);
    DecodeEncodeFlags(prev, h, f, samples);
    DecodeEncodeTail(prev, h, f, samples);
  }

  /** The round trip holds with any bytes after the record. */
  lemma DecodeEncodeThenMore(prev: Hit, h: Hit, f: HeaderFlags, samples: seq<byte>, rest: seq<byte>)
    requires f.waves ==> |samples| == WaveBytes(h.ns)
    ensures
      var bytes := EncodeRecord(h, f, samples);
      && |bytes + rest| >= PreSampleSize(f)
      && ParseNextHit(prev, bytes + rest, f, None) == Parsed(Overlay(prev, h, f), |bytes|)
  {
    var bytes := EncodeRecord(h, f, samples);
    DecodeEncode(prev, h, f, samples);
    assert (bytes + rest)[..PreSampleSize(f)] == bytes[..PreSampleSize(f)];
    ParseReadsOnlyFixedPart(prev, bytes + rest, bytes, f, None);
  }
}
