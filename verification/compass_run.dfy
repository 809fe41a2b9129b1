/** The file handling of CompassRun (src/evb/CompassRun.cpp): counting the
    hits of scaler files and opening the data files for the merge. The list
    of files in the workspace, the scaler map built by SetScalers and the
    file system are parameters. */
module CompassRun {
  import opened Bytes
  import opened Results
  import opened Layout
  import opened Records
  import opened CompassFile
  import opened DecoderProofs
  import HitSource
  import MergeScan
  import Merge

  /** The scaler counts, by the full path of the scaler file. */
  type ScalerMap = map<string, int>

  // ---------------------------------------------------------------------
  // Every GetNextHit that does not reach end of stream makes progress

  /** How far the buffer cursor may still move before it leaves the buffer. */
  function CursorRoom(d: Decoder): nat {
    if d.iter <= |d.buffer| then |d.buffer| - d.iter + 1 else 0
  }

  /** A call of GetNextHit that delivers a hit either reads on in the file or
      moves the cursor on in the buffer, so a loop of calls ends. */
  lemma GetNextHitProgress(d: Decoder, smap: Option<ShiftMap>)
    requires Valid(d) && GetNextHit(d, smap).Ok? && !GetNextHit(d, smap).value.atEof
    ensures var e := GetNextHit(d, smap).value.file;
      && d.open && !d.eof && !e.eof && e.data == d.data
      && (d.pos < e.pos || (d.pos == e.pos && CursorRoom(e) < CursorRoom(d)))
  {
  }

  /** One call of GetNextHit in the counting loop of ReadScalerData
      (lines 125-131): a delivered hit moves the decoder one record on and
      makes progress; on a well-formed file the end of stream comes exactly
      after the last record. */
  method CountingStep(d0: Decoder, d: Decoder, ghost hits: seq<Hit>, ghost count: nat, ghost wellFormed: bool)
    returns (st: Result<Step>)
    requires Valid(d) && SameFile(d0, d)
    requires wellFormed ==> Tracks(d, hits, count) && hits == FileHits(d0, None)
    ensures wellFormed ==> st.Ok?
    ensures st.Ok? ==> Valid(st.value.file)
    ensures st.Ok? && st.value.atEof && wellFormed ==> count == |hits|
    ensures st.Ok? && !st.value.atEof ==>
      && d.open && !d.eof && !st.value.file.eof && SameFile(d0, st.value.file)
      && (d.pos < st.value.file.pos || (d.pos == st.value.file.pos && CursorRoom(st.value.file) < CursorRoom(d)))
      && (wellFormed ==> Tracks(st.value.file, hits, count + 1))
  {
    st := GetNextHit(d, None);
    if wellFormed {
      assert FileHits(d, None) == FileHits(d0, None);
      GetNextHitStep(d, hits, count, None);
    }
    if st.Ok? && !st.value.atEof {
      GetNextHitProgress(d, None);
    }
  }

  /** The number of whole records after the header of a file, or 0 when
      the file cannot be opened or its header not read. */
  function ImageRecords(img: FileImage, flagsOf: u16 -> HeaderFlags): nat {
    match img
    case Unopenable => 0
    case Contents(data) =>
      if |data| == HeaderSize then 0
      else
        match ReadHeader(data, flagsOf)
        case Failed(_) => 0
        case Ok(hd) => WholeRecords(|data| - HeaderSize, hd.hitSize)
  }

  /** A file holds as many hits as whole records. */
  lemma ImageRecordsCount(img: FileImage, flagsOf: u16 -> HeaderFlags, smap: Option<ShiftMap>)
    ensures |ImageHits(img, flagsOf, smap)| == ImageRecords(img, flagsOf)
  {
  }

  // ---------------------------------------------------------------------
  // ReadScalerData

  /** The loop of ReadScalerData (lines 123-131): call GetNextHit until it
      reports end of stream and count the hits delivered. On a well-formed
      file that has delivered none yet, the count is the number of its
      records. */
  method CountHits(d0: Decoder, ghost hits: seq<Hit>, ghost wellFormed: bool) returns (r: Result<nat>)
    requires Valid(d0) && (wellFormed ==> Tracks(d0, hits, 0) && hits == FileHits(d0, None))
    ensures wellFormed ==> r == Ok(|hits|)
  {
    var d := d0;
    var count: nat := 0;
    while true
      invariant Valid(d) && SameFile(d0, d)
      invariant wellFormed ==> Tracks(d, hits, count)
      decreases (if d.eof then 0 else 1), |d.data| - d.pos, CursorRoom(d)
    {
      var st := CountingStep(d0, d, hits, count, wellFormed);
      if st.Failed? {
        return Failed(st.fault);
      }
      // The source tests `file.IsEOF()`. For an open file that is the flag
      // GetNextHit returns (its contract); a file Open could not open is
      // already at end of stream, and GetNextHit returns true for it too.
      if st.value.atEof {
        return Ok(count);
      }
      d := st.value.file;
      count := count + 1;
    }
  }

  /** ReadScalerData (lines 114-133): with scalers on, open the scaler file
      (without a shift map), count the hits GetNextHit delivers until end of
      stream, and record the count under the file's name. For a well-formed
      file that is its number of whole records, m_nHits. */
  method ReadScalerData(scalers: ScalerMap, scalerFlag: bool, name: string, img: FileImage, bufsize: nat,
                        flagsOf: u16 -> HeaderFlags)
    returns (r: Result<ScalerMap>)
    requires bufsize > 0
    ensures !scalerFlag ==> r == Ok(scalers)
    ensures r.Ok? ==> r.value.Keys == scalers.Keys + (if scalerFlag then {name} else {})
    ensures r.Ok? ==> forall n | n in scalers && n != name :: r.value[n] == scalers[n]
    ensures scalerFlag && (img.Contents? ==> WellFormed(img.bytes, flagsOf)) ==>
      && r == Ok(scalers[name := ImageRecords(img, flagsOf)])
      && r.value[name] == |ImageHits(img, flagsOf, None)|
      && Open(name, img, bufsize, flagsOf).Ok?
      && r.value[name] == Open(name, img, bufsize, flagsOf).value.nHits
  {
    if !scalerFlag {
      return Ok(scalers);
    }
    var attempt := Open(name, img, bufsize, flagsOf);
    if attempt.Failed? {
      return Failed(attempt.fault);
    }
    ghost var wellFormed := img.Contents? ==> WellFormed(img.bytes, flagsOf);
    if wellFormed {
      OpenTracks(name, img, bufsize, flagsOf, None);
    }
    var count :- CountHits(attempt.value, ImageHits(img, flagsOf, None), wellFormed);
    ImageRecordsCount(img, flagsOf, None);
    r := Ok(scalers[name := count]);
  }

  // ---------------------------------------------------------------------
  // GetBinaryFiles

  /** What GetBinaryFiles leaves: whether it succeeded, the data files opened
      (m_datafiles), the hit total (m_totalHits) and the scaler counts. */
  datatype Loaded = Loaded(ok: bool, files: seq<Decoder>, totalHits: nat, scalers: ScalerMap)

  /** The workspace files GetBinaryFiles treats as data files: all of them,
      except, with scalers on, the scaler files. */
  function DataEntries(entries: seq<string>, scalerFlag: bool, keys: set<string>): (r: seq<string>)
    ensures |r| <= |entries|
    ensures forall n | n in r :: n in entries && !(scalerFlag && n in keys)
  {
    if |entries| == 0 then []
    else
      var e := entries[|entries| - 1];
      DataEntries(entries[..|entries| - 1], scalerFlag, keys) + (if scalerFlag && e in keys then [] else [e])
  }

  /** The sum of the files' hit counts. */
  function SumHits(files: seq<Decoder>): nat {
    if |files| == 0 then 0 else SumHits(files[..|files| - 1]) + files[|files| - 1].nHits
  }

  /** Entries before `i` are data entries in order. */
  lemma DataEntriesStep(entries: seq<string>, i: nat, scalerFlag: bool, keys: set<string>)
    requires i < |entries|
    ensures DataEntries(entries[..i + 1], scalerFlag, keys) ==
      DataEntries(entries[..i], scalerFlag, keys) + (if scalerFlag && entries[i] in keys then [] else [entries[i]])
  {
    assert entries[..i + 1][..i] == entries[..i];
  }

  /** The data entries of a prefix of the workspace list are a prefix of its
      data entries. */
  lemma {:induction false} DataEntriesPrefix(entries: seq<string>, i: nat, scalerFlag: bool, keys: set<string>)
    requires i <= |entries|
    ensures var p := DataEntries(entries[..i], scalerFlag, keys);
      var q := DataEntries(entries, scalerFlag, keys);
      |p| <= |q| && p == q[..|p|]
    decreases |entries| - i
  {
    if i < |entries| {
      DataEntriesStep(entries, i, scalerFlag, keys);
      DataEntriesPrefix(entries, i + 1, scalerFlag, keys);
      var p := DataEntries(entries[..i], scalerFlag, keys);
      var p1 := DataEntries(entries[..i + 1], scalerFlag, keys);
      var q := DataEntries(entries, scalerFlag, keys);
      assert p1[..|p|] == p;
      assert q[..|p1|][..|p|] == q[..|p|];
    } else {
      assert entries[..i] == entries;
    }
  }

  /** The data files as opened so far, and whether all of them are open. */
  datatype Opening = Opening(ok: bool, files: seq<Decoder>)

  /** Open the data files `names` in order, stopping after the first one that
      is not open: the data-file half of GetBinaryFiles. */
  function OpenAll(names: seq<string>, fs: string -> FileImage, bufsize: nat, flagsOf: u16 -> HeaderFlags)
    : Result<Opening>
    requires bufsize > 0
  {
    if |names| == 0 then Ok(Opening(true, []))
    else
      var before :- OpenAll(names[..|names| - 1], fs, bufsize, flagsOf);
      if !before.ok then Ok(before)
      else
        var n := names[|names| - 1];
        var d :- Open(n, fs(n), bufsize, flagsOf);
        Ok(Opening(d.open, before.files + [d]))
  }

  /** What OpenAll yields: the files are the named files opened in order;
      all of them are opened and open exactly when every named file can be
      opened; otherwise the last one opened is the first that is not open. */
  lemma {:induction false} OpenAllFacts(names: seq<string>, fs: string -> FileImage, bufsize: nat,
                                        flagsOf: u16 -> HeaderFlags)
    requires bufsize > 0 && OpenAll(names, fs, bufsize, flagsOf).Ok?
    ensures var o := OpenAll(names, fs, bufsize, flagsOf).value;
      && |o.files| <= |names|
      && (forall j | 0 <= j < |o.files| :: Open(names[j], fs(names[j]), bufsize, flagsOf) == Ok(o.files[j]))
      && (o.ok <==> |o.files| == |names| && forall j | 0 <= j < |names| :: fs(names[j]).Contents?)
      && (!o.ok ==> o.files != [] && !o.files[|o.files| - 1].open
                    && forall j | 0 <= j < |o.files| - 1 :: o.files[j].open)
  {
    if |names| > 0 {
      var init := names[..|names| - 1];
      OpenAllFacts(init, fs, bufsize, flagsOf);
      var before := OpenAll(init, fs, bufsize, flagsOf).value;
      if before.ok {
        var n := names[|names| - 1];
        var d := Open(n, fs(n), bufsize, flagsOf).value;
        var o := OpenAll(names, fs, bufsize, flagsOf).value;
        assert o.files == before.files + [d];
        forall j | 0 <= j < |o.files|
          ensures Open(names[j], fs(names[j]), bufsize, flagsOf) == Ok(o.files[j])
        {
          if j < |before.files| {
            assert names[j] == init[j];
          }
        }
        if !o.ok {
          assert !fs(names[|o.files| - 1]).Contents?;
        }
      }
    }
  }

  /** Once a data file fails to open, later entries change nothing. */
  lemma {:induction false} OpenAllRest(entries: seq<string>, i: nat, scalerFlag: bool, keys: set<string>,
                                       fs: string -> FileImage, bufsize: nat, flagsOf: u16 -> HeaderFlags)
    requires i <= |entries| && bufsize > 0
    requires var o := OpenAll(DataEntries(entries[..i], scalerFlag, keys), fs, bufsize, flagsOf);
      o.Ok? && !o.value.ok
    ensures OpenAll(DataEntries(entries, scalerFlag, keys), fs, bufsize, flagsOf)
         == OpenAll(DataEntries(entries[..i], scalerFlag, keys), fs, bufsize, flagsOf)
    decreases |entries| - i
  {
    if i < |entries| {
      DataEntriesStep(entries, i, scalerFlag, keys);
      var p := DataEntries(entries[..i], scalerFlag, keys);
      var q := DataEntries(entries[..i + 1], scalerFlag, keys);
      if q != p {
        assert q[..|q| - 1] == p;
      }
      OpenAllRest(entries, i + 1, scalerFlag, keys, fs, bufsize, flagsOf);
    } else {
      assert entries[..i] == entries;
    }
  }

  /** Every scaler file, if it can be opened, is well formed. */
  ghost predicate ScalersWellFormed(scalers: ScalerMap, fs: string -> FileImage, flagsOf: u16 -> HeaderFlags) {
    forall n | n in scalers :: fs(n).Contents? ==> WellFormed(fs(n).bytes, flagsOf)
  }

  /** The state of GetBinaryFiles after the first `i` workspace files, with
      every data file among them open. */
  ghost predicate LoadedUpTo(entries: seq<string>, i: nat, scalerFlag: bool, scalers: ScalerMap,
                             fs: string -> FileImage, bufsize: nat, flagsOf: u16 -> HeaderFlags, st: Loaded)
    requires bufsize > 0
  {
    && i <= |entries| && st.ok
    && st.totalHits == SumHits(st.files)
    && OpenAll(DataEntries(entries[..i], scalerFlag, scalers.Keys), fs, bufsize, flagsOf) == Ok(Opening(true, st.files))
    && st.scalers.Keys == scalers.Keys
    && (!scalerFlag ==> st.scalers == scalers)
    && (scalerFlag && ScalersWellFormed(scalers, fs, flagsOf) ==>
          forall n | n in scalers ::
            st.scalers[n] == if n in entries[..i] then ImageRecords(fs(n), flagsOf) else scalers[n])
  }

  /** A workspace file GetBinaryFiles takes without undefined behaviour: with
      scalers on, a scaler file that is well formed or cannot be opened;
      any other file, one that Open can open or report as not open. */
  ghost predicate Loadable(n: string, scalerFlag: bool, scalers: ScalerMap, fs: string -> FileImage,
                           bufsize: nat, flagsOf: u16 -> HeaderFlags)
    requires bufsize > 0
  {
    if scalerFlag && n in scalers then fs(n).Contents? ==> WellFormed(fs(n).bytes, flagsOf)
    else Open(n, fs(n), bufsize, flagsOf).Ok?
  }

  /** A scaler file, once counted, leaves the data files as they are and
      sets its own count. */
  lemma ScalerFileCounted(entries: seq<string>, i: nat, scalerFlag: bool, scalers: ScalerMap, fs: string -> FileImage,
                          bufsize: nat, flagsOf: u16 -> HeaderFlags, st: Loaded, counts: ScalerMap)
    requires bufsize > 0 && i < |entries| && LoadedUpTo(entries, i, scalerFlag, scalers, fs, bufsize, flagsOf, st)
    requires scalerFlag && entries[i] in st.scalers
    requires counts.Keys == st.scalers.Keys
    requires ScalersWellFormed(scalers, fs, flagsOf) ==>
      counts == st.scalers[entries[i] := ImageRecords(fs(entries[i]), flagsOf)]
    ensures LoadedUpTo(entries, i + 1, scalerFlag, scalers, fs, bufsize, flagsOf, st.(scalers := counts))
  {
    DataEntriesStep(entries, i, scalerFlag, scalers.Keys);
    assert DataEntries(entries[..i + 1], scalerFlag, scalers.Keys) == DataEntries(entries[..i], scalerFlag, scalers.Keys);
    if ScalersWellFormed(scalers, fs, flagsOf) {
      CountsStep(entries, i, scalers, st.scalers, counts, fs, flagsOf);
    }
  }

  /** Lines 79-94: a scaler file is counted and leaves the data files as
      they are. */
  method LoadScaler(entries: seq<string>, i: nat, scalerFlag: bool, scalers: ScalerMap, fs: string -> FileImage,
                    bufsize: nat, flagsOf: u16 -> HeaderFlags, st: Loaded)
    returns (r: Result<Loaded>)
    requires bufsize > 0 && i < |entries| && LoadedUpTo(entries, i, scalerFlag, scalers, fs, bufsize, flagsOf, st)
    requires scalerFlag && entries[i] in st.scalers
    ensures r.Ok? ==> LoadedUpTo(entries, i + 1, scalerFlag, scalers, fs, bufsize, flagsOf, r.value)
    ensures Loadable(entries[i], scalerFlag, scalers, fs, bufsize, flagsOf) ==> r.Ok?
  {
    var e := entries[i];
    var counts :- ReadScalerData(st.scalers, scalerFlag, e, fs(e), bufsize, flagsOf);
    ScalerFileCounted(entries, i, scalerFlag, scalers, fs, bufsize, flagsOf, st, counts);
    r := Ok(st.(scalers := counts));
  }

  /** The scaler counts after one more scaler file. */
  lemma CountsStep(entries: seq<string>, i: nat, scalers: ScalerMap, before: ScalerMap, after: ScalerMap,
                   fs: string -> FileImage, flagsOf: u16 -> HeaderFlags)
    requires i < |entries| && entries[i] in scalers && before.Keys == scalers.Keys
    requires forall n | n in scalers ::
      before[n] == if n in entries[..i] then ImageRecords(fs(n), flagsOf) else scalers[n]
    requires after == before[entries[i] := ImageRecords(fs(entries[i]), flagsOf)]
    ensures after.Keys == scalers.Keys
    ensures forall n | n in scalers ::
      after[n] == if n in entries[..i + 1] then ImageRecords(fs(n), flagsOf) else scalers[n]
  {
    assert entries[..i + 1] == entries[..i] + [entries[i]];
  }

  /** Opening one more data file extends OpenAll by that file. */
  lemma OpenAllAppend(names: seq<string>, e: string, fs: string -> FileImage, bufsize: nat,
                      flagsOf: u16 -> HeaderFlags, files: seq<Decoder>, d: Decoder)
    requires bufsize > 0
    requires OpenAll(names, fs, bufsize, flagsOf) == Ok(Opening(true, files))
    requires Open(e, fs(e), bufsize, flagsOf) == Ok(d)
    ensures OpenAll(names + [e], fs, bufsize, flagsOf) == Ok(Opening(d.open, files + [d]))
  {
    assert (names + [e])[..|names|] == names;
  }

  lemma SumHitsAppend(files: seq<Decoder>, d: Decoder)
    ensures SumHits(files + [d]) == SumHits(files) + d.nHits
  {
    assert (files + [d])[..|files|] == files;
  }

  /** A data file leaves the scaler counts as they are. */
  lemma CountsSkip(entries: seq<string>, i: nat, scalers: ScalerMap, counts: ScalerMap,
                   fs: string -> FileImage, flagsOf: u16 -> HeaderFlags)
    requires i < |entries| && entries[i] !in scalers && counts.Keys == scalers.Keys
    requires forall n | n in scalers ::
      counts[n] == if n in entries[..i] then ImageRecords(fs(n), flagsOf) else scalers[n]
    ensures forall n | n in scalers ::
      counts[n] == if n in entries[..i + 1] then ImageRecords(fs(n), flagsOf) else scalers[n]
  {
    assert entries[..i + 1] == entries[..i] + [entries[i]];
  }

  /** A data file that is not open ends the walk: the files opened so far
      and it are all OpenAll gives for the whole workspace, and it adds no
      hits. */
  lemma DataFileStops(entries: seq<string>, i: nat, scalerFlag: bool, scalers: ScalerMap, fs: string -> FileImage,
                      bufsize: nat, flagsOf: u16 -> HeaderFlags, st: Loaded, d: Decoder)
    requires bufsize > 0 && i < |entries| && LoadedUpTo(entries, i, scalerFlag, scalers, fs, bufsize, flagsOf, st)
    requires !(scalerFlag && entries[i] in st.scalers)
    requires Open(entries[i], fs(entries[i]), bufsize, flagsOf) == Ok(d) && !d.open
    ensures OpenAll(DataEntries(entries, scalerFlag, scalers.Keys), fs, bufsize, flagsOf) == Ok(Opening(false, st.files + [d]))
    ensures SumHits(st.files + [d]) == st.totalHits
  {
    DataEntriesStep(entries, i, scalerFlag, scalers.Keys);
    OpenAllAppend(DataEntries(entries[..i], scalerFlag, scalers.Keys), entries[i], fs, bufsize, flagsOf, st.files, d);
    SumHitsAppend(st.files, d);
    OpenAllRest(entries, i + 1, scalerFlag, scalers.Keys, fs, bufsize, flagsOf);
  }

  /** A data file that is open joins the files, its hits join the total, and
      the scaler counts stay as they are. */
  lemma DataFileJoins(entries: seq<string>, i: nat, scalerFlag: bool, scalers: ScalerMap, fs: string -> FileImage,
                      bufsize: nat, flagsOf: u16 -> HeaderFlags, st: Loaded, d: Decoder)
    requires bufsize > 0 && i < |entries| && LoadedUpTo(entries, i, scalerFlag, scalers, fs, bufsize, flagsOf, st)
    requires !(scalerFlag && entries[i] in st.scalers)
    requires Open(entries[i], fs(entries[i]), bufsize, flagsOf) == Ok(d) && d.open
    ensures LoadedUpTo(entries, i + 1, scalerFlag, scalers, fs, bufsize, flagsOf,
                       st.(files := st.files + [d], totalHits := st.totalHits + d.nHits))
  {
    DataEntriesStep(entries, i, scalerFlag, scalers.Keys);
    OpenAllAppend(DataEntries(entries[..i], scalerFlag, scalers.Keys), entries[i], fs, bufsize, flagsOf, st.files, d);
    SumHitsAppend(st.files, d);
    if scalerFlag && ScalersWellFormed(scalers, fs, flagsOf) {
      CountsSkip(entries, i, scalers, st.scalers, fs, flagsOf);
    }
  }

  /** Lines 96-105: a data file is opened; if it is not open the walk stops,
      and the later files change nothing. */
  method LoadData(entries: seq<string>, i: nat, scalerFlag: bool, scalers: ScalerMap, fs: string -> FileImage,
                  bufsize: nat, flagsOf: u16 -> HeaderFlags, st: Loaded)
    returns (r: Result<Loaded>)
    requires bufsize > 0 && i < |entries| && LoadedUpTo(entries, i, scalerFlag, scalers, fs, bufsize, flagsOf, st)
    requires !(scalerFlag && entries[i] in st.scalers)
    ensures r.Ok? <==> Open(entries[i], fs(entries[i]), bufsize, flagsOf).Ok?
    ensures r.Ok? ==> (r.value.ok <==> fs(entries[i]).Contents?)
    ensures r.Ok? && r.value.ok ==> LoadedUpTo(entries, i + 1, scalerFlag, scalers, fs, bufsize, flagsOf, r.value)
    ensures r.Ok? && !r.value.ok ==>
      && OpenAll(DataEntries(entries, scalerFlag, scalers.Keys), fs, bufsize, flagsOf) == Ok(Opening(false, r.value.files))
      && r.value.totalHits == SumHits(r.value.files)
      && r.value.scalers == st.scalers
  {
    var e := entries[i];
    var d :- Open(e, fs(e), bufsize, flagsOf);
    if !d.open {
      DataFileStops(entries, i, scalerFlag, scalers, fs, bufsize, flagsOf, st, d);
      r := Ok(st.(ok := false, files := st.files + [d]));
    } else {
      DataFileJoins(entries, i, scalerFlag, scalers, fs, bufsize, flagsOf, st, d);
      r := Ok(st.(files := st.files + [d], totalHits := st.totalHits + d.nHits));
    }
  }

  /** GetBinaryFiles (lines 66-109): walk the workspace files in order; with
      scalers on, a scaler file is counted by ReadScalerData; any other file
      is opened as a data file, and the walk stops with failure at the first
      one that is not open; otherwise its hit count adds to the total. */
  method GetBinaryFiles(entries: seq<string>, scalerFlag: bool, scalers: ScalerMap, fs: string -> FileImage,
                        bufsize: nat, flagsOf: u16 -> HeaderFlags)
    returns (r: Result<Loaded>)
    requires bufsize > 0
    ensures r.Ok? ==>
      && OpenAll(DataEntries(entries, scalerFlag, scalers.Keys), fs, bufsize, flagsOf) == Ok(Opening(r.value.ok, r.value.files))
      && r.value.totalHits == SumHits(r.value.files)
    ensures r.Ok? ==> r.value.scalers.Keys == scalers.Keys
    ensures r.Ok? && !scalerFlag ==> r.value.scalers == scalers
    ensures r.Ok? && r.value.ok && scalerFlag && ScalersWellFormed(scalers, fs, flagsOf) ==>
      forall n | n in scalers :: r.value.scalers[n] == if n in entries then ImageRecords(fs(n), flagsOf) else scalers[n]
    ensures (forall n | n in entries :: Loadable(n, scalerFlag, scalers, fs, bufsize, flagsOf)) ==> r.Ok?
  {
    var st := Loaded(true, [], 0, scalers);
    var i := 0;
    while i < |entries|
      invariant LoadedUpTo(entries, i, scalerFlag, scalers, fs, bufsize, flagsOf, st)
    {
      assert entries[i] in entries;
      var next;
      if scalerFlag && entries[i] in st.scalers {
        next :- LoadScaler(entries, i, scalerFlag, scalers, fs, bufsize, flagsOf, st);
      } else {
        next :- LoadData(entries, i, scalerFlag, scalers, fs, bufsize, flagsOf, st);
      }
      if !next.ok {
        return Ok(next);
      }
      st := next;
      i := i + 1;
    }
    assert entries[..i] == entries;
    return Ok(st);
  }

  // ---------------------------------------------------------------------
  // From the opened data files to the merge

  /** A data file as the merge sees it: the records of its file, none
      delivered yet. */
  function SourceOf(d: Decoder, smap: Option<ShiftMap>): HitSource.Source {
    Abs(d, FileHits(d, smap), 0)
  }

  /** The merge's view of all data files. */
  function SourcesOf(files: seq<Decoder>, smap: Option<ShiftMap>): (r: seq<HitSource.Source>)
    ensures |r| == |files| && forall j | 0 <= j < |files| :: r[j] == SourceOf(files[j], smap)
  {
    seq(|files|, j requires 0 <= j < |files| => SourceOf(files[j], smap))
  }

  /** Hit counts that match the records add up to the records. */
  lemma {:induction false} SumHitsIsLengths(files: seq<Decoder>, runs: seq<seq<Hit>>)
    requires |runs| == |files| && forall j | 0 <= j < |files| :: files[j].nHits == |runs[j]|
    ensures SumHits(files) == Merge.Lengths(runs)
  {
    if |files| > 0 {
      SumHitsIsLengths(files[..|files| - 1], runs[..|runs| - 1]);
    }
  }

  /** The data files GetBinaryFiles opens, when well formed, are decoders
      that track their records from the start (so that each behaves as its
      abstract source under GetNextHit), each source is fresh, and the hit
      total m_totalHits is the number of hits the merge has to deliver. */
  lemma LoadedSources(names: seq<string>, fs: string -> FileImage, bufsize: nat, flagsOf: u16 -> HeaderFlags,
                      smap: Option<ShiftMap>, files: seq<Decoder>)
    requires bufsize > 0 && OpenAll(names, fs, bufsize, flagsOf) == Ok(Opening(true, files))
    requires forall j | 0 <= j < |names| :: fs(names[j]).Contents? ==> WellFormed(fs(names[j]).bytes, flagsOf)
    ensures forall j | 0 <= j < |files| ::
      && Tracks(files[j], FileHits(files[j], smap), 0)
      && SourceOf(files[j], smap) == HitSource.Fresh(FileHits(files[j], smap), files[j].eof)
      && files[j].nHits == |FileHits(files[j], smap)|
    ensures MergeScan.AllValid(SourcesOf(files, smap))
    ensures |Merge.PendingAll(SourcesOf(files, smap))| == SumHits(files)
  {
    OpenAllFacts(names, fs, bufsize, flagsOf);
    var srcs := SourcesOf(files, smap);
    forall j | 0 <= j < |files|
      ensures && Tracks(files[j], FileHits(files[j], smap), 0)
              && SourceOf(files[j], smap) == HitSource.Fresh(FileHits(files[j], smap), files[j].eof)
              && files[j].nHits == |FileHits(files[j], smap)|
              && HitSource.Pending(srcs[j]) == FileHits(files[j], smap)
    {
      OpenTracks(names[j], fs(names[j]), bufsize, flagsOf, smap);
      HitSource.FreshPending(FileHits(files[j], smap), files[j].eof);
    }
    var runs := Merge.PendingOf(srcs);
    SumHitsIsLengths(files, runs);
    Merge.UnionSize(runs);
  }
}
