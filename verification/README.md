# CoMPASS event builder: binary hit decoding and time-ordered merge

This project is a Dafny model of the part of SPS_CATRiNA_EventBuilder that
turns a run's CoMPASS binary files into one time-ordered stream of hits.

- **`CompassFile`** opens one `.BIN` file. Its two-byte header word says
  which optional fields each record carries:
  - energy (2 bytes);
  - calibrated energy (8 bytes);
  - short energy (2 bytes);
  - a waveform trailer of wave code, sample count and samples.

  It computes the record size, probing the first record for the sample count
  when waveforms are on. It counts the hits. It refills a buffer of
  `m_bufsize` records and decodes one record per `GetNextHit`, adding the
  time shift of the hit's global channel (`channel + 16 * board`) modulo 2^64.
- **`CompassRun`** does three things:
  - sorts the workspace files into scaler files, whose records it only
    counts, and data files, which it opens and whose hit counts it adds up;
  - merges the data files with `GetHitsFromFiles`. Each call advances every
    file whose hit was consumed, retires exhausted files at the low-water mark
    `startIndex`, and hands out the earliest current hit. The first of equal
    timestamps wins;
  - repeats that call in the `Convert2RawRoot` loop until nothing is left.

## Modules

- **`Bytes`**, **`Records`** and **`Arith`**: little-endian reads, and the
  arithmetic of whole records.
- **`Layout`**: the record layout, `ParseNextHit`, and an encoder that is its
  inverse.
- **`CompassFile`**: the decoder state. The open and refill steps each come
  twice: as written, and corrected.
- **`DecoderProofs`** proves that the corrected decoder behaves, call by call,
  like an abstract stream of its file's records. That stream is `HitSource`.
- **`MergeScan`** and **`Merge`**: the merge over abstract streams.
- **`CompassRun`**: scaler counting, `GetBinaryFiles`, and the link from the
  opened files to the merge.
- **`Findings`**: the five defects listed below, and the files on which the
  code as written still behaves like the corrected code.

## What the model abstracts

- **The file system** is a function from path to `FileImage`: either
  `Unopenable`, or the file's bytes. An `ifstream` becomes a read position and
  an eof bit over those bytes. The buffer pointers become offsets into the
  buffer.
- **Unseen header-file inputs** are parameters:
  - the header flag predicates (`IsEnergy`, `IsEnergyCalibrated`,
    `IsEnergyShort`, `IsWaves`) are a function `flagsOf` from the header word
    to four booleans;
  - the shift map's `GetShift` is an `int -> int`, attached or not;
  - `m_bufsize` is a positive parameter.
- **Undefined behaviour is a `Fault`.** This covers:
  - a division by zero;
  - reading a header or probe record the file does not hold;
  - parsing past the end of the buffer;
  - a `delete[]` of a pointer that `new[]` did not return.

The decoder's `GetNextHit` does not test the used flag itself; the caller,
`GetHitsFromFiles`, does.

The fields of a decoded hit are the widths `ParseNextHit` reads, because the
`CompassHit` declaration is not part of this model:
- the timestamp and the calibrated energy are 64-bit;
- board, channel, energy and short energy are 16-bit;
- the flags and the sample count `Ns` are 32-bit;
- the wave code is 8-bit.

## Model

| member | source | states |
|---|---|---|
| Layout.Shifted | src/evb/CompassFile.cpp:197-198 | the stored timestamp equals raw timestamp plus shift, modulo 2^64 |
| Layout.ParseNextHit | src/evb/CompassFile.cpp:155-200 | each field is read little-endian at its fixed offset (board 0, channel 2, timestamp 4, then the optional energies in order, flags, wave code, sample count); fields the layout omits keep the previous hit's value; the cursor moves by the fixed part plus 2·Ns |
| Layout.SampleCountIsLastFixedField | src/evb/CompassFile.cpp:99-103 | the offset the header probe reads Ns from (size before samples − 4) is the offset ParseNextHit reads Ns from (lines 186-189) |
| Layout.ShiftTouchesOnlyTimestamp | src/evb/CompassFile.cpp:193-199 | with a shift map attached, the decoded hit differs from the unshifted one only in its timestamp, shifted by GetShift(channel + 16·board), and the cursor advance is the same |
| Layout.ZeroShiftIsNoShift | src/evb/CompassFile.cpp:193-199 | a shift map whose every shift is 0 decodes exactly as no shift map |
| Layout.ParseReadsOnlyFixedPart | src/evb/CompassFile.cpp:155-191 | the decoded hit and advance depend only on the record's fixed part, not on the waveform samples or what follows |
| Layout.DecodeEncode | src/evb/CompassFile.cpp:155-191 | decoding an encoded record gives back the hit on every field the layout carries (the others keep the previous hit), and advances by exactly the record's length |
| Layout.DecodeEncodeThenMore | src/evb/CompassFile.cpp:155-191 | the same round trip holds when further records follow in the buffer |
| CompassFile.ReadHeader | src/evb/CompassFile.cpp:79-111 | corrected (the probe buffer is freed from where it was allocated): succeeds exactly when the file holds the header word and, with waveforms on, the probed first record; its flags come from the header word, and its record size is at least the fixed part |
| CompassFile.ReadHeaderAsWritten | src/evb/CompassFile.cpp:79-111 | as written: the same as the corrected ReadHeader without waveforms or when the header or probe cannot be read; with waveforms and a readable probe it is undefined, because the pointer freed at line 107 was moved at line 102 |
| CompassFile.RecordSizeFormula | src/evb/CompassFile.cpp:90-104 | record size = 16 + 2·energy + 8·calibrated + 2·short, plus 5 + 2·Ns (modulo 2^32) with waveforms, where Ns is read from the first record |
| CompassFile.OpenAsWritten | src/evb/CompassFile.cpp:45-67 | as written: an unopenable path divides by zero; a waveform file fails as ReadHeader as written does; otherwise the hit count is the whole file size divided by the record size, header included |
| CompassFile.Open | src/evb/CompassFile.cpp:45-67 | corrected: an unopenable path gives a closed decoder at end of stream with no hits; a two-byte file is open, at end of stream, with no hits; otherwise it opens exactly when the header can be read, with the read position after the header, a buffer of m_bufsize records and the number of whole records after the header as its hit count |
| CompassFile.ReadBuffer | src/evb/CompassFile.cpp:149-151 | reads min(buffer size, bytes left); the window [iter, end) is exactly the bytes read, and the eof bit is set exactly when the read came up short |
| CompassFile.GetNextBufferAsWritten | src/evb/CompassFile.cpp:141-152 | end of stream is raised exactly when it already was or the stream's eof bit was set before the read; otherwise the window is exactly the bytes read, whole records or not |
| CompassFile.GetNextBuffer | src/evb/CompassFile.cpp:141-152 | corrected: the window holds the whole records among the bytes read, the read consumes exactly those unless it reached the end of the file, and end of stream is raised exactly when the stream was drained or the window is empty |
| CompassFile.ParseAtCursor | src/evb/CompassFile.cpp:130 | fails exactly when the fixed part of a record would run past the buffer; otherwise it changes only the current hit and moves the cursor forward |
| CompassFile.DecodeUnlessEof | src/evb/CompassFile.cpp:128-134 | at end of stream nothing changes and true is returned; otherwise a hit is decoded and marked unused |
| CompassFile.GetNextHitAsWritten | src/evb/CompassFile.cpp:118-135 | a closed file or one at end of stream is left unchanged and reports true; a delivered hit is marked unused; nothing about the file itself changes |
| CompassFile.GetNextHit | src/evb/CompassFile.cpp:118-135 | the same guarantees, for the decoder with the corrected refill |
| DecoderProofs.DecodeRecords | src/evb/CompassFile.cpp:63 | the hits a file holds are one per whole record after the header |
| DecoderProofs.DecodeRecordsAt | src/evb/CompassFile.cpp:155-200 | hit k is record k, decoded on top of hit k−1 (or a blank hit) |
| DecoderProofs.AdvanceIsRecordLength | src/evb/CompassFile.cpp:157-191 | the cursor advance equals the record's own length (fixed part plus 2·Ns of that record) |
| DecoderProofs.NoWavesWellFormed | src/evb/CompassFile.cpp:90-96 | without waveforms every record has the size the header gives, so the decoder never loses step |
| DecoderProofs.ParseStep | src/evb/CompassFile.cpp:130 | with the cursor inside the window, the parse yields exactly the next record's hit and advances by one record |
| DecoderProofs.RefillStep | src/evb/CompassFile.cpp:141-152 | a corrected refill keeps the decoder tracking its file, and raises end of stream exactly when every record has been delivered |
| DecoderProofs.StepAtEnd | src/evb/CompassFile.cpp:123-134 | once every record is delivered, the next call reports end of stream and leaves the current hit and used flag alone |
| DecoderProofs.StepAfterRefill | src/evb/CompassFile.cpp:123-132 | with records left and an empty window, the call refills and delivers the next record |
| DecoderProofs.GetNextHitStep | src/evb/CompassFile.cpp:118-135 | on a well-formed file each call of the corrected GetNextHit is one step of the abstract stream of the file's records: it delivers record k and counts it, or reports end of stream after the last record, and never fails |
| DecoderProofs.MarkUsedKeepsTracks | src/evb/CompassRun.cpp:176 | setting the used flag is the same on the decoder and on its abstract stream |
| DecoderProofs.OpenHits | src/evb/CompassFile.cpp:45-67 | opening a well-formed file succeeds, and the hit count m_nHits equals the number of hits the file holds |
| DecoderProofs.OpenTracks | src/evb/CompassFile.cpp:45-67 | a freshly opened well-formed file is the abstract stream of its records with none delivered yet |
| HitSource.Fresh | src/evb/CompassFile.cpp:47-48 | a freshly opened stream is in the invariant: current hit consumed, end of stream only when empty |
| HitSource.NextHit | src/evb/CompassFile.cpp:118-135 | at end of stream nothing changes; otherwise end of stream is raised exactly when every hit was delivered, and a delivered hit is the next one, unused |
| HitSource.NextHitKeepsPending | src/evb/CompassFile.cpp:118-135 | advancing a consumed stream does not change what it still has to deliver, and the new current hit is the first of those |
| HitSource.UsingDelivers | src/evb/CompassRun.cpp:174-176 | consuming the current hit removes exactly that hit from the front of what the stream has to deliver |
| HitSource.FreshPending | src/evb/CompassFile.cpp:45-67 | a fresh stream still has to deliver all its hits |
| MergeScan.Advance | src/evb/CompassRun.cpp:151-152 | a stream is advanced only if its hit was used; afterwards it is at end of stream or holds an unused hit |
| MergeScan.AdvanceKeepsPending | src/evb/CompassRun.cpp:151-152 | advancing loses no hit, and the new current hit is the first one still due |
| MergeScan.AdvanceFrom | src/evb/CompassRun.cpp:148-152 | files before startIndex are untouched; every other file is advanced once |
| MergeScan.EarliestIsUnique | src/evb/CompassRun.cpp:161-166 | at most one file is the earliest under the first-of-equals rule |
| MergeScan.FirstIsEarliest | src/evb/CompassRun.cpp:157-163 | the first file at or after startIndex that is not exhausted is the earliest so far |
| MergeScan.ScanOneMore | src/evb/CompassRun.cpp:164-166 | a file replaces the earliest only if its timestamp is strictly smaller, so ties go to the lower index |
| MergeScan.ScanFile | src/evb/CompassRun.cpp:150-166 | one iteration keeps the scan invariant: the scanned files are advanced, the low-water mark passes only leading exhausted files, and a candidate exists before any timestamp comparison |
| MergeScan.ScanComplete | src/evb/CompassRun.cpp:148-171 | after the scan there is no candidate exactly when every file from startIndex on is exhausted; otherwise the candidate is the earliest |
| Merge.ScanAll | src/evb/CompassRun.cpp:148-167 | the loop leaves every file from startIndex on advanced, startIndex on the first unexhausted file, and the earliest file chosen |
| Merge.GetHitsFromFiles | src/evb/CompassRun.cpp:142-179 | returns false exactly when every file from startIndex on is exhausted after its advance; otherwise returns the earliest current hit (first of equals) and marks only that file used, all other files keeping their advanced state; startIndex never decreases and every file below it is exhausted |
| Merge.PendingAllUpdate | src/evb/CompassRun.cpp:174-176 | changing one file changes the hits still due by that file's only |
| Merge.NothingLeft | src/evb/CompassRun.cpp:170-171 | when GetHitsFromFiles finds no candidate, no file has a hit left to deliver |
| Merge.AdvancedPending | src/evb/CompassRun.cpp:148-152 | the advance step loses no hit, and each unexhausted file's current hit is the first it still has due |
| Merge.DeliversOne | src/evb/CompassRun.cpp:174-176 | handing out a hit removes exactly that hit from the hits still due |
| Merge.DeliversInOrder | src/evb/CompassRun.cpp:174-176 | a file whose hits are in time order keeps the rest in time order after one is handed out |
| Merge.OtherNotEarlier | src/evb/CompassRun.cpp:161-166 | with time-ordered files, no hit still due in another file is earlier than the one handed out |
| Merge.DeliversEarliest | src/evb/CompassRun.cpp:161-176 | the hit handed out is the first due in its file, and no hit still due anywhere is earlier |
| Merge.StepKeepsRun | src/evb/CompassRun.cpp:155-159 | the run invariant (every file below startIndex exhausted) is kept by a call |
| Merge.DrainStep | src/evb/CompassRun.cpp:214-227 | each Fill adds one hit, keeps output plus hits due equal to the input, keeps the output in time order, and strictly shrinks what is due |
| Merge.MergeAll | src/evb/CompassRun.cpp:209-227 | over abstract streams, which the corrected decoder implements, calling GetHitsFromFiles from startIndex 0 until it returns false emits every hit of every file exactly once, and the output is in time order when each file is |
| CompassRun.GetNextHitProgress | src/evb/CompassFile.cpp:118-135 | a call that delivers a hit either reads on in the file or moves the cursor on in the buffer |
| CompassRun.CountingStep | src/evb/CompassRun.cpp:126-129 | with the corrected Open and GetNextHit, one counting step on a well-formed file never fails; it reports end of stream only after every record, and otherwise counts one more record |
| CompassRun.CountHits | src/evb/CompassRun.cpp:119-130 | the loop ends, and on a well-formed file opened and read by the corrected Open and GetNextHit the count is the number of records it holds |
| CompassRun.ReadScalerData | src/evb/CompassRun.cpp:114-133 | with scalers off nothing changes; otherwise only the entry for this file is set, and on a well-formed file, with the corrected Open and GetNextHit, it becomes the number of whole records, which is the file's m_nHits |
| CompassRun.DataEntries | src/evb/CompassRun.cpp:76-97 | a data file is a workspace file, and never a scaler-map key while scalers are on |
| CompassRun.OpenAllFacts | src/evb/CompassRun.cpp:97-102 | the files kept are the workspace's data files opened in order; the result is true exactly when every one opens, and otherwise stops at the first that does not |
| CompassRun.OpenAllRest | src/evb/CompassRun.cpp:101-102 | after the first data file that does not open, later files change nothing |
| CompassRun.LoadScaler | src/evb/CompassRun.cpp:79-93 | a scaler file is counted and skipped, keeping the loop invariant; the step does not fail when the scaler file is well formed or cannot be opened |
| CompassRun.CountsStep | src/evb/CompassRun.cpp:87 | counting one scaler file sets its entry to its records and leaves the others |
| CompassRun.OpenAllAppend | src/evb/CompassRun.cpp:97-102 | opening one more data file appends it, and the result stays true exactly when it is open |
| CompassRun.SumHitsAppend | src/evb/CompassRun.cpp:105 | adding a file adds its hit count to the total |
| CompassRun.LoadData | src/evb/CompassRun.cpp:96-105 | the step succeeds exactly when Open of the file does; a data file is opened and its hits added, or, exactly when it cannot be opened, it ends the load with false |
| CompassRun.GetBinaryFiles | src/evb/CompassRun.cpp:66-109 | the data files are the non-scaler workspace files opened in order by the corrected Open; the result is false exactly at the first that does not open; m_totalHits is the sum of the opened files' hit counts; scaler keys are unchanged, and each scaler file listed in the workspace gets its record count; the walk does not fail when every scaler file is well formed or cannot be opened and every data file can be opened or reported as not open |
| CompassRun.SumHitsIsLengths | src/evb/CompassRun.cpp:105 | a total of hit counts that match the files' records is the number of records |
| CompassRun.LoadedSources | src/evb/CompassRun.cpp:66-109 | when loading succeeds on well-formed files, each file opened by the corrected Open and read by the corrected GetNextHit is the fresh abstract stream of its records, and m_totalHits is the number of hits the merge of line 224 will emit |
| Findings.UnopenableDividesByZero | src/evb/CompassFile.cpp:55-63 | as written an unopenable path divides by zero; corrected it gives a closed decoder at end of stream |
| Findings.HeaderCountedAsWritten | src/evb/CompassFile.cpp:63 | a 32-byte file holding one whole 16-byte record after its header is counted as 2 hits as written, 1 corrected |
| Findings.WaveformProbeFreesMovedPointer | src/evb/CompassFile.cpp:96-107 | on every waveform file whose header and first record can be read, the probe pointer has moved by a non-zero offset when it is freed, so ReadHeader and Open as written are undefined; corrected, the file opens |
| Findings.WaveformFileFaultsAsWritten | src/evb/CompassFile.cpp:96-107 | a 23-byte waveform file holding one 21-byte record with no samples is undefined as written; corrected it opens with one hit |
| Findings.StaleHitAsWritten | src/evb/CompassFile.cpp:141-152 | as written, a refill that finds the stream drained but its eof bit unset delivers a stale hit and leaves the cursor past the empty window |
| Findings.EmptyRefillCorrected | src/evb/CompassFile.cpp:141-152 | corrected, the same refill reports end of stream |
| Findings.OverrunAfterStaleHit | src/evb/CompassFile.cpp:123-130 | with the cursor past the window end, the next call does not refill and parses past the buffer |
| Findings.FirstHitAsWritten | src/evb/CompassFile.cpp:118-152 | on an 18-byte file of one 16-byte record, the first call delivers that record and drains the stream without setting its eof bit |
| Findings.FirstHitCorrected | src/evb/CompassFile.cpp:118-152 | the corrected decoder reaches the same state after the first call |
| Findings.OneRecordFileDeliversTwo | src/evb/CompassFile.cpp:118-152 | on that one-record file the code as written delivers two hits and then reads past the buffer; corrected, the second call reports end of stream |
| Findings.HitCountOverBy | src/evb/CompassFile.cpp:63 | a waveform file never reaches the count as written; otherwise, as written, the hit count is the corrected count plus one exactly when the bytes past the last whole record, together with the 2 header bytes, fill a record; otherwise the two counts agree |
| Findings.WholeRecordFileCountedAlike | src/evb/CompassFile.cpp:45-67 | a file of the header and n whole records, 2 + n·h bytes, without waveforms, opens to the same decoder as written and corrected, hit count n included; with waveforms it fails as written |
| Findings.TruncatedFirstHitAsWritten | src/evb/CompassFile.cpp:118-152 | on a 23-byte file of one 16-byte record and 5 bytes of another, read two records at a time, the first call as written delivers the record and leaves a 5-byte window with the stream's eof bit set |
| Findings.TruncatedFirstHitCorrected | src/evb/CompassFile.cpp:118-152 | corrected, the same call drops the 5 trailing bytes from the window, so the window is empty after the first record |
| Findings.PartialRecordAsWritten | src/evb/CompassFile.cpp:118-134 | as written, with fewer bytes left in the window than a record, the next call decodes them and the leftover buffer bytes after them into a hit, and leaves the cursor past the window end |
| Findings.TruncatedTailAsWritten | src/evb/CompassFile.cpp:118-152 | on that 23-byte file the first two calls as written each deliver a hit and the third parses past the buffer |
| Findings.TruncatedTailCorrected | src/evb/CompassFile.cpp:118-152 | corrected, the first call delivers the record and the second reports end of stream |
| Findings.TruncatedTailDeliversTwo | src/evb/CompassFile.cpp:118-152 | on that 23-byte file the code as written delivers two hits though the file holds one record, and the third call parses past the buffer; corrected, the second call reports end of stream |
| Findings.AsWrittenAgrees | src/evb/CompassFile.cpp:118-152 | GetNextHit as written returns the same result as the corrected one whenever the refill it makes, if any, reads a full buffer or a non-zero whole number of records |
| Findings.StepKeepsAligned | src/evb/CompassFile.cpp:141-152 | every corrected call keeps the stream a whole number of buffers past the header until the stream's eof bit is set |
| Findings.OpenedAligned | src/evb/CompassFile.cpp:45-67 | a freshly opened decoder stands at the end of the header, no buffer read yet |
| Findings.AlignedRefillAgrees | src/evb/CompassFile.cpp:118-152 | on a file of whole records whose size after the header is not a whole number of buffers, every call as written returns what the corrected call returns |
| Findings.AsWrittenStepOnFileEndingMidBuffer | src/evb/CompassFile.cpp:118-152 | on such a file each call as written is one step of the abstract stream of the file's records, as DecoderProofs.GetNextHitStep states for the corrected decoder |

## Left out

- src/evb/SFPAnalyzer.cpp, src/evb/SFPPlotter.cpp and src/evb/FP_kinematics.cpp are not part of this model: they are floating-point reconstruction, histogramming and output.
- src/evb/Logger.cpp and src/spsdict/DataStructs.h are not part of this model: logging configuration, and plain aggregates with no behaviour.
- SetScalers is not modelled; it is text parsing and path building. The scaler map and the scaler flag it produces are inputs.
- Convert2RawRoot's ROOT output is reduced to the sequence of emitted hits. The progress log is left out: the `count`/`flush` arithmetic in `unsigned int` and `m_progressCallback`.
- Convert2SortedRoot and the other conversions are not modelled: they hand hits to SlowSort/FastSort, which are not part of this model.
- The `ifstream` mechanics are replaced by a read position and an eof bit over the file's bytes. This covers `seekg`, `tellg`, `gcount`, `Close` and the destructor.
- The header flag predicates and `m_bufsize` are parameters, as are `CompassHit`'s initial field values (taken as zero). Their definitions are in header files that are not part of this model.
- `Long64_t` counters and `m_totalHits` are unbounded naturals; the model has no overflow for them.
- `m_hitsize += nsamples * 2`: the doubling wraps in 32 bits; the addition is unbounded, since the type of `m_hitsize` is declared in an unseen header.
- Merge.MergeAll: states the emitted hits as a multiset and their time order, not the order among equal timestamps. The first-of-equals rule is stated per call, by Merge.GetHitsFromFiles.
- Merge.MergeAll works on abstract streams, not on decoders. DecoderProofs.GetNextHitStep and CompassRun.LoadedSources tie the two together for well-formed files read by the corrected Open and GetNextHit only. As written, an unopenable file divides by zero, and a file whose record count is a whole number of buffers, or which ends in a partial record, yields extra hits and then a read past the buffer (see Findings). Findings.AsWrittenStepOnFileEndingMidBuffer states when the code as written yields the same stream.
- CompassRun.CountingStep: stated for the corrected GetNextHit. As written, a file whose record count is a whole number of buffers gets one stale hit counted and then a read past the buffer, and a partial last record is counted as a hit.
- CompassRun.CountHits: stated for the corrected Open and GetNextHit, for the reasons given for CompassRun.CountingStep. The count is stated for well-formed files only. A waveform file whose records do not all have the probed sample count is out of step with its own hit count.
- CompassRun.ReadScalerData: stated for the corrected Open and GetNextHit. As written, an unopenable scaler file divides by zero, and the count can take in a stale hit before a read past the buffer. The stored count is stated for well-formed files only, for the reason given for CompassRun.CountHits.
- CompassRun.GetBinaryFiles: stated for the corrected Open. As written, a data file that cannot be opened divides by zero before the IsOpen test of line 101, so the false result is never reached. The scaler counts are stated only when every scaler file is well formed. Success is promised when every workspace file is loadable (CompassRun.Loadable). For a scaler file that is not well formed, the contract does not say whether counting it fails.
- Findings.WholeRecordFileCountedAlike: the two opens agree only on files without waveforms. With waveforms, Open as written is undefined at line 107 before it counts anything.
- CompassRun.LoadedSources: stated for the corrected Open and GetNextHit, for the reasons given for Merge.MergeAll.

## Findings

| source | as written | input that shows it | evidently intended | confidence | as-written member | corrected member |
|---|---|---|---|---|---|---|
| src/evb/CompassFile.cpp:55-63 | when the path cannot be opened, `tellg` gives −1 ≠ 2 and ReadHeader returns early with `m_hitsize` still 0, so `m_size / m_hitsize` divides by zero; the IsOpen test of CompassRun.cpp line 101 is never reached | any data or scaler file name that does not exist | a closed file at end of stream with no hits, so that GetBinaryFiles returns false | not executed | CompassFile.OpenAsWritten | CompassFile.Open |
| src/evb/CompassFile.cpp:96-107 | the probe moves `firstHit` forward by `m_hitsize - 4` (at least 17) to read the sample count, then passes the moved pointer to `delete[]` | any waveform file whose header and first record can be read, such as a 23-byte file with waveforms on and no other optional fields: a header and one 21-byte record with no samples | free the buffer from the pointer `new[]` returned, leaving the record size as computed | not executed | Findings.WaveformFileFaultsAsWritten | CompassFile.Open |
| src/evb/CompassFile.cpp:63 | the hit count divides the whole file size, the 2 header bytes included, by the record size | a 32-byte file with no optional fields: a header, one 16-byte record and 14 bytes of a truncated one, counted as 2 hits | the number of whole records after the header, `(m_size - 2) / m_hitsize` | not executed | Findings.HeaderCountedAsWritten | DecoderProofs.OpenHits |
| src/evb/CompassFile.cpp:141-152 | end of stream is raised only if the stream's eof bit was already set before the read; a read that exactly empties the file leaves the bit clear | an 18-byte file with 16-byte records and a one-record buffer: the second GetNextHit decodes the stale buffer into a second hit, and the third parses past the buffer. The same happens whenever a file holds only whole records and their count is a multiple of the records per buffer. | a read that yields no whole record raises end of stream | not executed | Findings.OneRecordFileDeliversTwo | DecoderProofs.GetNextHitStep |
| src/evb/CompassFile.cpp:118-152 | the window is every byte read, and GetNextHit refills only when the cursor equals the window end, so a partial last record is decoded together with leftover buffer bytes and the cursor then passes the window end | a 23-byte file with no optional fields, read two records at a time, holds one record and 5 bytes of a second: the second GetNextHit decodes those 5 bytes and 11 leftover buffer bytes into a second hit, and the third parses past the buffer | a refill keeps only the whole records it read | not executed | Findings.TruncatedTailDeliversTwo | DecoderProofs.GetNextHitStep |
