/** The state of the k-way merge of CompassRun and the scan that one call of
    GetHitsFromFiles makes over the data files. */
module MergeScan {
  import opened Results
  import opened Layout
  import opened HitSource

  /** The merge state: the data files and the low-water mark `startIndex`. */
  datatype Run = Run(files: seq<Source>, startIndex: nat)

  /** Every file is a valid source. */
  ghost predicate AllValid(fs: seq<Source>) {
    forall j | 0 <= j < |fs| :: Valid(fs[j])
  }

  /** The merge invariant: every file is valid, and every file below the
      low-water mark is exhausted. */
  ghost predicate RunValid(m: Run) {
    && AllValid(m.files)
    && (forall j | 0 <= j < |m.files| && j < m.startIndex :: m.files[j].eof)
  }

  /** Lines 151-152: a file whose current hit was used moves to its next one. */
  function Advance(s: Source): (r: Source)
    requires Valid(s)
    ensures Valid(r) && (!r.eof ==> !r.used)
    ensures !s.used ==> r == s
  {
    if s.used then NextHit(s) else s
  }

  /** Advancing delivers nothing: the pending hits stay the same, and the new
      current hit, if any, is the first of them. */
  lemma AdvanceKeepsPending(s: Source)
    requires Valid(s)
    ensures Pending(Advance(s)) == Pending(s)
    ensures !Advance(s).eof ==> Pending(s) != [] && Pending(s)[0] == Advance(s).current
  {
    if s.used {
      NextHitKeepsPending(s);
    }
  }

  /** The files as the scan of one call leaves them before the winner is
      marked: every file from `lo` on advanced, the ones below untouched. */
  function AdvanceFrom(fs: seq<Source>, lo: nat): (r: seq<Source>)
    requires AllValid(fs)
    ensures |r| == |fs| && AllValid(r)
    ensures forall j | 0 <= j < |fs| :: r[j] == if j < lo then fs[j] else Advance(fs[j])
  {
    seq(|fs|, j requires 0 <= j < |fs| => if j < lo then fs[j] else Advance(fs[j]))
  }

  /** File `w` holds the earliest current hit among the files from `lo` on
      that are not at end of stream, and no file before it holds one as
      early: the strict `<` of line 165 keeps the first of equal timestamps. */
  ghost predicate IsEarliest(fs: seq<Source>, lo: nat, hi: nat, w: nat)
    requires hi <= |fs|
  {
    && lo <= w < hi && !fs[w].eof
    && (forall j | lo <= j < hi && !fs[j].eof :: fs[w].current.timestamp <= fs[j].current.timestamp)
    && (forall j | lo <= j < w && !fs[j].eof :: fs[w].current.timestamp < fs[j].current.timestamp)
  }

  /** There is at most one earliest file. */
  lemma EarliestIsUnique(fs: seq<Source>, lo: nat, hi: nat, v: nat, w: nat)
    requires hi <= |fs| && IsEarliest(fs, lo, hi, v) && IsEarliest(fs, lo, hi, w)
    ensures v == w
  {
  }

  /** The first file from `lo` on not at end of stream is the earliest so far. */
  lemma FirstIsEarliest(fs: seq<Source>, lo: nat, i: nat)
    requires lo <= i < |fs| && !fs[i].eof
    requires forall j | lo <= j < i :: fs[j].eof
    ensures IsEarliest(fs, lo, i + 1, i)
  {
  }

  /** Scanning one more file keeps the earliest one, unless the new file's
      hit is strictly earlier. */
  lemma ScanOneMore(fs: seq<Source>, lo: nat, i: nat, w: nat)
    requires i < |fs| && IsEarliest(fs, lo, i, w)
    ensures fs[i].eof || fs[w].current.timestamp <= fs[i].current.timestamp ==> IsEarliest(fs, lo, i + 1, w)
    ensures !fs[i].eof && fs[i].current.timestamp < fs[w].current.timestamp ==> IsEarliest(fs, lo, i + 1, i)
  {
  }

  /** The state of the scan of GetHitsFromFiles after files [startIndex, i):
      those files are advanced and the others untouched, the low-water mark
      has passed exactly the leading exhausted files, and `earliest` names the
      earliest of the scanned files, if any is not exhausted. */
  ghost predicate Scanned(m: Run, adv: seq<Source>, files: seq<Source>, i: nat, start: nat, earliest: Option<nat>)
    requires |adv| == |m.files|
  {
    && m.startIndex <= start <= i
    && (i <= |files| || i == m.startIndex)
    && |files| == |m.files|
    && (forall j | 0 <= j < |files| :: files[j] == if j < i then adv[j] else m.files[j])
    && (forall j | m.startIndex <= j < start :: adv[j].eof)
    && (start < |files| && start < i ==> !adv[start].eof)
    && (earliest.None? <==> start == i)
    && (earliest.Some? ==> i <= |adv| && IsEarliest(adv, m.startIndex, i, earliest.value))
  }

  /** One iteration of the scan (lines 151-171): advance file `i` if its hit
      was used, retire it if it is exhausted at the low-water mark, and keep
      it as the earliest if its hit is strictly earlier. */
  method ScanFile(m: Run, ghost adv: seq<Source>, files: seq<Source>, i: nat, start: nat, earliest: Option<nat>)
    returns (files': seq<Source>, start': nat, earliest': Option<nat>)
    requires AllValid(m.files) && adv == AdvanceFrom(m.files, m.startIndex)
    requires Scanned(m, adv, files, i, start, earliest) && i < |files|
    ensures Scanned(m, adv, files', i + 1, start', earliest')
  {
    var s := Advance(files[i]);
    files' := files[i := s];
    start', earliest' := start, earliest;
    if earliest.Some? {
      ScanOneMore(adv, m.startIndex, i, earliest.value);
    }
    if s.eof {
      if i == start {
        start' := start + 1;
      }
    } else if i == start {
      FirstIsEarliest(adv, m.startIndex, i);
      earliest' := Some(i);
    } else if s.current.timestamp < files[earliest.value].current.timestamp {
      earliest' := Some(i);
    }
  }

  /** Once every file is scanned, the files are the advanced ones, the low-water
      mark sits on the first file not exhausted, and `earliest` is absent
      exactly when every file from `startIndex` on is exhausted. */
  lemma ScanComplete(m: Run, adv: seq<Source>, files: seq<Source>, i: nat, start: nat, earliest: Option<nat>)
    requires AllValid(m.files) && adv == AdvanceFrom(m.files, m.startIndex)
    requires Scanned(m, adv, files, i, start, earliest) && i >= |files|
    ensures files == adv
    ensures earliest.None? <==> forall j | m.startIndex <= j < |adv| :: adv[j].eof
    ensures earliest.Some? ==> IsEarliest(adv, m.startIndex, |adv|, earliest.value)
    ensures start <= |adv| || start == m.startIndex
    ensures forall j | m.startIndex <= j < start :: adv[j].eof
    ensures start < |adv| ==> !adv[start].eof
  {
  }
}
