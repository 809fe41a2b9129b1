/** The time-ordered k-way merge of CompassRun (src/evb/CompassRun.cpp,
    GetHitsFromFiles and the loop of Convert2RawRoot that drains it). Each
    data file is seen through the abstract source of module HitSource; module
    DecoderProofs shows that a CompassFile decoder over a well-formed file
    steps exactly as that source does. */
module Merge {
  import opened Results
  import opened Layout
  import opened HitSource
  import opened MergeScan

  /** The loop of GetHitsFromFiles (lines 148-168) over the files from
      `startIndex` on. */
  method ScanAll(m: Run) returns (files: seq<Source>, start: nat, earliest: Option<nat>)
    requires AllValid(m.files)
    ensures var adv := AdvanceFrom(m.files, m.startIndex);
      && files == adv
      && (earliest.None? <==> forall j | m.startIndex <= j < |adv| :: adv[j].eof)
      && (earliest.Some? ==> IsEarliest(adv, m.startIndex, |adv|, earliest.value))
      && (start <= |adv| || start == m.startIndex)
      && m.startIndex <= start
      && (forall j | m.startIndex <= j < start :: adv[j].eof)
      && (start < |adv| ==> !adv[start].eof)
  {
    ghost var adv := AdvanceFrom(m.files, m.startIndex);
    files := m.files;
    start := m.startIndex;
    earliest := None;
    var i: nat := m.startIndex;
    while i < |files|
      invariant Scanned(m, adv, files, i, start, earliest)
    {
      files, start, earliest := ScanFile(m, adv, files, i, start, earliest);
      i := i + 1;
    }
    ScanComplete(m, adv, files, i, start, earliest);
  }

  /** GetHitsFromFiles (lines 142-179): advance every file from `startIndex`
      on whose hit was used, retire the exhausted files at the low-water mark,
      and return the earliest current hit, marked used; or nothing when every
      file from `startIndex` on is exhausted. `adv` names the files as the
      scan leaves them, before the winner is marked. */
  method GetHitsFromFiles(m: Run) returns (r: Run, earliest: Option<nat>, hit: Option<Hit>, ghost adv: seq<Source>)
    requires AllValid(m.files)
    ensures adv == AdvanceFrom(m.files, m.startIndex)
    ensures |r.files| == |m.files| && AllValid(r.files)
    ensures earliest.None? <==> forall j | m.startIndex <= j < |adv| :: adv[j].eof
    ensures earliest.None? ==> r.files == adv && hit.None?
    ensures earliest.Some? ==> IsEarliest(adv, m.startIndex, |adv|, earliest.value)
    ensures earliest.Some? ==> hit == Some(adv[earliest.value].current)
    ensures earliest.Some? ==> r.files == adv[earliest.value := adv[earliest.value].(used := true)]
    ensures m.startIndex <= r.startIndex
    ensures r.startIndex <= |m.files| || r.startIndex == m.startIndex
    ensures forall j | m.startIndex <= j < r.startIndex :: adv[j].eof
    ensures r.startIndex < |m.files| ==> !adv[r.startIndex].eof
  {
    adv := AdvanceFrom(m.files, m.startIndex);
    var files, start;
    files, start, earliest := ScanAll(m);
    if earliest.None? {
      hit := None;
      r := Run(files, start);
    } else {
      var w := earliest.value;
      hit := Some(files[w].current);
      r := Run(files[w := files[w].(used := true)], start);
    }
  }

  /** Hits ordered by timestamp. */
  ghost predicate SortedByTime(s: seq<Hit>) {
    forall i, j | 0 <= i < j < |s| :: s[i].timestamp <= s[j].timestamp
  }

  /** Every file still has its hits to deliver in timestamp order. */
  ghost predicate EachSorted(fs: seq<Source>)
    requires AllValid(fs)
  {
    forall j | 0 <= j < |fs| :: SortedByTime(Pending(fs[j]))
  }

  /** No hit still to deliver is earlier than `t`. */
  ghost predicate NoneBefore(fs: seq<Source>, t: int)
    requires AllValid(fs)
  {
    forall j, k | 0 <= j < |fs| && 0 <= k < |Pending(fs[j])| :: t <= Pending(fs[j])[k].timestamp
  }

  /** The elements of a sequence of runs, counted with multiplicity. */
  ghost function Union<T>(ss: seq<seq<T>>): multiset<T> {
    if |ss| == 0 then multiset{} else Union(ss[..|ss| - 1]) + multiset(ss[|ss| - 1])
  }

  /** Replacing one run changes the union by that run's elements only. */
  lemma {:induction false} UnionUpdate<T>(ss: seq<seq<T>>, w: nat, x: seq<T>)
    requires w < |ss|
    ensures Union(ss[w := x]) + multiset(ss[w]) == Union(ss) + multiset(x)
  {
    var n := |ss|;
    var g := ss[w := x];
    if w < n - 1 {
      assert g[..n - 1] == ss[..n - 1][w := x];
      UnionUpdate(ss[..n - 1], w, x);
      assert g[n - 1] == ss[n - 1];
      UnionSwap(Union(g[..n - 1]), Union(ss[..n - 1]), multiset(ss[n - 1]), multiset(ss[w]), multiset(x));
    } else {
      assert g[..n - 1] == ss[..n - 1];
    }
  }

  lemma UnionSwap<T>(a: multiset<T>, b: multiset<T>, c: multiset<T>, x: multiset<T>, y: multiset<T>)
    requires a + x == b + y
    ensures a + c + x == b + c + y
  {
    assert a + c + x == (a + x) + c;
    assert b + c + y == (b + y) + c;
  }

  lemma UnionCancel<T>(a: multiset<T>, b: multiset<T>, c: multiset<T>, d: multiset<T>)
    requires a + (b + c) == d + c
    ensures a + b == d
  {
    assert (a + b) + c == d + c;
    forall t
      ensures (a + b)[t] == d[t]
    {
      assert ((a + b) + c)[t] == (d + c)[t];
    }
  }

  /** The total length of a sequence of runs. */
  function Lengths<T>(ss: seq<seq<T>>): nat {
    if |ss| == 0 then 0 else Lengths(ss[..|ss| - 1]) + |ss[|ss| - 1]|
  }

  /** The union has as many elements as the runs together. */
  lemma {:induction false} UnionSize<T>(ss: seq<seq<T>>)
    ensures |Union(ss)| == Lengths(ss)
  {
    if |ss| > 0 {
      UnionSize(ss[..|ss| - 1]);
    }
  }

  /** Empty runs have no elements. */
  lemma {:induction false} UnionOfEmpty<T>(ss: seq<seq<T>>)
    requires forall j | 0 <= j < |ss| :: ss[j] == []
    ensures Union(ss) == multiset{}
  {
    if |ss| > 0 {
      UnionOfEmpty(ss[..|ss| - 1]);
    }
  }

  /** What each file has still to deliver. */
  ghost function PendingOf(fs: seq<Source>): (r: seq<seq<Hit>>)
    requires AllValid(fs)
    ensures |r| == |fs| && forall j | 0 <= j < |fs| :: r[j] == Pending(fs[j])
  {
    seq(|fs|, j requires 0 <= j < |fs| => Pending(fs[j]))
  }

  /** All hits the files have still to deliver, counted with multiplicity. */
  ghost function PendingAll(fs: seq<Source>): multiset<Hit>
    requires AllValid(fs)
  {
    Union(PendingOf(fs))
  }

  /** Replacing one file changes the pending hits by that file's only. */
  lemma PendingAllUpdate(fs: seq<Source>, w: nat, x: Source)
    requires AllValid(fs) && Valid(x) && w < |fs|
    ensures AllValid(fs[w := x])
    ensures PendingAll(fs[w := x]) + multiset(Pending(fs[w])) == PendingAll(fs) + multiset(Pending(x))
  {
    assert PendingOf(fs[w := x]) == PendingOf(fs)[w := Pending(x)];
    UnionUpdate(PendingOf(fs), w, Pending(x));
  }

  /** A call that finds nothing leaves nothing undelivered. */
  lemma NothingLeft(m: Run, adv: seq<Source>)
    requires RunValid(m) && adv == AdvanceFrom(m.files, m.startIndex)
    requires forall j | m.startIndex <= j < |adv| :: adv[j].eof
    ensures PendingAll(m.files) == multiset{}
  {
    UnionOfEmpty(PendingOf(m.files));
  }

  /** The scan delivers nothing: every file has the same hits still to
      deliver, and an advanced file not exhausted holds the first of them. */
  lemma AdvancedPending(m: Run, adv: seq<Source>)
    requires AllValid(m.files) && adv == AdvanceFrom(m.files, m.startIndex)
    ensures PendingOf(adv) == PendingOf(m.files)
    ensures forall j | m.startIndex <= j < |adv| && !adv[j].eof ::
      !adv[j].used && Pending(adv[j]) != [] && Pending(adv[j])[0] == adv[j].current
  {
    forall j | 0 <= j < |adv|
      ensures Pending(adv[j]) == Pending(m.files[j])
      ensures m.startIndex <= j && !adv[j].eof ==> Pending(adv[j]) != [] && Pending(adv[j])[0] == adv[j].current
    {
      AdvanceKeepsPending(m.files[j]);
    }
  }

  /** A call that finds a hit delivers exactly that hit. */
  lemma DeliversOne(m: Run, adv: seq<Source>, w: nat)
    requires AllValid(m.files) && adv == AdvanceFrom(m.files, m.startIndex)
    requires m.startIndex <= w < |adv| && !adv[w].eof
    ensures AllValid(adv[w := adv[w].(used := true)])
    ensures PendingAll(adv[w := adv[w].(used := true)]) + multiset{adv[w].current} == PendingAll(m.files)
  {
    AdvancedPending(m, adv);
    var u := adv[w].(used := true);
    UsingDelivers(adv[w]);
    PendingAllUpdate(adv, w, u);
    assert multiset(Pending(adv[w])) == multiset{adv[w].current} + multiset(Pending(u));
    UnionCancel(PendingAll(adv[w := u]), multiset{adv[w].current}, multiset(Pending(u)), PendingAll(adv));
  }

  /** Dropping the first hit keeps the order. */
  lemma SortedTail(s: seq<Hit>)
    requires SortedByTime(s) && s != []
    ensures SortedByTime(s[1..])
  {
    forall i, j | 0 <= i < j < |s| - 1
      ensures s[1..][i].timestamp <= s[1..][j].timestamp
    {
      assert s[1..][i] == s[i + 1] && s[1..][j] == s[j + 1];
    }
  }

  /** Delivering a file's current hit keeps every file's hits in order. */
  lemma DeliversInOrder(m: Run, adv: seq<Source>, w: nat)
    requires AllValid(m.files) && adv == AdvanceFrom(m.files, m.startIndex)
    requires m.startIndex <= w < |adv| && !adv[w].eof
    requires EachSorted(m.files)
    ensures AllValid(adv[w := adv[w].(used := true)])
    ensures EachSorted(adv[w := adv[w].(used := true)])
  {
    var fs := adv[w := adv[w].(used := true)];
    AdvancedPending(m, adv);
    UsingDelivers(adv[w]);
    assert Pending(fs[w]) == Pending(adv[w])[1..];
    assert Pending(adv[w]) == PendingOf(adv)[w] == PendingOf(m.files)[w];
    SortedTail(Pending(adv[w]));
    forall j | 0 <= j < |fs|
      ensures SortedByTime(Pending(fs[j]))
    {
      if j != w {
        assert Pending(fs[j]) == PendingOf(adv)[j] == PendingOf(m.files)[j];
      }
    }
  }

  /** The first of hits in order is the earliest. */
  lemma HeadIsEarliest(s: seq<Hit>, k: nat)
    requires SortedByTime(s) && k < |s|
    ensures s[0].timestamp <= s[k].timestamp
  {
  }

  /** No hit a file other than the delivering one has still to deliver is
      earlier than the delivered hit. */
  lemma OtherNotEarlier(m: Run, adv: seq<Source>, w: nat, j: nat, k: nat)
    requires RunValid(m) && adv == AdvanceFrom(m.files, m.startIndex)
    requires IsEarliest(adv, m.startIndex, |adv|, w)
    requires EachSorted(m.files)
    requires j < |adv| && j != w && k < |Pending(adv[j])|
    ensures adv[w].current.timestamp <= Pending(adv[j])[k].timestamp
  {
    AdvancedPending(m, adv);
    assert Pending(adv[j]) == PendingOf(adv)[j] == PendingOf(m.files)[j];
    HeadIsEarliest(Pending(m.files[j]), k);
  }

  /** No hit still to deliver after the call, in any file, is earlier than
      the delivered one. */
  lemma NotEarlier(m: Run, adv: seq<Source>, w: nat, j: nat, k: nat)
    requires RunValid(m) && adv == AdvanceFrom(m.files, m.startIndex)
    requires IsEarliest(adv, m.startIndex, |adv|, w)
    requires EachSorted(m.files)
    requires j < |adv| && Valid(adv[w].(used := true))
    requires k < |Pending(adv[w := adv[w].(used := true)][j])|
    ensures adv[w].current.timestamp <= Pending(adv[w := adv[w].(used := true)][j])[k].timestamp
  {
    if j == w {
      AdvancedPending(m, adv);
      UsingDelivers(adv[w]);
      var q := Pending(adv[w]);
      assert q == PendingOf(adv)[w] == PendingOf(m.files)[w];
      assert Pending(adv[w].(used := true))[k] == q[k + 1];
      HeadIsEarliest(q, k + 1);
    } else {
      OtherNotEarlier(m, adv, w, j, k);
    }
  }

  /** The delivered hit is the head of its own file's hits and no hit still
      to deliver is earlier. */
  lemma DeliversEarliest(m: Run, adv: seq<Source>, w: nat)
    requires RunValid(m) && adv == AdvanceFrom(m.files, m.startIndex)
    requires IsEarliest(adv, m.startIndex, |adv|, w)
    requires EachSorted(m.files)
    ensures Pending(m.files[w]) != [] && Pending(m.files[w])[0] == adv[w].current
    ensures AllValid(adv[w := adv[w].(used := true)])
    ensures NoneBefore(adv[w := adv[w].(used := true)], adv[w].current.timestamp)
  {
    AdvancedPending(m, adv);
    assert Pending(adv[w]) == PendingOf(adv)[w] == PendingOf(m.files)[w];
    UsingDelivers(adv[w]);
    var fs := adv[w := adv[w].(used := true)];
    forall j, k | 0 <= j < |fs| && 0 <= k < |Pending(fs[j])|
      ensures adv[w].current.timestamp <= Pending(fs[j])[k].timestamp
    {
      NotEarlier(m, adv, w, j, k);
    }
  }

  /** The low-water mark of the call's result passes exhausted files only. */
  lemma StepKeepsRun(m: Run, adv: seq<Source>, r: Run, w: Option<nat>)
    requires RunValid(m) && adv == AdvanceFrom(m.files, m.startIndex)
    requires m.startIndex <= r.startIndex
    requires forall j | m.startIndex <= j < r.startIndex && j < |adv| :: adv[j].eof
    requires w.None? ==> r.files == adv
    requires w.Some? ==> m.startIndex <= w.value < |adv| && !adv[w.value].eof
    requires w.Some? ==> r.files == adv[w.value := adv[w.value].(used := true)]
    ensures RunValid(r)
  {
  }

  /** The state of the drain loop: `out` holds the hits emitted so far, and
      together with the hits the files have still to deliver it makes up all
      the hits the files had at the start; when every file delivers in
      timestamp order, the output is in order and no hit still to come is
      earlier than the last one emitted. */
  ghost predicate Draining(files: seq<Source>, m: Run, out: seq<Hit>)
    requires AllValid(files)
  {
    && RunValid(m)
    && multiset(out) + PendingAll(m.files) == PendingAll(files)
    && (EachSorted(files) ==> EachSorted(m.files) && SortedByTime(out))
    && (EachSorted(files) && out != [] ==> NoneBefore(m.files, out[|out| - 1].timestamp))
  }

  /** The emitted hit joins the output as it leaves the files. */
  lemma EmitKeepsCount(all: multiset<Hit>, out: seq<Hit>, before: multiset<Hit>, after: multiset<Hit>, h: Hit)
    requires multiset(out) + before == all && after + multiset{h} == before
    ensures multiset(out + [h]) + after == all
    ensures |after| < |before|
  {
    assert multiset(out + [h]) == multiset(out) + multiset{h};
  }

  /** The earliest pending hit keeps the output in timestamp order. */
  lemma EmitKeepsOrder(out: seq<Hit>, h: Hit)
    requires SortedByTime(out) && (out != [] ==> out[|out| - 1].timestamp <= h.timestamp)
    ensures SortedByTime(out + [h])
  {
    var o := out + [h];
    forall i, j | 0 <= i < j < |o|
      ensures o[i].timestamp <= o[j].timestamp
    {
      if j == |out| && i < |out| - 1 {
        assert o[i].timestamp <= out[|out| - 1].timestamp;
      }
    }
  }

  /** One delivering call of GetHitsFromFiles keeps the drain loop's state,
      and one hit fewer is left to deliver. */
  lemma DrainStep(files: seq<Source>, m: Run, out: seq<Hit>, adv: seq<Source>, r: Run, w: nat)
    requires AllValid(files) && Draining(files, m, out) && adv == AdvanceFrom(m.files, m.startIndex)
    requires IsEarliest(adv, m.startIndex, |adv|, w)
    requires r.files == adv[w := adv[w].(used := true)] && m.startIndex <= r.startIndex
    requires forall j | m.startIndex <= j < r.startIndex && j < |adv| :: adv[j].eof
    ensures Draining(files, r, out + [adv[w].current])
    ensures |PendingAll(r.files)| < |PendingAll(m.files)|
  {
    var h := adv[w].current;
    DeliversOne(m, adv, w);
    StepKeepsRun(m, adv, r, Some(w));
    EmitKeepsCount(PendingAll(files), out, PendingAll(m.files), PendingAll(r.files), h);
    if EachSorted(files) {
      DeliversInOrder(m, adv, w);
      DeliversEarliest(m, adv, w);
      if out != [] {
        assert out[|out| - 1].timestamp <= Pending(m.files[w])[0].timestamp;
      }
      EmitKeepsOrder(out, h);
    }
  }

  /** The loop of Convert2RawRoot (CompassRun.cpp lines 209-227, without the
      progress report and the tree): from `startIndex` 0, call
      GetHitsFromFiles until it finds nothing, and emit every hit it
      delivers. Every pending hit of every file is emitted exactly once, and
      when each file delivers its hits in timestamp order the output is in
      timestamp order. */
  method MergeAll(files: seq<Source>) returns (out: seq<Hit>)
    requires AllValid(files)
    ensures multiset(out) == PendingAll(files)
    ensures EachSorted(files) ==> SortedByTime(out)
  {
    var m := Run(files, 0);
    out := [];
    while true
      invariant Draining(files, m, out)
      decreases |PendingAll(m.files)|
    {
      var r, earliest, hit, adv := GetHitsFromFiles(m);
      if earliest.None? {
        NothingLeft(m, adv);
        return;
      }
      DrainStep(files, m, out, adv, r, earliest.value);
      out := out + [hit.value];
      m := r;
    }
  }
}
