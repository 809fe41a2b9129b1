/** A CompassFile as the merge in CompassRun sees it: the sequence of hits its
    decoder hands out one per GetNextHit, how many it has handed out, the
    current hit, and the used and end-of-stream flags. The decoder module
    proves that a decoder over a well-formed file behaves as this source over
    the file's decoded records. */
module HitSource {
  import opened Layout

  datatype Source = Source(hits: seq<Hit>, pos: nat, current: Hit, used: bool, eof: bool)

  /** A source as the merge keeps it: an unused current hit is the last one
      handed out, and end of stream is only reached once everything has been
      handed out and consumed. */
  ghost predicate Valid(s: Source) {
    && s.pos <= |s.hits|
    && (s.eof ==> s.used && s.pos == |s.hits|)
    && (!s.used ==> 0 < s.pos && s.current == s.hits[s.pos - 1])
  }

  /** A freshly opened source: nothing handed out, no current hit to consume,
      and already at end of stream only if it has no hits at all. */
  function Fresh(hits: seq<Hit>, atEnd: bool): (s: Source)
    requires atEnd ==> hits == []
    ensures Valid(s)
  {
    Source(hits, 0, BlankHit, true, atEnd)
  }

  /** GetNextHit on the source: hand out the next hit, or reach end of stream
      when there is none; at end of stream nothing changes. */
  function NextHit(s: Source): (r: Source)
    requires s.pos <= |s.hits|
    ensures r.hits == s.hits
    ensures s.eof ==> r == s
    ensures !s.eof ==> (r.eof <==> s.pos == |s.hits|)
    ensures !r.eof ==> !r.used && 0 < r.pos <= |r.hits| && r.current == r.hits[r.pos - 1]
    ensures r.pos - s.pos == (if !s.eof && !r.eof then 1 else 0)
  {
    if s.eof then s
    else if s.pos < |s.hits| then s.(current := s.hits[s.pos], pos := s.pos + 1, used := false)
    else s.(eof := true)
  }

  /** The hits the source has still to deliver to the merge: its current hit
      first if that has not been used yet, then all hits not yet handed out. */
  function Pending(s: Source): (r: seq<Hit>)
    requires Valid(s)
    ensures |r| == (if s.eof then 0 else |s.hits| - s.pos + (if s.used then 0 else 1))
  {
    if s.eof then [] else if s.used then s.hits[s.pos..] else s.hits[s.pos - 1..]
  }

  /** Advancing a source whose hit was used delivers nothing: the pending hits
      stay the same, and the new current hit, if any, is the first of them. */
  lemma NextHitKeepsPending(s: Source)
    requires Valid(s) && s.used
    ensures Valid(NextHit(s))
    ensures Pending(NextHit(s)) == Pending(s)
    ensures !NextHit(s).eof ==> Pending(s) != [] && Pending(s)[0] == NextHit(s).current
  {
  }

  /** Marking the current hit used delivers it: it leaves the pending hits. */
  lemma UsingDelivers(s: Source)
    requires Valid(s) && !s.used && !s.eof
    ensures Valid(s.(used := true))
    ensures Pending(s) == [s.current] + Pending(s.(used := true))
  {
  }

  /** Every hit of a fresh source is pending. */
  lemma FreshPending(hits: seq<Hit>, atEnd: bool)
    requires atEnd ==> hits == []
    ensures Pending(Fresh(hits, atEnd)) == hits
  {
  }
}
