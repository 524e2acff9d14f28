/** Clipping a packet interval against an edit list: `src/model/edit.c`. */
module EditProjection {
  import opened Base
  import opened Rationals
  import opened Format
  import opened Tables

  datatype Projection = Projection(status: Status, pts: int, duration: int)

  function Max(a: int, b: int): int { if a > b then a else b }
  function Min(a: int, b: int): int { if a < b then a else b }

  /** The packet and the source interval of `e` share a moment. */
  predicate Overlaps(e: Edit, pts: int, duration: int) {
    Max(pts, e.sourceStart) < Min(pts + duration, e.SourceEnd())
  }

  /** What the loop rejects before it looks for an overlap. */
  predicate EntryOk(e: Edit, pts: int, duration: int) {
    IsReduced(e.rate) && e.outputDuration >= 0 && e.SourceEnd() <= I64_MAX && pts + duration <= I64_MAX
  }

  function Project(edits: seq<Edit>, pts: i64, duration: i64): Projection
    decreases |edits|
  {
    if edits == [] then Projection(PARTIAL, 0, 0)
    else
      var e := edits[0];
      if !EntryOk(e, pts, duration) then Projection(TIMELINE, 0, 0)
      else if Overlaps(e, pts, duration) then
        var start := Max(pts, e.sourceStart);
        if e.outputStart + (start - e.sourceStart) > I64_MAX then Projection(TIMELINE, 0, 0)
        else Projection(OK, e.outputStart + (start - e.sourceStart), Min(pts + duration, e.SourceEnd()) - start)
      else Project(edits[1..], pts, duration)
  }

  /** Every intermediate is declared `i64`, so that the verifier shows none of them overflows. */
  method ProjectOne(edits: seq<Edit>, pts: i64, duration: i64) returns (status: Status, outPts: i64, outDuration: i64)
    ensures duration < 0 ==> status == INVALID_ARGUMENT
    ensures duration >= 0 ==>
              && status == Project(edits, pts, duration).status
              && (status == OK ==> Projection(OK, outPts, outDuration) == Project(edits, pts, duration))
  {
    hide IsReduced;
    outPts, outDuration := 0, 0;
    if duration < 0 { return INVALID_ARGUMENT, 0, 0; }
    for i := 0 to |edits|
      invariant Project(edits, pts, duration) == Project(edits[i..], pts, duration)
    {
      var e := edits[i];
      assert edits[i..][0] == e && edits[i..][1..] == edits[i + 1..];
      if !IsReduced(e.rate) || e.outputDuration < 0 || e.sourceStart > I64_MAX - e.outputDuration
         || pts > I64_MAX - duration {
        return TIMELINE, 0, 0;
      }
      var sourceEnd: i64 := e.sourceStart + e.outputDuration;
      var packetEnd: i64 := pts + duration;
      var start: i64 := if pts > e.sourceStart then pts else e.sourceStart;
      var end: i64 := if packetEnd < sourceEnd then packetEnd else sourceEnd;
      if start < end {
        var shift: i64 := start - e.sourceStart;
        if e.outputStart > I64_MAX - shift { return TIMELINE, 0, 0; }
        return OK, e.outputStart + shift, end - start;
      }
    }
    return PARTIAL, 0, 0;
  }

  predicate During(t: int, start: int, length: int) { start <= t < start + length }

  /** To overlap is to share a moment. */
  lemma OverlapsMeans(e: Edit, pts: int, duration: int)
    ensures Overlaps(e, pts, duration)
       <==> exists t :: During(t, pts, duration) && During(t, e.sourceStart, e.outputDuration)
  {
    if Overlaps(e, pts, duration) {
      var t := Max(pts, e.sourceStart);
      assert During(t, pts, duration) && During(t, e.sourceStart, e.outputDuration);
    }
  }

  /**
    One edit at a time, on any list: an entry with a bad rate, a negative duration or an overflowing interval is
    TIMELINE, as is an overlap whose output overflows; an overlap is projected; otherwise the next edit decides.
   */
  lemma ProjectStep(edits: seq<Edit>, pts: i64, duration: i64)
    ensures edits == [] ==> Project(edits, pts, duration).status == PARTIAL
    ensures edits != [] ==>
              var e, r := edits[0], Project(edits, pts, duration);
              if !IsReduced(e.rate) || e.outputDuration < 0 || e.sourceStart + e.outputDuration > I64_MAX
                 || pts + duration > I64_MAX
              then r.status == TIMELINE
              else if pts < e.sourceStart + e.outputDuration && e.sourceStart < pts + duration && duration > 0
                      && e.outputDuration > 0
              then
                var skip := if pts > e.sourceStart then pts - e.sourceStart else 0;
                if e.outputStart + skip > I64_MAX then r.status == TIMELINE
                else r.status == OK && r.pts == e.outputStart + skip
              else duration >= 0 ==> r == Project(edits[1..], pts, duration)
  {
    hide IsReduced;
  }

  /** The first edit whose source interval meets the packet. */
  function FirstOverlap(edits: seq<Edit>, pts: int, duration: int): (k: nat)
    ensures k <= |edits| && (forall i :: 0 <= i < k ==> !Overlaps(edits[i], pts, duration))
    ensures k < |edits| ==> Overlaps(edits[k], pts, duration)
  {
    if edits == [] || Overlaps(edits[0], pts, duration) then 0 else 1 + FirstOverlap(edits[1..], pts, duration)
  }

  /** A projected packet is its overlap with the first overlapping edit, moved by that edit's offset. */
  lemma {:induction false} ProjectionIsTranslation(edits: seq<Edit>, pts: i64, duration: i64)
    requires Project(edits, pts, duration).status == OK
    ensures var r, k := Project(edits, pts, duration), FirstOverlap(edits, pts, duration);
            && k < |edits|
            && var e := edits[k];
            && r.pts - e.outputStart == Max(pts, e.sourceStart) - e.sourceStart
            && r.duration == Min(pts + duration, e.SourceEnd()) - Max(pts, e.sourceStart) > 0
            && e.outputStart <= r.pts && r.pts + r.duration <= e.OutputEnd()
    decreases |edits|
  {
    hide IsReduced;
    if !Overlaps(edits[0], pts, duration) {
      ProjectionIsTranslation(edits[1..], pts, duration);
    }
  }

  predicate Disjoint(a: int, aLength: int, b: int, bLength: int) { a + aLength <= b || b + bLength <= a }

  lemma ProjectionKeepsApart(edits: seq<Edit>, p: i64, pLength: i64, q: i64, qLength: i64)
    requires EditsOrdered(edits) && pLength >= 0 && qLength >= 0 && Disjoint(p, pLength, q, qLength)
    requires Project(edits, p, pLength).status == OK && Project(edits, q, qLength).status == OK
    ensures var r, s := Project(edits, p, pLength), Project(edits, q, qLength);
            var i, j := FirstOverlap(edits, p, pLength), FirstOverlap(edits, q, qLength);
            && Disjoint(r.pts, r.duration, s.pts, s.duration)
            && i < |edits| && edits[i].outputStart <= r.pts && r.pts + r.duration <= edits[i].OutputEnd()
            && j < |edits| && edits[j].outputStart <= s.pts && s.pts + s.duration <= edits[j].OutputEnd()
            && r.pts + r.duration <= I64_MAX && s.pts + s.duration <= I64_MAX
  {
    hide IsReduced, Project, FirstOverlap, Max, Min, EditsOrdered;
    ProjectionIsTranslation(edits, p, pLength);
    ProjectionIsTranslation(edits, q, qLength);
    var i, j := FirstOverlap(edits, p, pLength), FirstOverlap(edits, q, qLength);
    InOutputOrder(edits, i, j);
    if i == j { ClipsKeepApart(edits[i], p, pLength, q, qLength); }
  }

  lemma InOutputOrder(edits: seq<Edit>, i: nat, j: nat)
    requires EditsOrdered(edits) && i < |edits| && j < |edits|
    ensures edits[i].OutputEnd() <= I64_MAX && edits[j].OutputEnd() <= I64_MAX
    ensures i < j ==> edits[i].OutputEnd() <= edits[j].outputStart
    ensures j < i ==> edits[j].OutputEnd() <= edits[i].outputStart
  {
    hide IsReduced;
  }

  /** Clipping two disjoint intervals to one edit leaves them disjoint. */
  lemma ClipsKeepApart(e: Edit, p: i64, pLength: i64, q: i64, qLength: i64)
    requires Disjoint(p, pLength, q, qLength)
    ensures Min(p + pLength, e.SourceEnd()) <= Max(q, e.sourceStart) || Min(q + qLength, e.SourceEnd()) <= Max(p, e.sourceStart)
  {}

  /**
    Edit projection keeps packets apart: over every edit list the EDIT_LIST validator accepts, two packets with
    disjoint source intervals that both project get disjoint output intervals, each inside the output interval
    of its first overlapping edit.
   */
  lemma AcceptedEditsKeepApart(
    payload: bytes, tracks: seq<Track>, lim: Limits, p: i64, pLength: i64, q: i64, qLength: i64)
    requires CheckEditList(payload, tracks, lim).Accepted?
    requires pLength >= 0 && qLength >= 0 && Disjoint(p, pLength, q, qLength)
    requires var edits := CheckEditList(payload, tracks, lim).entries;
             Project(edits, p, pLength).status == OK && Project(edits, q, qLength).status == OK
    ensures var edits := CheckEditList(payload, tracks, lim).entries;
            var r, s := Project(edits, p, pLength), Project(edits, q, qLength);
            var i, j := FirstOverlap(edits, p, pLength), FirstOverlap(edits, q, qLength);
            && Disjoint(r.pts, r.duration, s.pts, s.duration)
            && i < |edits| && edits[i].outputStart <= r.pts && r.pts + r.duration <= edits[i].OutputEnd()
            && j < |edits| && edits[j].outputStart <= s.pts && s.pts + s.duration <= edits[j].OutputEnd()
            && r.pts + r.duration <= I64_MAX && s.pts + s.duration <= I64_MAX
  {
    hide CheckEditList, Project, EditsOrdered;
    EditListOrdered(payload, tracks, lim);
    ProjectionKeepsApart(CheckEditList(payload, tracks, lim).entries, p, pLength, q, qLength);
  }

  /** The loop meets an entry it must refuse no later than the first overlap. */
  predicate MeetsBadEntry(edits: seq<Edit>, pts: int, duration: int) {
    exists i :: 0 <= i < |edits| && i <= FirstOverlap(edits, pts, duration) && !EntryOk(edits[i], pts, duration)
  }

  lemma MeetsBadEntryUnfold(edits: seq<Edit>, pts: int, duration: int)
    requires edits != [] && !Overlaps(edits[0], pts, duration)
    ensures MeetsBadEntry(edits, pts, duration)
       <==> !EntryOk(edits[0], pts, duration) || MeetsBadEntry(edits[1..], pts, duration)
  {
    hide EntryOk, Overlaps;
    if i :| 0 <= i < |edits| && i <= FirstOverlap(edits, pts, duration) && !EntryOk(edits[i], pts, duration) && i > 0 {
      assert edits[1..][i - 1] == edits[i];
    }
    if MeetsBadEntry(edits[1..], pts, duration) {
      var i :| 0 <= i < |edits[1..]| && i <= FirstOverlap(edits[1..], pts, duration) && !EntryOk(edits[1..][i], pts, duration);
      assert edits[i + 1] == edits[1..][i];
    }
  }

  /**
    On a validated list the outcome is decided before any projection: TIMELINE exactly when the packet's end or
    a source interval up to the first overlap overflows, OK when there is an overlap, PARTIAL otherwise. The
    output side never overflows.
   */
  lemma {:induction false} ProjectionOutcome(edits: seq<Edit>, pts: i64, duration: i64)
    requires EditsOrdered(edits) && duration >= 0
    ensures Project(edits, pts, duration).status
         == if MeetsBadEntry(edits, pts, duration) then TIMELINE
            else if FirstOverlap(edits, pts, duration) < |edits| then OK else PARTIAL
    decreases |edits|
  {
    hide IsReduced, MeetsBadEntry;
    if edits == [] {
      NoBadEntry(edits, pts, duration);
    } else if Overlaps(edits[0], pts, duration) {
      BadEntryFirst(edits, pts, duration);
    } else {
      MeetsBadEntryUnfold(edits, pts, duration);
      assert EditsOrdered(edits[1..]);
      ProjectionOutcome(edits[1..], pts, duration);
    }
  }

  lemma NoBadEntry(edits: seq<Edit>, pts: int, duration: int)
    requires edits == []
    ensures !MeetsBadEntry(edits, pts, duration)
  {}

  lemma BadEntryFirst(edits: seq<Edit>, pts: int, duration: int)
    requires edits != [] && Overlaps(edits[0], pts, duration)
    ensures MeetsBadEntry(edits, pts, duration) <==> !EntryOk(edits[0], pts, duration)
  {
    hide EntryOk, Overlaps;
  }
}
