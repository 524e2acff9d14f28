/**
  The resumable decoder of `tide_decoder_feed` as a state machine, and the main theorem about it: every
  way of cutting a byte string into feeds gives the outcome of parsing it in one go.
 */
module Streaming {
  import opened Base
  import opened Format
  import opened Parser
  import opened Prefixes

  datatype DecoderState = DecoderState(
    buffer: bytes, st: State, parseOffset: nat, headerValidated: bool, terminal: bool, cancelled: bool)

  const FRESH := DecoderState([], INITIAL, 0, false, false, false)

  datatype Fed = Fed(status: Status, consumed: nat, next: DecoderState)

  /** Everything a feed does once the header is known to be good. */
  function ParseMore(d: DecoderState, consumed: nat, end: bool, lim: Limits): (r: Fed)
    requires d.parseOffset <= |d.buffer|
    ensures r.consumed == consumed && r.next.buffer == d.buffer && r.next.parseOffset <= |r.next.buffer|
  {
    var o := ParseRecords(d.buffer, d.parseOffset, |d.buffer|, 0, lim, d.st);
    var d' := d.(st := o.st);
    assert o.status == TRUNCATED ==> o.st.prefix <= |d.buffer| by {
      if o.status == TRUNCATED { TruncatedInside(d.buffer, d.parseOffset, |d.buffer|, 0, lim, d.st); }
    }
    if o.status == OK then Fed(OK, consumed, d'.(parseOffset := |d.buffer|, terminal := end))
    else if o.status == TRUNCATED then
      if end then Fed(PARTIAL, consumed, d'.(terminal := true))
      else Fed(OK, consumed, d'.(parseOffset := o.st.prefix))
    else Fed(o.status, consumed, d'.(terminal := true))
  }

  function Feed(d: DecoderState, chunk: bytes, end: bool, lim: Limits): (r: Fed)
    requires d.parseOffset <= |d.buffer|
    ensures r.next.parseOffset <= |r.next.buffer|
  {
    if d.cancelled then Fed(CANCELLED, 0, d)
    else if d.terminal then Fed(INVALID_ARGUMENT, 0, d)
    else if !Fits(|d.buffer| + |chunk|, lim.maxAggregateAlloc) then Fed(RESOURCE, 0, d)
    else
      var d1 := d.(buffer := d.buffer + chunk);
      if d.headerValidated then ParseMore(d1, |chunk|, end, lim)
      else if !end && |d1.buffer| < HEADER_SIZE then Fed(OK, |chunk|, d1)
      else
        var s := ValidateHeader(d1.buffer, lim);
        if s != OK then Fed(AtEnd(s, end), |chunk|, d1.(terminal := true))
        else
          HeaderLength(d1.buffer, lim);
          ParseMore(d1.(headerValidated := true, parseOffset := HEADER_SIZE, st := Advance(d1.st, HEADER_SIZE)),
                    |chunk|, end, lim)
  }

  /** What a run of feeds has established: the rest of `data` remains to be parsed from `parseOffset`. */
  ghost predicate OnTrack(d: DecoderState, data: bytes, lim: Limits) {
    && d.buffer <= data && !d.terminal && !d.cancelled
    && (!d.headerValidated ==> |d.buffer| < HEADER_SIZE && d.st == INITIAL && d.parseOffset == 0)
    && (d.headerValidated ==>
          && HEADER_SIZE <= d.parseOffset == d.st.prefix <= |d.buffer|
          && ValidateHeader(data, lim) == OK
          && ParseRecords(data, HEADER_SIZE, |data|, 0, lim, Advance(INITIAL, HEADER_SIZE))
             == ParseRecords(data, d.parseOffset, |data|, 0, lim, d.st))
  }

  /** Either the run goes on, or it has ended with the verdict of the one-shot parse. */
  ghost predicate Settled(r: Fed, data: bytes, lim: Limits) {
    r.next.terminal && !r.next.cancelled && Outcome(r.status, r.next.st) == Parse(data, true, lim)
  }

  lemma MoreIsOnTrack(d: DecoderState, consumed: nat, data: bytes, lim: Limits)
    requires OnTrack(d, data, lim) && d.headerValidated
    ensures var r := ParseMore(d, consumed, false, lim);
            if r.status == OK then OnTrack(r.next, data, lim) else Settled(r, data, lim)
  {
    hide ParseRecords, ValidateHeader;
    var rest := data[|d.buffer|..];
    assert data == d.buffer + rest;
    ParseResumes(d.buffer, rest, d.parseOffset, 0, lim, d.st);
  }

  lemma LastIsSettled(d: DecoderState, consumed: nat, data: bytes, lim: Limits)
    requires OnTrack(d, data, lim) && d.headerValidated && d.buffer == data
    ensures Settled(ParseMore(d, consumed, true, lim), data, lim)
  {
    hide ParseRecords, ValidateHeader;
  }

  /** One feed of a plan whose bytes add up to `data`. */
  lemma FeedIsOnTrack(d: DecoderState, chunk: bytes, end: bool, data: bytes, lim: Limits)
    requires OnTrack(d, data, lim) && d.buffer + chunk <= data && Fits(|data|, lim.maxAggregateAlloc)
    requires end ==> d.buffer + chunk == data
    ensures var r := Feed(d, chunk, end, lim);
            && r.consumed == |chunk|
            && (if r.status == OK && !end then OnTrack(r.next, data, lim) && r.next.buffer == d.buffer + chunk
                else Settled(r, data, lim))
  {
    hide ParseRecords, ParseMore, ValidateHeader;
    var d1 := d.(buffer := d.buffer + chunk);
    if d.headerValidated {
      if end { LastIsSettled(d1, |chunk|, data, lim); } else { MoreIsOnTrack(d1, |chunk|, data, lim); }
    } else if end || |d1.buffer| >= HEADER_SIZE {
      assert d1.buffer == data[..|d1.buffer|];
      if |d1.buffer| >= HEADER_SIZE { HeaderAgrees(data, |d1.buffer|, lim); }
      HeaderLength(d1.buffer, lim);
      if ValidateHeader(d1.buffer, lim) == OK {
        var d2 := d1.(headerValidated := true, parseOffset := HEADER_SIZE, st := Advance(d1.st, HEADER_SIZE));
        if end { LastIsSettled(d2, |chunk|, data, lim); } else { MoreIsOnTrack(d2, |chunk|, data, lim); }
      }
    }
  }

  function Concat(plan: seq<bytes>): bytes {
    if plan == [] then [] else plan[0] + Concat(plan[1..])
  }

  /** Feeds the plan in order, the last chunk with `end` set, up to the first status that is not OK. */
  function Run(d: DecoderState, plan: seq<bytes>, lim: Limits): (r: Fed)
    requires |plan| > 0 && d.parseOffset <= |d.buffer|
    ensures r.next.parseOffset <= |r.next.buffer|
    decreases |plan|
  {
    if |plan| == 1 then Feed(d, plan[0], true, lim)
    else
      var r := Feed(d, plan[0], false, lim);
      if r.status != OK then r else Run(r.next, plan[1..], lim)
  }

  lemma {:induction false} RunIsSettled(d: DecoderState, plan: seq<bytes>, data: bytes, lim: Limits)
    requires |plan| > 0 && OnTrack(d, data, lim) && data == d.buffer + Concat(plan)
    requires Fits(|data|, lim.maxAggregateAlloc)
    ensures d.parseOffset <= |d.buffer| && Settled(Run(d, plan, lim), data, lim)
    decreases |plan|
  {
    hide Feed, OnTrack, Settled;
    TrackOffset(d, data, lim);
    var rest := Concat(plan[1..]);
    assert data == d.buffer + plan[0] + rest;
    FeedIsOnTrack(d, plan[0], |plan| == 1, data, lim);
    if |plan| > 1 {
      var r := Feed(d, plan[0], false, lim);
      if r.status == OK { RunIsSettled(r.next, plan[1..], data, lim); }
    }
  }

  lemma TrackOffset(d: DecoderState, data: bytes, lim: Limits)
    requires OnTrack(d, data, lim)
    ensures d.parseOffset <= |d.buffer|
  {}

  /**
    Chunk-plan independence: for every byte string within the aggregate limit and every split into feeds,
    empty ones included, the first status that is not OK (or OK), the events, the track table and the valid
    prefix are those of the one-shot parse; after that, feeds of anything change nothing and consume nothing.
   */
  lemma ChunkPlanIndependence(plan: seq<bytes>, lim: Limits, later: bytes, end: bool)
    requires |plan| > 0 && Fits(|Concat(plan)|, lim.maxAggregateAlloc)
    ensures var r := Run(FRESH, plan, lim);
            && Outcome(r.status, r.next.st) == Parse(Concat(plan), true, lim)
            && Feed(r.next, later, end, lim) == Fed(INVALID_ARGUMENT, 0, r.next)
  {
    hide ParseRecords, ValidateHeader, Run;
    assert [] + Concat(plan) == Concat(plan);
    RunIsSettled(FRESH, plan, Concat(plan), lim);
  }

  // ----- feeds that do nothing

  /**
    A chunk that would take the buffer over the aggregate limit is refused before anything happens: the decoder
    goes on exactly as if it had never been offered, and a smaller chunk is still welcome.
   */
  lemma OversizeChangesNothing(d: DecoderState, big: bytes, end: bool, chunk: bytes, end': bool, lim: Limits)
    requires d.parseOffset <= |d.buffer| && !d.terminal && !d.cancelled
    requires |d.buffer| + |big| > U64_MAX || (lim.maxAggregateAlloc != 0 && |d.buffer| + |big| > lim.maxAggregateAlloc)
    ensures Feed(d, big, end, lim) == Fed(RESOURCE, 0, d)
    ensures Feed(Feed(d, big, end, lim).next, chunk, end', lim) == Feed(d, chunk, end', lim)
  {
    hide ParseMore, ValidateHeader;
  }

  /** A cancelled decoder answers CANCELLED for ever, a finished one INVALID_ARGUMENT; neither takes a byte. */
  lemma ClosedDecoderTakesNothing(d: DecoderState, chunk: bytes, end: bool, lim: Limits)
    requires d.parseOffset <= |d.buffer| && (d.cancelled || d.terminal)
    ensures Feed(d, chunk, end, lim) == Fed(if d.cancelled then CANCELLED else INVALID_ARGUMENT, 0, d)
  {}

  /** Every other feed takes all its bytes. */
  lemma FeedTakesAll(d: DecoderState, chunk: bytes, end: bool, lim: Limits)
    requires d.parseOffset <= |d.buffer| && !d.terminal && !d.cancelled
    requires |d.buffer| + |chunk| <= U64_MAX && (lim.maxAggregateAlloc == 0 || |d.buffer| + |chunk| <= lim.maxAggregateAlloc)
    ensures var r := Feed(d, chunk, end, lim);
            r.consumed == |chunk| && r.next.buffer == d.buffer + chunk && (end ==> r.next.terminal)
  {
    hide ParseRecords, ValidateHeader;
  }
}
