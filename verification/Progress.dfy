/** What is out before the end: the state after every feed that is not the last, and what a caller then knows. */
module Progress {
  import opened Base
  import opened Format
  import opened Parser
  import opened Prefixes
  import opened Rationals
  import opened Streaming
  import opened Recovery
  import opened Writer
  import opened Forest

  /** Feeds a plan without ever announcing the end, up to the first status that is not OK. */
  function RunOpen(d: DecoderState, plan: seq<bytes>, lim: Limits): (r: Fed)
    requires d.parseOffset <= |d.buffer|
    ensures r.next.parseOffset <= |r.next.buffer|
    decreases |plan|
  {
    if plan == [] then Fed(OK, 0, d)
    else
      var r := Feed(d, plan[0], false, lim);
      if r.status != OK then r else RunOpen(r.next, plan[1..], lim)
  }

  /** A short tail is no verdict while more may come. */
  function Waiting(s: Status): Status { if s == TRUNCATED then OK else s }

  /** The decoder's state is that of parsing what it has buffered. */
  ghost predicate Current(d: DecoderState, lim: Limits) {
    && !d.terminal && !d.cancelled
    && d.st == Parse(d.buffer, false, lim).st && Waiting(Parse(d.buffer, false, lim).status) == OK
    && (!d.headerValidated ==> |d.buffer| < HEADER_SIZE && d.st == INITIAL && d.parseOffset == 0)
    && (d.headerValidated ==>
          && ValidateHeader(d.buffer, lim) == OK && HEADER_SIZE <= d.parseOffset == d.st.prefix <= |d.buffer|)
  }

  /** Parsing on from a current state is parsing everything buffered. */
  lemma MoreIsCurrent(d: DecoderState, x: bytes, consumed: nat, lim: Limits)
    requires Current(d, lim) && d.headerValidated
    ensures var d1 := d.(buffer := d.buffer + x);
            var r := ParseMore(d1, consumed, false, lim);
            var o := Parse(d.buffer + x, false, lim);
            && r.status == Waiting(o.status) && r.next.st == o.st
            && (r.status == OK ==> Current(r.next, lim) && r.next.buffer == d.buffer + x)
  {
    hide ParseRecords, ValidateHeader;
    HeaderLength(d.buffer, lim);
    var st := Advance(INITIAL, HEADER_SIZE);
    ParseResumes(d.buffer, x, HEADER_SIZE, 0, lim, st);
    ParseResumes(d.buffer + x, [], HEADER_SIZE, 0, lim, st);
    assert (d.buffer + x)[..|d.buffer|] == d.buffer;
    HeaderAgrees(d.buffer + x, |d.buffer|, lim);
  }

  lemma FeedIsCurrent(d: DecoderState, chunk: bytes, lim: Limits)
    requires Current(d, lim) && Fits(|d.buffer| + |chunk|, lim.maxAggregateAlloc)
    ensures d.parseOffset <= |d.buffer|
    ensures var r := Feed(d, chunk, false, lim);
            var o := Parse(d.buffer + chunk, false, lim);
            && r.status == Waiting(o.status) && r.next.st == o.st && r.consumed == |chunk|
            && (r.status == OK ==> Current(r.next, lim) && r.next.buffer == d.buffer + chunk)
  {
    hide ParseRecords, ParseMore, ValidateHeader;
    var all := d.buffer + chunk;
    HeaderLength(all, lim);
    if d.headerValidated {
      MoreIsCurrent(d, chunk, |chunk|, lim);
    } else if |all| >= HEADER_SIZE && ValidateHeader(all, lim) == OK {
      FirstParse(d.(buffer := all), |chunk|, lim);
    }
  }

  /** The parse that follows the header check. */
  lemma FirstParse(d: DecoderState, consumed: nat, lim: Limits)
    requires ValidateHeader(d.buffer, lim) == OK && d.st == INITIAL && !d.terminal && !d.cancelled
    ensures |d.buffer| >= HEADER_SIZE
    ensures var d2 := d.(headerValidated := true, parseOffset := HEADER_SIZE, st := Advance(d.st, HEADER_SIZE));
            var r := ParseMore(d2, consumed, false, lim);
            var o := Parse(d.buffer, false, lim);
            && r.status == Waiting(o.status) && r.next.st == o.st
            && (r.status == OK ==> Current(r.next, lim) && r.next.buffer == d.buffer)
  {
    hide ParseRecords, ValidateHeader;
    HeaderLength(d.buffer, lim);
    ParseResumes(d.buffer, [], HEADER_SIZE, 0, lim, Advance(INITIAL, HEADER_SIZE));
  }

  lemma {:induction false} RunOpenIsCurrent(d: DecoderState, plan: seq<bytes>, lim: Limits)
    requires Current(d, lim) && Fits(|d.buffer| + |Concat(plan)|, lim.maxAggregateAlloc)
    ensures d.parseOffset <= |d.buffer|
    ensures var r := RunOpen(d, plan, lim);
            var o := Parse(d.buffer + Concat(plan), false, lim);
            && r.status == Waiting(o.status) && r.next.st == o.st
            && (r.status == OK ==> Current(r.next, lim) && r.next.buffer == d.buffer + Concat(plan))
    decreases |plan|
  {
    hide Feed, Current, Parse;
    CurrentOffset(d, lim);
    if plan == [] {
      assert d.buffer + Concat(plan) == d.buffer;
      CurrentNow(d, lim);
    } else {
      FeedIsCurrent(d, plan[0], lim);
      var r := Feed(d, plan[0], false, lim);
      assert d.buffer + Concat(plan) == d.buffer + plan[0] + Concat(plan[1..]);
      if r.status == OK {
        RunOpenIsCurrent(r.next, plan[1..], lim);
      } else {
        VerdictIsFinal(d.buffer + plan[0], Concat(plan[1..]), lim);
      }
    }
  }

  lemma CurrentOffset(d: DecoderState, lim: Limits)
    requires Current(d, lim)
    ensures d.parseOffset <= |d.buffer|
  {}

  lemma CurrentNow(d: DecoderState, lim: Limits)
    requires Current(d, lim)
    ensures Waiting(Parse(d.buffer, false, lim).status) == OK && d.st == Parse(d.buffer, false, lim).st
  {}

  /** A hard verdict on a prefix, its events included, is the verdict on everything that starts with it. */
  lemma VerdictIsFinal(data: bytes, x: bytes, lim: Limits)
    requires Waiting(Parse(data, false, lim).status) != OK
    ensures Parse(data + x, false, lim) == Parse(data, false, lim)
  {
    hide ParseRecords, ValidateHeader;
    HeaderLength(data, lim);
    assert (data + x)[..|data|] == data;
    HeaderAgrees(data + x, |data|, lim);
    if ValidateHeader(data, lim) == OK {
      ParseResumes(data, x, HEADER_SIZE, 0, lim, Advance(INITIAL, HEADER_SIZE));
    }
  }

  /**
    Progressive emission: after any feeds that did not announce the end, the events, the track table, the valid
    prefix and the verdict are those of parsing the bytes fed so far. Nothing is held back for the last feed.
   */
  lemma EmitsAsItGoes(plan: seq<bytes>, lim: Limits)
    requires Fits(|Concat(plan)|, lim.maxAggregateAlloc)
    ensures var r := RunOpen(FRESH, plan, lim);
            var o := Parse(Concat(plan), false, lim);
            r.status == Waiting(o.status) && r.next.st == o.st
  {
    hide RunOpen, Parse;
    FreshIsCurrent(lim);
    RunOpenIsCurrent(FRESH, plan, lim);
    assert [] + Concat(plan) == Concat(plan);
  }

  lemma FreshIsCurrent(lim: Limits)
    ensures Current(FRESH, lim)
  {}

  /**
    At every byte of an accepted file, however its first `k` bytes were fed: the decoder is still open, has emitted
    exactly the events of the top-level records that end by `k`, and stands at the last boundary before `k`.
   */
  lemma EmitsEachCompleteRecord(file: bytes, k: nat, plan: seq<bytes>, lim: Limits)
    requires Parse(file, true, lim).status == OK && HEADER_SIZE <= k <= |file| && Concat(plan) == file[..k]
    requires Fits(k, lim.maxAggregateAlloc)
    ensures var r := RunOpen(FRESH, plan, lim);
            && r.status == OK && !r.next.terminal
            && r.next.st.log == EventsBy(TopSteps(file, lim), k)
            && LastBoundary(TopSteps(file, lim), HEADER_SIZE, k, r.next.st.prefix)
  {
    hide RunOpen, ParseRecords, TopSteps, EventsBy, LastBoundary, ValidateHeader, Current;
    CrashAtAnyByte(file, k, lim);
    EndOnlyNames(file[..k], lim);
    FreshIsCurrent(lim);
    RunOpenIsCurrent(FRESH, plan, lim);
    assert [] + Concat(plan) == Concat(plan);
    var r := RunOpen(FRESH, plan, lim);
    CurrentIsOpen(r.next, lim);
  }

  /** Announcing the end changes the name of a truncated verdict and nothing else. */
  lemma EndOnlyNames(data: bytes, lim: Limits)
    ensures Parse(data, true, lim).st == Parse(data, false, lim).st
    ensures Parse(data, true, lim).status in {OK, PARTIAL} <==> Waiting(Parse(data, false, lim).status) == OK
  {
    hide ParseRecords, ValidateHeader;
    HeaderLength(data, lim);
    if ValidateHeader(data, lim) == OK {
      ParseNeverPartial(data, HEADER_SIZE, |data|, 0, lim, Advance(INITIAL, HEADER_SIZE));
    }
  }

  lemma CurrentIsOpen(d: DecoderState, lim: Limits)
    requires Current(d, lim)
    ensures !d.terminal
  {}

  /** A header and one complete record, fed without announcing the end: the record's event is already out. */
  lemma EventBeforeTheEnd(base: Rational, uuid: bytes, leaf: Node, lim: Limits)
    requires IsReduced(base) && |uuid| == 16 && !AllZero(uuid) && 0x400_0000 <= lim.maxRecordSize
    requires leaf.Leaf? && NodeLegal(leaf) && NodeFits(leaf, 0, lim)
    requires Fits(HEADER_SIZE + |NodeBytes(leaf)|, lim.maxAggregateAlloc)
    ensures var r := RunOpen(FRESH, [FileHeader(base, uuid), NodeBytes(leaf)], lim);
            && r.status == OK && !r.next.terminal
            && r.next.st.log == [NodeFrame(leaf, HEADER_SIZE, 0).Seen()]
  {
    hide RunOpen, ParseRecords, ValidateHeader, FileHeader, NodeBytes, NodeFits, NodeLegal, IsReduced, AllZero, Current, NodeFrame;
    var plan: seq<bytes> := [FileHeader(base, uuid), NodeBytes(leaf)];
    var file := FileHeader(base, uuid) + ForestBytes([leaf]);
    HeaderRoundTrip(base, uuid, [], lim);
    OneLeaf(leaf, lim);
    ConcatTwo(FileHeader(base, uuid), NodeBytes(leaf));
    NestedGrammar(base, uuid, [leaf], lim);
    FreshIsCurrent(lim);
    RunOpenIsCurrent(FRESH, plan, lim);
    assert [] + Concat(plan) == Concat(plan);
    CurrentIsOpen(RunOpen(FRESH, plan, lim).next, lim);
  }

  lemma ConcatTwo(a: bytes, b: bytes)
    ensures Concat([a, b]) == a + b
  {
    assert [a, b][1..] == [b] && |[b][1..]| == 0;
    assert Concat([b]) == b;
  }

  lemma OneLeaf(leaf: Node, lim: Limits)
    requires leaf.Leaf? && NodeLegal(leaf) && NodeFits(leaf, 0, lim)
    ensures ForestBytes([leaf]) == NodeBytes(leaf) && ForestLegal([leaf]) && ForestFits([leaf], 0, lim)
    ensures ForestEvents([leaf], HEADER_SIZE, 0) == [NodeFrame(leaf, HEADER_SIZE, 0).Seen()]
  {
    hide NodeBytes;
    assert [leaf][1..] == [];
    assert ForestBytes([]) == [] && ForestFits([], 0, lim) && ForestLegal([]);
  }
}
