/** Crash at any byte, prefix repair and burst corruption, for every accepted or scanned file. */
module Recovery {
  import opened Base
  import opened Codec
  import opened Format
  import opened Parser
  import opened Prefixes
  import Crc32c

  // ----- the top-level records of a parse

  /** A top-level record that was accepted: where it ends and the events it emitted, its children's included. */
  datatype Step = Step(begin: nat, end: nat, events: seq<Event>)

  function Steps(data: bytes, begin: nat, depth: nat, lim: Limits, st: State): seq<Step>
    requires begin <= |data|
    decreases |data| - begin
  {
    if begin == |data| then []
    else
      match NextRecord(data[begin..], begin, depth, lim)
      case Stop(_) => []
      case Found(f) =>
        var o := ProcessRecord(data, f, lim, st);
        if o.status != OK then []
        else [Step(begin, f.CrcEnd(), o.st.log[if |st.log| <= |o.st.log| then |st.log| else 0..])]
             + Steps(data, f.CrcEnd(), depth, lim, Advance(o.st, f.CrcEnd()))
  }

  function TopSteps(data: bytes, lim: Limits): seq<Step> {
    if |data| < HEADER_SIZE then [] else Steps(data, HEADER_SIZE, 0, lim, Advance(INITIAL, HEADER_SIZE))
  }

  /** The events of the steps that end by `k`. */
  function EventsBy(steps: seq<Step>, k: nat): seq<Event> {
    if steps == [] then []
    else (if steps[0].end <= k then steps[0].events else []) + EventsBy(steps[1..], k)
  }

  /** `v` is the greatest record boundary not above `k`; `from` is the boundary before the first step. */
  predicate LastBoundary(steps: seq<Step>, from: nat, k: nat, v: nat) {
    && v <= k
    && (v == from || exists i :: 0 <= i < |steps| && steps[i].end == v)
    && (forall i :: 0 <= i < |steps| && steps[i].end <= k ==> steps[i].end <= v)
  }

  // ----- logs only grow, and the valid prefix stays in range

  lemma {:induction false} ProcessGrows(data: bytes, f: Frame, lim: Limits, st: State)
    requires f.CrcEnd() <= |data| && 10 <= f.headerSize
    ensures var o := ProcessRecord(data, f, lim, st);
            && st.log + [f.Seen()] <= o.st.log && o.status != TRUNCATED
            && (o.st.prefix == st.prefix || f.PayloadOffset() <= o.st.prefix <= f.PayloadEnd())
    decreases f.Size(), 0
  {
    hide ProcessLeaf, CheckGroup, ParseRecords, AlignUp;
    var p := data[f.PayloadOffset()..f.PayloadEnd()];
    var st1 := Report(st, f.Seen());
    if IsGroup(f) && CheckGroup(p, f, lim) == OK {
      ParseGrows(data, f.PayloadOffset() + GROUP_META_SIZE, f.PayloadEnd(), (f.depth + 1) % 256, lim, st1);
    }
  }

  lemma {:induction false} ParseGrows(data: bytes, begin: nat, end: nat, depth: nat, lim: Limits, st: State)
    requires begin <= end <= |data|
    ensures var o := ParseRecords(data, begin, end, depth, lim, st);
            && st.log <= o.st.log
            && (o.st.prefix == st.prefix || begin <= o.st.prefix <= end)
    decreases end - begin, 1
  {
    hide NextRecord, ProcessRecord, AlignUp;
    if begin < end {
      match NextRecord(data[begin..end], begin, depth, lim)
      case Stop(_) =>
      case Found(f) =>
        ProcessGrows(data, f, lim, st);
        var o := ProcessRecord(data, f, lim, st);
        if o.status == OK { ParseGrows(data, f.CrcEnd(), end, depth, lim, Advance(o.st, f.CrcEnd())); }
    }
  }

  // ----- crash at any byte

  lemma {:induction false} StepsAfter(data: bytes, begin: nat, depth: nat, lim: Limits, st: State, k: nat)
    requires k <= begin <= |data|
    ensures forall i :: 0 <= i < |Steps(data, begin, depth, lim, st)| ==> Steps(data, begin, depth, lim, st)[i].end > k
    ensures EventsBy(Steps(data, begin, depth, lim, st), k) == []
    decreases |data| - begin
  {
    hide NextRecord, ProcessRecord, AlignUp;
    if begin < |data| {
      match NextRecord(data[begin..], begin, depth, lim)
      case Stop(_) =>
      case Found(f) =>
        var o := ProcessRecord(data, f, lim, st);
        if o.status == OK { StepsAfter(data, f.CrcEnd(), depth, lim, Advance(o.st, f.CrcEnd()), k); }
    }
  }

  lemma {:induction false} CutParse(data: bytes, k: nat, begin: nat, lim: Limits, st: State)
    requires st.prefix == begin <= k <= |data|
    requires ParseRecords(data, begin, |data|, 0, lim, st).status == OK
    ensures var o := ParseRecords(data[..k], begin, k, 0, lim, st);
            var steps := Steps(data, begin, 0, lim, st);
            && (o.status == if o.st.prefix == k then OK else TRUNCATED)
            && LastBoundary(steps, begin, k, o.st.prefix)
            && o.st.log == st.log + EventsBy(steps, k)
    decreases |data| - begin
  {
    hide NextRecord, ProcessRecord, AlignUp, Steps, LastBoundary, EventsBy;
    if begin == k {
      StepsAfter(data, begin, 0, lim, st, k);
      BoundaryHere(Steps(data, begin, 0, lim, st), begin, k);
    } else {
      var d, w := data[..k], data[begin..];
      SliceOfPrefix(data, k, begin, k);
      assert data[begin..|data|] == w && data == d + data[k..];
      StepsUnfold(data, begin, lim, st);
      var f := NextRecord(w, begin, 0, lim).frame;
      var o := ProcessRecord(data, f, lim, st);
      var st' := Advance(o.st, f.CrcEnd());
      var first, rest := Step(begin, f.CrcEnd(), o.st.log[|st.log|..]), Steps(data, f.CrcEnd(), 0, lim, st');
      EventsCons(first, rest, k);
      if k < f.CrcEnd() {
        NextRecordCut(w, k - begin, begin, 0, lim);
        StepsAfter(data, f.CrcEnd(), 0, lim, st', k);
        BoundaryHere([first] + rest, begin, k);
      } else {
        NextRecordWithin(w, k - begin, begin, 0, lim);
        ProcessAgrees(d, data[k..], f, lim, st);
        CutParse(data, k, f.CrcEnd(), lim, st');
        StepsAfter(data, f.CrcEnd(), 0, lim, st', f.CrcEnd());
        BoundaryCons(first, rest, begin, k, ParseRecords(d, f.CrcEnd(), k, 0, lim, st').st.prefix);
        assert o.st.log == st.log + first.events;
      }
    }
  }

  lemma BoundaryHere(steps: seq<Step>, from: nat, k: nat)
    requires from <= k && forall i :: 0 <= i < |steps| ==> steps[i].end > k
    ensures LastBoundary(steps, from, k, from)
  {}

  /** Adding an earlier record that ends by `k` does not move the last boundary. */
  lemma BoundaryCons(first: Step, rest: seq<Step>, from: nat, k: nat, v: nat)
    requires first.end <= k && LastBoundary(rest, first.end, k, v)
    requires forall i :: 0 <= i < |rest| ==> rest[i].end > first.end
    ensures LastBoundary([first] + rest, from, k, v)
  {
    var steps := [first] + rest;
    if v == first.end {
      assert steps[0].end == v;
    } else {
      var i :| 0 <= i < |rest| && rest[i].end == v;
      assert steps[i + 1].end == v;
    }
  }

  lemma EventsCons(first: Step, rest: seq<Step>, k: nat)
    ensures EventsBy([first] + rest, k) == (if first.end <= k then first.events else []) + EventsBy(rest, k)
  {
    assert ([first] + rest)[1..] == rest;
  }

  lemma StepsUnfold(data: bytes, begin: nat, lim: Limits, st: State)
    requires begin < |data| && NextRecord(data[begin..], begin, 0, lim).Found?
    requires ProcessRecord(data, NextRecord(data[begin..], begin, 0, lim).frame, lim, st).status == OK
    ensures var f := NextRecord(data[begin..], begin, 0, lim).frame;
            var o := ProcessRecord(data, f, lim, st);
            && st.log <= o.st.log
            && Steps(data, begin, 0, lim, st) == [Step(begin, f.CrcEnd(), o.st.log[|st.log|..])]
                                                 + Steps(data, f.CrcEnd(), 0, lim, Advance(o.st, f.CrcEnd()))
  {
    hide NextRecord, ProcessRecord, AlignUp;
    ProcessGrows(data, NextRecord(data[begin..], begin, 0, lim).frame, lim, st);
  }

  /**
    Crash at any byte: every prefix of an accepted file parses to OK or PARTIAL, reports the greatest
    top-level record boundary it contains, and emits exactly the events of the records that end by then.
   */
  lemma CrashAtAnyByte(file: bytes, k: nat, lim: Limits)
    requires Parse(file, true, lim).status == OK && k <= |file|
    ensures var o := Parse(file[..k], true, lim);
            && (k < HEADER_SIZE ==> o == Outcome(PARTIAL, INITIAL))
            && (HEADER_SIZE <= k ==>
                  && o.status == (if o.st.prefix == k then OK else PARTIAL)
                  && LastBoundary(TopSteps(file, lim), HEADER_SIZE, k, o.st.prefix)
                  && o.st.log == EventsBy(TopSteps(file, lim), k))
    ensures Parse(file, true, lim).st.log == EventsBy(TopSteps(file, lim), |file|)
  {
    hide ParseRecords, Steps, EventsBy, LastBoundary, ValidateHeader;
    HeaderLength(file, lim);
    var st := Advance(INITIAL, HEADER_SIZE);
    CutParse(file, |file|, HEADER_SIZE, lim, st);
    assert file[..|file|] == file;
    if k < HEADER_SIZE {
      HeaderLength(file[..k], lim);
    } else {
      HeaderAgrees(file, k, lim);
      CutParse(file, k, HEADER_SIZE, lim, st);
    }
  }

  // ----- repair

  lemma {:induction false} SalvageParse(data: bytes, begin: nat, lim: Limits, st: State)
    requires st.prefix == begin <= |data|
    ensures var o := ParseRecords(data, begin, |data|, 0, lim, st);
            var v := o.st.prefix;
            && begin <= v <= |data|
            && var re := ParseRecords(data[..v], begin, v, 0, lim, st);
            && re.st.log <= o.st.log
            && (if o.status == OK || o.status == TRUNCATED then re == Outcome(OK, o.st)
                else re.status == OK || re.status == TRUNCATED)
    decreases |data| - begin
  {
    hide NextRecord, ProcessRecord, AlignUp;
    var o := ParseRecords(data, begin, |data|, 0, lim, st);
    var v := o.st.prefix;
    if begin < |data| {
      var w := data[begin..];
      assert data[begin..|data|] == w;
      match NextRecord(w, begin, 0, lim)
      case Stop(_) =>
      case Found(f) =>
        ProcessGrows(data, f, lim, st);
        var po := ProcessRecord(data, f, lim, st);
        if po.status == OK {
          var st' := Advance(po.st, f.CrcEnd());
          SalvageParse(data, f.CrcEnd(), lim, st');
          SliceOfPrefix(data, v, begin, v);
          assert data == data[..v] + data[v..];
          NextRecordWithin(w, v - begin, begin, 0, lim);
          ProcessAgrees(data[..v], data[v..], f, lim, st);
        } else if v != begin {
          SliceOfPrefix(data, v, begin, v);
          NextRecordCut(w, v - begin, begin, 0, lim);
        }
    }
  }

  /**
    Repair soundness: re-parsing exactly the valid prefix a scan reported succeeds or is partial and emits
    a prefix of the scan's events, whatever the scan's status, an error deep inside a group included. After
    a scan that was OK or PARTIAL it is OK, with the same prefix, tracks and events.
   */
  lemma RepairSound(data: bytes, lim: Limits)
    requires Parse(data, true, lim).st.prefix > 0
    ensures var o := Parse(data, true, lim);
            && o.st.prefix <= |data|
            && var re := Parse(data[..o.st.prefix], true, lim);
            && (re.status == OK || re.status == PARTIAL)
            && re.st.log <= o.st.log
            && (o.status == OK || o.status == PARTIAL ==> re == Outcome(OK, o.st))
  {
    hide ParseRecords, ValidateHeader;
    HeaderLength(data, lim);
    var st := Advance(INITIAL, HEADER_SIZE);
    SalvageParse(data, HEADER_SIZE, lim, st);
    ParseNeverPartial(data, HEADER_SIZE, |data|, 0, lim, st);
    var v := Parse(data, true, lim).st.prefix;
    HeaderAgrees(data, v, lim);
  }

  lemma {:induction false} ProcessNeverPartial(data: bytes, f: Frame, lim: Limits, st: State)
    requires f.CrcEnd() <= |data| && 10 <= f.headerSize
    ensures ProcessRecord(data, f, lim, st).status != PARTIAL
    decreases f.Size(), 0
  {
    hide ProcessLeaf, CheckGroup, ParseRecords, AlignUp;
    if IsGroup(f) && CheckGroup(data[f.PayloadOffset()..f.PayloadEnd()], f, lim) == OK {
      ParseNeverPartial(data, f.PayloadOffset() + GROUP_META_SIZE, f.PayloadEnd(), (f.depth + 1) % 256, lim,
                        Report(st, f.Seen()));
    }
  }

  /** PARTIAL is only ever the caller's reading of a truncated tail. */
  lemma {:induction false} ParseNeverPartial(data: bytes, begin: nat, end: nat, depth: nat, lim: Limits, st: State)
    requires begin <= end <= |data|
    ensures ParseRecords(data, begin, end, depth, lim, st).status != PARTIAL
    decreases end - begin, 1
  {
    hide ProcessRecord, AlignUp, DecodePrefix, Integrity;
    if begin < end {
      match NextRecord(data[begin..end], begin, depth, lim)
      case Stop(_) =>
      case Found(f) =>
        ProcessNeverPartial(data, f, lim, st);
        var o := ProcessRecord(data, f, lim, st);
        if o.status == OK { ParseNeverPartial(data, f.CrcEnd(), end, depth, lim, Advance(o.st, f.CrcEnd())); }
    }
  }

  // ----- burst corruption

  /** Windows that differ only inside `[lo, hi)`. */
  predicate DifferOnlyIn(w: bytes, v: bytes, lo: nat, hi: nat) {
    && lo <= hi <= |w| && |w| == |v| && w != v
    && forall i :: 0 <= i < |w| && !(lo <= i < hi) ==> w[i] == v[i]
  }

  lemma SliceOutside(w: bytes, v: bytes, lo: nat, hi: nat, a: nat, b: nat)
    requires DifferOnlyIn(w, v, lo, hi) && a <= b <= |w| && (b <= lo || hi <= a)
    ensures w[a..b] == v[a..b]
  {
    forall i | 0 <= i < b - a
      ensures w[a..b][i] == v[a..b][i]
    {
      assert w[a..b][i] == w[a + i] && v[a..b][i] == v[a + i];
    }
  }

  /** A burst of at most four bytes before `n` changes the CRC of the first `n` bytes. */
  lemma BurstInBody(w: bytes, v: bytes, lo: nat, hi: nat, n: nat)
    requires DifferOnlyIn(w, v, lo, hi) && 4 <= hi <= n <= |w| && hi - lo <= 4
    ensures Crc32c.Crc(w[..n]) as int != Crc32c.Crc(v[..n]) as int
  {
    hide Crc32c.Crc;
    var s, t, at := w[..n], v[..n], hi - 4;
    assert s != t by {
      SliceOutside(w, v, lo, hi, n, |w|);
      assert w == s + w[n..|w|] && v == t + v[n..|w|];
    }
    assert s[..at] == t[..at] by {
      SliceOutside(w, v, lo, hi, 0, at);
      assert s[..at] == w[0..at] && t[..at] == v[0..at];
    }
    assert s[at + 4..] == t[at + 4..] by {
      SliceOutside(w, v, lo, hi, hi, n);
      assert s[hi..] == w[hi..n] && t[hi..] == v[hi..n];
    }
    Crc32c.BurstChangesCrc(s, t, at);
  }

  /** A burst of at most four altered payload bytes makes a good record fail its CRC and nothing earlier. */
  lemma BurstInRecord(w: bytes, v: bytes, offset: nat, depth: nat, lim: Limits, lo: nat, hi: nat)
    requires NextRecord(w, offset, depth, lim).Found?
    requires var f := NextRecord(w, offset, depth, lim).frame;
             f.headerSize <= lo <= hi <= f.Unpadded() && hi - lo <= 4
    requires DifferOnlyIn(w, v, lo, hi)
    ensures NextRecord(v, offset, depth, lim) == Stop(INTEGRITY)
  {
    hide DecodePrefix, AlignUp, AllZero, UnLE, Crc32c.Crc, DifferOnlyIn;
    var f := NextRecord(w, offset, depth, lim).frame;
    SameLength(w, v, lo, hi);
    SliceOutside(w, v, lo, hi, 0, f.headerSize);
    assert w[..f.headerSize] == w[0..f.headerSize] && v[..f.headerSize] == v[0..f.headerSize];
    DecodePrefixSame(w, v, offset, depth);
    SliceOutside(w, v, lo, hi, f.Unpadded(), f.Padded());
    SliceOutside(w, v, lo, hi, f.Padded(), f.Padded() + 4);
    BurstInBody(w, v, lo, hi, f.Padded());
  }

  lemma SameLength(w: bytes, v: bytes, lo: nat, hi: nat)
    requires DifferOnlyIn(w, v, lo, hi)
    ensures |w| == |v|
  {}

  lemma {:induction false} StepFrame(data: bytes, begin: nat, lim: Limits, st: State, i: nat)
    requires begin <= |data| && i < |Steps(data, begin, 0, lim, st)|
    ensures var s := Steps(data, begin, 0, lim, st)[i];
            && begin <= s.begin < s.end <= |data|
            && NextRecord(data[s.begin..], s.begin, 0, lim).Found?
            && NextRecord(data[s.begin..], s.begin, 0, lim).frame.CrcEnd() == s.end
            && s.begin == if i == 0 then begin else Steps(data, begin, 0, lim, st)[i - 1].end
    decreases |data| - begin
  {
    hide NextRecord, ProcessRecord, AlignUp;
    var f := NextRecord(data[begin..], begin, 0, lim).frame;
    var o := ProcessRecord(data, f, lim, st);
    if i > 0 { StepFrame(data, f.CrcEnd(), lim, Advance(o.st, f.CrcEnd()), i - 1); }
  }

  /**
    Burst corruption is caught: altering one to four consecutive payload bytes of the `i`-th top-level record
    of an accepted file gives INTEGRITY, with the valid prefix at that record and only the earlier events.
   */
  lemma BurstIsCaught(file: bytes, bad: bytes, lim: Limits, i: nat, lo: nat, hi: nat)
    requires Parse(file, true, lim).status == OK && i < |TopSteps(file, lim)|
    requires var c := TopSteps(file, lim)[i].begin;
             && c <= |file| && NextRecord(file[c..], c, 0, lim).Found?
             && var f := NextRecord(file[c..], c, 0, lim).frame;
             f.PayloadOffset() <= lo <= hi <= f.PayloadEnd() && hi - lo <= 4
    requires DifferOnlyIn(file, bad, lo, hi)
    ensures var c := TopSteps(file, lim)[i].begin;
            var o := Parse(bad, true, lim);
            && o.status == INTEGRITY && o.st.prefix == c && o.st.log == EventsBy(TopSteps(file, lim), c)
  {
    hide ParseRecords, Steps, EventsBy, ValidateHeader, NextRecord, AlignUp;
    var c := TopSteps(file, lim)[i].begin;
    var st := Advance(INITIAL, HEADER_SIZE);
    HeaderLength(file, lim);
    StepFrame(file, HEADER_SIZE, lim, st, i);
    CutParse(file, c, HEADER_SIZE, lim, st);
    var o := ParseRecords(file[..c], HEADER_SIZE, c, 0, lim, st);
    SliceOutside(file, bad, lo, hi, 0, c);
    assert file[..c] == file[0..c] && bad[..c] == bad[0..c] && bad == file[..c] + bad[c..];
    ParseResumes(file[..c], bad[c..], HEADER_SIZE, 0, lim, st);
    HeaderAgrees(file, c, lim);
    HeaderAgrees(bad, c, lim);
    var w, v := file[c..], bad[c..];
    WindowsDiffer(file, bad, lo, hi, c);
    BurstInRecord(w, v, c, 0, lim, lo - c, hi - c);
    StopsAt(bad, c, lim, o.st);
  }

  lemma WindowsDiffer(w: bytes, v: bytes, lo: nat, hi: nat, c: nat)
    requires DifferOnlyIn(w, v, lo, hi) && c <= lo
    ensures DifferOnlyIn(w[c..], v[c..], lo - c, hi - c)
  {
    SliceOutside(w, v, lo, hi, 0, c);
    assert w == w[0..c] + w[c..] && v == v[0..c] + v[c..];
    forall i | 0 <= i < |w[c..]| && !(lo - c <= i < hi - c)
      ensures w[c..][i] == v[c..][i]
    {
      assert w[c..][i] == w[c + i] && v[c..][i] == v[c + i];
    }
  }

  lemma StopsAt(data: bytes, c: nat, lim: Limits, st: State)
    requires c < |data| && NextRecord(data[c..], c, 0, lim) == Stop(INTEGRITY)
    ensures ParseRecords(data, c, |data|, 0, lim, st) == Outcome(INTEGRITY, st)
  {
    hide NextRecord;
    assert data[c..|data|] == data[c..];
  }

  /** The same in the file header: nothing is accepted and no event is emitted. */
  lemma HeaderBurstIsCaught(file: bytes, bad: bytes, lim: Limits, lo: nat, hi: nat)
    requires Parse(file, true, lim).status == OK && DifferOnlyIn(file, bad, lo, hi) && hi <= 68 && hi - lo <= 4
    ensures Parse(bad, true, lim).status !in {OK, PARTIAL} && Parse(bad, true, lim).st == INITIAL
  {
    hide ParseRecords, AllZero, UnLE, Crc32c.Crc;
    HeaderLength(file, lim);
    HeaderLength(bad, lim);
    SameLength(file, bad, lo, hi);
    SliceOutside(file, bad, lo, hi, 68, 72);
    var hi' := if hi < 4 then 4 else hi;
    WiderBurst(file, bad, lo, hi, hi');
    BurstInBody(file, bad, hi' - 4, hi', 68);
  }

  lemma WiderBurst(w: bytes, v: bytes, lo: nat, hi: nat, hi': nat)
    requires DifferOnlyIn(w, v, lo, hi) && hi <= hi' <= |w| && 4 <= hi' && hi' - 4 <= lo
    ensures DifferOnlyIn(w, v, hi' - 4, hi')
  {}
}
