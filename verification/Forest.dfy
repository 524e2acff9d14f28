/** The nested grammar: forests of GROUP records and skippable leaves, written out and parsed back. */
module Forest {
  import opened Base
  import opened Codec
  import opened Rationals
  import opened Format
  import opened Parser
  import opened Writer

  datatype Node =
    | Leaf(typ: u16, flags: u16, log2: byte, sequence: u64, payload: bytes)
    | Group(flags: u16, log2: byte, sequence: u64, kind: u16, groupSequence: u64, children: seq<Node>)

  function GroupMeta(kind: u16, childBytes: nat, groupSequence: u64): (s: bytes)
    ensures |s| == GROUP_META_SIZE
  {
    LE(2, kind) + LE(2, 0) + LE(8, childBytes) + LE(8, groupSequence)
  }

  function NodeType(n: Node): u16 { if n.Leaf? then n.typ else GROUP }

  function NodePayload(n: Node): bytes
    decreases n, 0
  {
    match n
    case Leaf(_, _, _, _, payload) => payload
    case Group(_, _, _, kind, groupSequence, children) =>
      GroupMeta(kind, |ForestBytes(children)|, groupSequence) + ForestBytes(children)
  }

  function NodeBytes(n: Node): bytes
    decreases n, 1
  {
    Record(NodeType(n), n.flags, n.log2, n.sequence, NodePayload(n))
  }

  function ForestBytes(ns: seq<Node>): bytes
    decreases ns
  {
    if ns == [] then [] else NodeBytes(ns[0]) + ForestBytes(ns[1..])
  }

  function NodeFrame(n: Node, offset: nat, depth: nat): Frame {
    FrameOf(NodeType(n), n.flags, n.log2, n.sequence, |NodePayload(n)|, offset, depth)
  }

  /** The depth counter is eight bits wide. */
  function Wrapped(depth: nat): nat { depth % 256 }

  /** The preorder traversal: a node, then its children, with true offsets and sizes and the depth as counted. */
  function NodeEvents(n: Node, offset: nat, depth: nat): seq<Event>
    decreases n, 1
  {
    var f := NodeFrame(n, offset, Wrapped(depth));
    [f.Seen()] + if n.Leaf? then [] else ForestEvents(n.children, f.PayloadOffset() + GROUP_META_SIZE, depth + 1)
  }

  function ForestEvents(ns: seq<Node>, offset: nat, depth: nat): seq<Event>
    decreases ns
  {
    if ns == [] then []
    else NodeEvents(ns[0], offset, depth) + ForestEvents(ns[1..], offset + |NodeBytes(ns[0])|, depth)
  }

  /** Legal alignments and skippable leaves: what the writer is given. */
  predicate NodeLegal(n: Node)
    decreases n, 1
  {
    n.log2 <= 4 && if n.Leaf? then IsSkippable(n.typ) else ForestLegal(n.children)
  }

  predicate ForestLegal(ns: seq<Node>)
    decreases ns
  {
    ns == [] || (NodeLegal(ns[0]) && ForestLegal(ns[1..]))
  }

  /** Record and payload sizes within limits, depth as counted within `maxDepth`. */
  predicate NodeFits(n: Node, depth: nat, lim: Limits)
    decreases n, 1
  {
    && WithinLimits(NodeFrame(n, 0, 0), lim)
    && (n.Group? ==> Wrapped(depth) < lim.maxDepth && ForestFits(n.children, depth + 1, lim))
  }

  predicate ForestFits(ns: seq<Node>, depth: nat, lim: Limits)
    decreases ns
  {
    ns == [] || (NodeFits(ns[0], depth, lim) && ForestFits(ns[1..], depth, lim))
  }

  lemma GroupMetaReads(kind: u16, children: bytes, groupSequence: u64, f: Frame, lim: Limits)
    requires |children| <= U64_MAX
    ensures CheckGroup(GroupMeta(kind, |children|, groupSequence) + children, f, lim)
         == if f.depth < lim.maxDepth then OK else RESOURCE
  {
    hide LE, UnLE;
    var p := GroupMeta(kind, |children|, groupSequence) + children;
    Widths();
    LERoundTrip(8, |children|);
    assert p[4..12] == LE(8, |children|);
  }

  /** The first record of a window that starts with a node: found, or refused for its size. */
  lemma NodeIsNext(w: bytes, n: Node, rest: bytes, offset: nat, depth: nat, lim: Limits)
    requires w == NodeBytes(n) + rest && offset + |w| <= U64_MAX && n.log2 <= 4
    ensures var f := NodeFrame(n, offset, depth);
            && NextRecord(w, offset, depth, lim) == (if WithinLimits(f, lim) then Found(f) else Stop(RESOURCE))
            && 10 <= f.headerSize && f.Size() == |NodeBytes(n)| && w[f.headerSize..f.Unpadded()] == NodePayload(n)
  {
    hide Record, NodePayload, AlignUp, Uleb;
    RecordRoundTrip(NodeType(n), n.flags, n.log2, n.sequence, NodePayload(n), rest, offset, depth, lim);
  }

  /** Where a node's record sits in the file. */
  predicate Placed(data: bytes, n: Node, f: Frame) {
    && f.CrcEnd() <= |data| <= U64_MAX && 10 <= f.headerSize
    && data[f.PayloadOffset()..f.PayloadEnd()] == NodePayload(n)
  }

  /** What a parse of serialised nodes must give: everything if they fit, and RESOURCE if they do not. */
  ghost predicate Gives(o: Outcome, fits: bool, st: State, events: seq<Event>) {
    if fits then o.status == OK && o.st.tracks == st.tracks && o.st.log == st.log + events
    else o.status == RESOURCE
  }

  lemma LeafProcesses(data: bytes, n: Node, offset: nat, depth: nat, lim: Limits, st: State)
    requires n.Leaf? && NodeLegal(n) && Placed(data, n, NodeFrame(n, offset, Wrapped(depth)))
    ensures ProcessRecord(data, NodeFrame(n, offset, Wrapped(depth)), lim, st)
         == Outcome(OK, State(st.tracks, st.log + NodeEvents(n, offset, depth), st.prefix))
  {
    hide ParseRecords, AlignUp, NodePayload;
  }

  lemma {:induction false} GroupProcesses(data: bytes, n: Node, offset: nat, depth: nat, lim: Limits, st: State)
    requires n.Group? && NodeLegal(n) && WithinLimits(NodeFrame(n, 0, 0), lim)
    requires Placed(data, n, NodeFrame(n, offset, Wrapped(depth)))
    ensures Gives(ProcessRecord(data, NodeFrame(n, offset, Wrapped(depth)), lim, st), NodeFits(n, depth, lim), st,
                  NodeEvents(n, offset, depth))
    decreases n, 1
  {
    hide ParseRecords, AlignUp, CheckGroup, GroupMeta, ForestBytes, ForestEvents, ForestFits, ForestLegal, Uleb;
    var f, children := NodeFrame(n, offset, Wrapped(depth)), ForestBytes(n.children);
    var p, begin := NodePayload(n), f.PayloadOffset() + GROUP_META_SIZE;
    GroupMetaReads(n.kind, children, n.groupSequence, f, lim);
    assert p[GROUP_META_SIZE..] == children && data[begin..f.PayloadEnd()] == p[GROUP_META_SIZE..];
    if f.depth < lim.maxDepth {
      ForestParses(data, begin, f.PayloadEnd(), n.children, depth + 1, lim, Report(st, f.Seen()));
      var events := ForestEvents(n.children, begin, depth + 1);
      assert st.log + [f.Seen()] + events == st.log + ([f.Seen()] + events);
    }
  }

  /** A region that holds a serialised forest parses to its preorder traversal if it fits, and to RESOURCE if not. */
  lemma {:induction false} ForestParses(
    data: bytes, begin: nat, end: nat, ns: seq<Node>, depth: nat, lim: Limits, st: State)
    requires begin <= end <= |data| <= U64_MAX && data[begin..end] == ForestBytes(ns) && ForestLegal(ns)
    ensures var o := ParseRecords(data, begin, end, Wrapped(depth), lim, st);
            && Gives(o, ForestFits(ns, depth, lim), st, ForestEvents(ns, begin, depth))
            && (o.status == OK ==> o.st.prefix == if ns == [] then st.prefix else end)
    decreases ns
  {
    hide NextRecord, ProcessRecord, AlignUp, NodeBytes, NodeEvents, NodePayload, Placed, NodeFrame, NodeLegal, NodeFits;
    if ns == [] {
      NonEmptyForest(ns);
      assert st.log + [] == st.log;
    } else {
      var n, f := ns[0], NodeFrame(ns[0], begin, Wrapped(depth));
      FirstNode(data, begin, end, ns, depth, lim);
      if WithinLimits(f, lim) {
        NodeProcesses(data, n, begin, depth, lim, st);
        var o := ProcessRecord(data, f, lim, st);
        if o.status == OK {
          ForestParses(data, f.CrcEnd(), end, ns[1..], depth, lim, Advance(o.st, f.CrcEnd()));
          NonEmptyForest(ns[1..]);
          assert st.log + NodeEvents(n, begin, depth) + ForestEvents(ns[1..], f.CrcEnd(), depth)
              == st.log + (NodeEvents(n, begin, depth) + ForestEvents(ns[1..], f.CrcEnd(), depth));
        }
      }
    }
  }

  lemma {:induction false} NodeProcesses(data: bytes, n: Node, offset: nat, depth: nat, lim: Limits, st: State)
    requires NodeLegal(n) && WithinLimits(NodeFrame(n, 0, 0), lim) && Placed(data, n, NodeFrame(n, offset, Wrapped(depth)))
    ensures Gives(ProcessRecord(data, NodeFrame(n, offset, Wrapped(depth)), lim, st), NodeFits(n, depth, lim), st,
                  NodeEvents(n, offset, depth))
    decreases n, 2
  {
    hide ProcessRecord, AlignUp, NodePayload, NodeEvents, ForestFits, WithinLimits;
    if n.Leaf? { LeafProcesses(data, n, offset, depth, lim, st); } else { GroupProcesses(data, n, offset, depth, lim, st); }
  }

  /** The first node of a serialised forest, framed, and the region that holds the others. */
  lemma FirstNode(data: bytes, begin: nat, end: nat, ns: seq<Node>, depth: nat, lim: Limits)
    requires begin <= end <= |data| <= U64_MAX && data[begin..end] == ForestBytes(ns) && ns != [] && ForestLegal(ns)
    ensures var n, f := ns[0], NodeFrame(ns[0], begin, Wrapped(depth));
            && begin < f.CrcEnd() <= end && f.CrcEnd() == begin + |NodeBytes(n)|
            && (WithinLimits(f, lim) <==> WithinLimits(NodeFrame(n, 0, 0), lim))
            && (!WithinLimits(f, lim) ==> !NodeFits(n, depth, lim))
            && NextRecord(data[begin..end], begin, Wrapped(depth), lim)
               == (if WithinLimits(f, lim) then Found(f) else Stop(RESOURCE))
            && Placed(data, n, f) && NodeLegal(n)
            && data[f.CrcEnd()..end] == ForestBytes(ns[1..]) && ForestLegal(ns[1..])
  {
    hide NextRecord, AlignUp, NodeBytes, NodePayload, ForestFits;
    var n, w := ns[0], data[begin..end];
    var f := NodeFrame(n, begin, Wrapped(depth));
    NodeIsNext(w, n, ForestBytes(ns[1..]), begin, Wrapped(depth), lim);
    SliceOfSlice(data, begin, end, f.headerSize, f.Unpadded());
    SliceOfSlice(data, begin, end, f.Size(), |w|);
    assert w[f.Size()..|w|] == ForestBytes(ns[1..]);
  }

  lemma NonEmptyForest(ns: seq<Node>)
    ensures ForestBytes(ns) == [] <==> ns == []
  {
    hide Record, NodePayload;
  }

  /**
    Nested grammar: a serialised forest after a header is accepted if and only if every node is within the size
    limits, no group is deeper than `maxDepth` by the counter, and the header's own record hint is within the
    limit. Then its record events are the preorder traversal; otherwise the verdict is RESOURCE.
   */
  lemma NestedGrammar(base: Rational, uuid: bytes, ns: seq<Node>, lim: Limits)
    requires IsReduced(base) && |uuid| == 16 && !AllZero(uuid) && ForestLegal(ns)
    requires HEADER_SIZE + |ForestBytes(ns)| <= U64_MAX
    ensures var file := FileHeader(base, uuid) + ForestBytes(ns);
            var o := Parse(file, true, lim);
            if 0x400_0000 <= lim.maxRecordSize && ForestFits(ns, 0, lim)
            then o == Outcome(OK, State([], ForestEvents(ns, HEADER_SIZE, 0), |file|))
            else o.status == RESOURCE
  {
    hide FileHeader, ValidateHeader, ForestBytes, ForestEvents, ForestFits, ForestLegal, ParseRecords, IsReduced, AllZero;
    var file := FileHeader(base, uuid) + ForestBytes(ns);
    HeaderRoundTrip(base, uuid, ForestBytes(ns), lim);
    assert file[HEADER_SIZE..|file|] == ForestBytes(ns);
    ForestParses(file, HEADER_SIZE, |file|, ns, 0, lim, Advance(INITIAL, HEADER_SIZE));
    NonEmptyForest(ns);
    assert [] + ForestEvents(ns, HEADER_SIZE, 0) == ForestEvents(ns, HEADER_SIZE, 0);
  }

  // ----- the counted depth

  /** The preorder traversal with true nesting depths. */
  function TrueNodeEvents(n: Node, offset: nat, depth: nat): seq<Event>
    decreases n, 1
  {
    var f := NodeFrame(n, offset, depth);
    [f.Seen()] + if n.Leaf? then [] else TrueEvents(n.children, f.PayloadOffset() + GROUP_META_SIZE, depth + 1)
  }

  function TrueEvents(ns: seq<Node>, offset: nat, depth: nat): seq<Event>
    decreases ns
  {
    if ns == [] then []
    else TrueNodeEvents(ns[0], offset, depth) + TrueEvents(ns[1..], offset + |NodeBytes(ns[0])|, depth)
  }

  lemma {:induction false} NodeDepthIsTrue(n: Node, offset: nat, depth: nat, lim: Limits)
    requires NodeFits(n, depth, lim) && depth <= lim.maxDepth <= 255
    ensures NodeEvents(n, offset, depth) == TrueNodeEvents(n, offset, depth)
    decreases n, 1
  {
    hide ForestFits, ForestEvents, TrueEvents, WithinLimits, NodePayload;
    if n.Group? {
      DepthIsTrue(n.children, NodeFrame(n, offset, depth).PayloadOffset() + GROUP_META_SIZE, depth + 1, lim);
    }
  }

  /** With `maxDepth` at most 255 the counter never wraps in an accepted forest: reported depths are true depths. */
  lemma {:induction false} DepthIsTrue(ns: seq<Node>, offset: nat, depth: nat, lim: Limits)
    requires ForestFits(ns, depth, lim) && depth <= lim.maxDepth <= 255
    ensures ForestEvents(ns, offset, depth) == TrueEvents(ns, offset, depth)
    decreases ns
  {
    hide NodeFits, NodeEvents, TrueNodeEvents, NodeBytes;
    if ns != [] {
      NodeDepthIsTrue(ns[0], offset, depth, lim);
      DepthIsTrue(ns[1..], offset + |NodeBytes(ns[0])|, depth, lim);
    }
  }

  /** With a larger `maxDepth` the counter wraps below it and no nesting is ever too deep. */
  lemma {:induction false} NothingIsTooDeep(ns: seq<Node>, depth: nat, depth': nat, lim: Limits)
    requires lim.maxDepth > 255
    ensures ForestFits(ns, depth, lim) == ForestFits(ns, depth', lim)
    decreases ns
  {
    hide WithinLimits, NodePayload;
    if ns != [] {
      NothingIsTooDeep(ns[1..], depth, depth', lim);
      if ns[0].Group? { NothingIsTooDeep(ns[0].children, depth + 1, depth' + 1, lim); }
    }
  }

  // ----- nesting on arbitrary input

  /** A reported record lies inside `[begin, end)`, header, payload and CRC included. */
  predicate Inside(e: Event, begin: nat, end: nat) {
    e.RecordSeen? ==> begin <= e.offset && e.offset + 10 <= e.payloadOffset && e.payloadOffset + e.payloadSize + 4 <= end
  }

  predicate AllInside(log: seq<Event>, from: nat, begin: nat, end: nat) {
    forall i :: from <= i < |log| ==> Inside(log[i], begin, end)
  }

  /**
    Whatever the bytes: the first event of a processed record is its own, and every record reported after it
    lies strictly inside its payload.
   */
  lemma {:induction false} ChildrenInsideParent(data: bytes, f: Frame, lim: Limits, st: State)
    requires f.CrcEnd() <= |data| && 10 <= f.headerSize
    ensures var log := ProcessRecord(data, f, lim, st).st.log;
            && st.log + [f.Seen()] <= log
            && AllInside(log, |st.log| + 1, f.PayloadOffset() + GROUP_META_SIZE, f.PayloadEnd())
    decreases f.Size(), 0
  {
    hide CheckGroup, ParseRecords, AlignUp, EmitStream, EmitPacket, CheckSimple;
    var p, st1 := data[f.PayloadOffset()..f.PayloadEnd()], Report(st, f.Seen());
    if IsGroup(f) {
      if CheckGroup(p, f, lim) == OK {
        RecordsInside(data, f.PayloadOffset() + GROUP_META_SIZE, f.PayloadEnd(), (f.depth + 1) % 256, lim, st1);
      }
    } else {
      LeafAddsNoRecords(f, p, data[..f.offset], lim, st1);
    }
  }

  lemma LeafAddsNoRecords(f: Frame, p: bytes, before: bytes, lim: Limits, st: State)
    ensures var log := ProcessLeaf(f, p, before, lim, st).st.log;
            st.log <= log && forall i :: |st.log| <= i < |log| ==> !log[i].RecordSeen?
  {
    hide CheckSimple, ParseStream, ParsePacket, HasTrack, IsReduced;
  }

  lemma {:induction false} RecordsInside(data: bytes, begin: nat, end: nat, depth: nat, lim: Limits, st: State)
    requires begin <= end <= |data|
    ensures var log := ParseRecords(data, begin, end, depth, lim, st).st.log;
            st.log <= log && AllInside(log, |st.log|, begin, end)
    decreases end - begin, 1
  {
    hide NextRecord, ProcessRecord, AlignUp;
    if begin < end {
      match NextRecord(data[begin..end], begin, depth, lim)
      case Stop(_) =>
      case Found(f) =>
        ChildrenInsideParent(data, f, lim, st);
        var o := ProcessRecord(data, f, lim, st);
        assert o.st.log[|st.log|] == f.Seen();
        if o.status == OK {
          RecordsInside(data, f.CrcEnd(), end, depth, lim, Advance(o.st, f.CrcEnd()));
        }
    }
  }
}
