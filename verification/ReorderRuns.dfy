/** Every run of pushes and pops: the queue is a bounded, stable priority queue that loses nothing. */
module ReorderRuns {
  import opened Base
  import opened Reorder

  /** An accepted item with its arrival number. */
  datatype Tagged = Tagged(item: Item, arrival: nat)

  datatype Op = PushOp(item: Item) | PopOp

  /** Residents, accepted pushes in order, and what was popped, in order. */
  datatype History = History(queue: seq<Tagged>, pushed: seq<Item>, popped: seq<Tagged>)

  function Items(q: seq<Tagged>): (r: seq<Item>)
    ensures |r| == |q| && forall i :: 0 <= i < |q| ==> r[i] == q[i].item
  {
    seq(|q|, i requires 0 <= i < |q| => q[i].item)
  }

  function InsertTagged(q: seq<Tagged>, t: Tagged): seq<Tagged> {
    var k := InsertPos(Items(q), t.item);
    q[..k] + [t] + q[k..]
  }

  /** The tagged queue forgets to the queue of the implementation. */
  lemma InsertForgets(q: seq<Tagged>, t: Tagged)
    ensures Items(InsertTagged(q, t)) == Insert(Items(q), t.item)
  {
    hide InsertPos, Less;
  }

  function Step(h: History, op: Op, limit: nat): History {
    match op
    case PushOp(x) =>
      if |h.queue| >= limit then h
      else h.(queue := InsertTagged(h.queue, Tagged(x, |h.pushed|)), pushed := h.pushed + [x])
    case PopOp =>
      if h.queue == [] then h else h.(queue := h.queue[1..], popped := h.popped + [h.queue[0]])
  }

  function Run(ops: seq<Op>, limit: nat): History {
    if ops == [] then History([], [], []) else Step(Run(ops[..|ops| - 1], limit), ops[|ops| - 1], limit)
  }

  /** Smaller key first; equal keys in arrival order. */
  predicate Before(a: Tagged, b: Tagged) {
    Less(a.item, b.item) || (!Less(b.item, a.item) && a.arrival < b.arrival)
  }

  predicate StablySorted(q: seq<Tagged>) { forall i, j :: 0 <= i < j < |q| ==> Before(q[i], q[j]) }

  function Tags(pushed: seq<Item>): seq<Tagged> {
    if pushed == [] then [] else Tags(pushed[..|pushed| - 1]) + [Tagged(pushed[|pushed| - 1], |pushed| - 1)]
  }

  ghost predicate Invariant(h: History, limit: nat) {
    && |h.queue| <= limit
    && StablySorted(h.queue)
    && (forall i :: 0 <= i < |h.queue| ==> h.queue[i].arrival < |h.pushed|)
    && multiset(Tags(h.pushed)) == multiset(h.popped) + multiset(h.queue)
  }

  lemma BeforeNew(q: seq<Tagged>, t: Tagged)
    requires StablySorted(q) && forall i :: 0 <= i < |q| ==> q[i].arrival < t.arrival
    ensures StablySorted(InsertTagged(q, t))
  {
    hide Less;
    var k, r := InsertPos(Items(q), t.item), InsertTagged(q, t);
    forall i, j | 0 <= i < j < |r|
      ensures Before(r[i], r[j])
    {
      if j == k {
        LessIsStrictWeakOrder(t.item, q[k - 1].item, q[i].item);
        if i < k - 1 { assert Before(q[i], q[k - 1]); LessIsStrictWeakOrder(q[i].item, q[k - 1].item, t.item); }
      }
    }
  }

  lemma SpliceCounts<T>(q: seq<T>, k: nat, t: T)
    requires k <= |q|
    ensures multiset(q[..k] + [t] + q[k..]) == multiset(q) + multiset{t}
  {
    assert q == q[..k] + q[k..];
  }

  lemma InsertCounts(q: seq<Tagged>, t: Tagged)
    ensures multiset(InsertTagged(q, t)) == multiset(q) + multiset{t}
    ensures |InsertTagged(q, t)| == |q| + 1
    ensures forall i :: 0 <= i < |InsertTagged(q, t)| ==> InsertTagged(q, t)[i] == t || InsertTagged(q, t)[i] in q
  {
    hide Less, InsertPos, Items;
    SpliceCounts(q, InsertPos(Items(q), t.item), t);
  }

  lemma TagsCount(pushed: seq<Item>, x: Item)
    ensures multiset(Tags(pushed + [x])) == multiset(Tags(pushed)) + multiset{Tagged(x, |pushed|)}
  {
    assert (pushed + [x])[..|pushed|] == pushed;
  }

  lemma PushKeeps(h: History, x: Item, limit: nat)
    requires Invariant(h, limit) && |h.queue| < limit
    ensures Invariant(Step(h, PushOp(x), limit), limit)
  {
    hide Less, Before, InsertTagged, Tags, StablySorted;
    var t := Tagged(x, |h.pushed|);
    BeforeNew(h.queue, t);
    InsertCounts(h.queue, t);
    TagsCount(h.pushed, x);
  }

  lemma PopKeeps(h: History, limit: nat)
    requires Invariant(h, limit) && h.queue != []
    ensures Invariant(Step(h, PopOp, limit), limit)
  {
    hide Less, Before, Tags;
    assert h.queue == [h.queue[0]] + h.queue[1..];
  }

  /**
    Over every run: the bound holds, residents are sorted with ties in arrival order, and accepted pushes are
    exactly the pops plus the residents.
   */
  lemma {:induction false} EveryRunKeeps(ops: seq<Op>, limit: nat)
    ensures Invariant(Run(ops, limit), limit)
  {
    hide Invariant, Step;
    if ops == [] {
      EmptyKeeps(limit);
    } else {
      var h, op := Run(ops[..|ops| - 1], limit), ops[|ops| - 1];
      EveryRunKeeps(ops[..|ops| - 1], limit);
      StepKeeps(h, op, limit);
    }
  }

  lemma EmptyKeeps(limit: nat)
    ensures Invariant(History([], [], []), limit)
  {}

  lemma StepKeeps(h: History, op: Op, limit: nat)
    requires Invariant(h, limit)
    ensures Invariant(Step(h, op, limit), limit)
  {
    hide Invariant, InsertTagged;
    match op
    case PushOp(x) => if |h.queue| < limit { PushKeeps(h, x, limit); }
    case PopOp => if h.queue != [] { PopKeeps(h, limit); }
  }

  lemma BeforeIsAsymmetric(a: Tagged, b: Tagged)
    ensures !(Before(a, b) && Before(b, a))
  {}

  lemma TailCounts<T>(s: seq<T>, t: seq<T>)
    requires s != [] && t != [] && s[0] == t[0] && multiset(s) == multiset(t)
    ensures multiset(s[1..]) == multiset(t[1..])
  {
    assert s == [s[0]] + s[1..] && t == [t[0]] + t[1..];
    assert multiset(s[1..]) == multiset(s) - multiset{s[0]};
    assert multiset(t[1..]) == multiset(t) - multiset{t[0]};
  }

  lemma SameHead(s: seq<Tagged>, t: seq<Tagged>)
    requires StablySorted(s) && StablySorted(t) && multiset(s) == multiset(t) && s != [] && t != []
    ensures s[0] == t[0]
  {
    hide Before;
    assert s[0] in multiset(s) && t[0] in multiset(t);
    assert s[0] in t && t[0] in s;
    BeforeIsAsymmetric(s[0], t[0]);
  }

  /** A multiset of tagged items has one stable order. */
  lemma {:induction false} StableOrderIsUnique(s: seq<Tagged>, t: seq<Tagged>)
    requires StablySorted(s) && StablySorted(t) && multiset(s) == multiset(t)
    ensures s == t
    decreases |s|
  {
    hide Before;
    assert |s| == |multiset(s)| && |t| == |multiset(t)|;
    if s != [] {
      SameHead(s, t);
      TailCounts(s, t);
      StableOrderIsUnique(s[1..], t[1..]);
      assert s == [s[0]] + s[1..] && t == [t[0]] + t[1..];
    }
  }

  function Pops(n: nat): seq<Op> { seq(n, _ => PopOp) }

  lemma RunLast(ops: seq<Op>, op: Op, limit: nat)
    ensures Run(ops + [op], limit) == Step(Run(ops, limit), op, limit)
  {
    hide Step;
    assert (ops + [op])[..|ops|] == ops;
  }

  lemma {:induction false} RunPops(ops: seq<Op>, n: nat, limit: nat)
    requires n <= |Run(ops, limit).queue|
    ensures var h := Run(ops, limit);
            Run(ops + Pops(n), limit) == History(h.queue[n..], h.pushed, h.popped + h.queue[..n])
  {
    hide Run, InsertTagged;
    var h := Run(ops, limit);
    if n == 0 {
      assert ops + Pops(0) == ops;
    } else {
      RunPops(ops, n - 1, limit);
      assert ops + Pops(n) == ops + Pops(n - 1) + [PopOp];
      RunLast(ops + Pops(n - 1), PopOp, limit);
      assert h.queue[n - 1..][1..] == h.queue[n..] && h.queue[..n - 1] + [h.queue[n - 1]] == h.queue[..n];
      assert h.popped + h.queue[..n - 1] + [h.queue[n - 1]] == h.popped + h.queue[..n];
    }
  }

  /** Draining after any run yields the stable sort of the residents, whatever `stable` order one writes down. */
  lemma DrainIsStableSort(ops: seq<Op>, limit: nat, stable: seq<Tagged>)
    requires StablySorted(stable) && multiset(stable) == multiset(Run(ops, limit).queue)
    ensures var h := Run(ops, limit);
            Run(ops + Pops(|h.queue|), limit) == History([], h.pushed, h.popped + stable)
  {
    hide Before, Step;
    var h := Run(ops, limit);
    EveryRunKeeps(ops, limit);
    StableOrderIsUnique(stable, h.queue);
    RunPops(ops, |h.queue|, limit);
    assert h.queue[..|h.queue|] == h.queue;
  }

  // ----- the order on fields, without the comparison

  /**
    After any run, of any two residents the earlier one has the smaller epoch, or the same epoch and the smaller
    presentation time, or the same of both and the smaller decode time, or the same of all three and the smaller
    sequence number, or the same of all four and came in first.
   */
  lemma ResidentsByFields(ops: seq<Op>, limit: nat, i: nat, j: nat)
    requires i < j < |Run(ops, limit).queue|
    ensures var a, b := Run(ops, limit).queue[i], Run(ops, limit).queue[j];
            var p, q := a.item.packet.info, b.item.packet.info;
            && a.item.epoch <= b.item.epoch
            && (a.item.epoch == b.item.epoch ==> p.pts <= q.pts)
            && (a.item.epoch == b.item.epoch && p.pts == q.pts ==> p.dts <= q.dts)
            && (a.item.epoch == b.item.epoch && p.pts == q.pts && p.dts == q.dts ==> p.packetSeq <= q.packetSeq)
            && (a.item.epoch == b.item.epoch && p.pts == q.pts && p.dts == q.dts && p.packetSeq == q.packetSeq ==>
                  a.arrival < b.arrival)
  {
    hide Run;
    EveryRunKeeps(ops, limit);
    var a, b := Run(ops, limit).queue[i], Run(ops, limit).queue[j];
    assert Before(a, b);
  }

  /** A push is accepted exactly while the queue is below its limit. */
  lemma PushTakesBelowLimit(ops: seq<Op>, limit: nat, x: Item)
    ensures Run(ops + [PushOp(x)], limit).pushed
         == Run(ops, limit).pushed + if |Run(ops, limit).queue| < limit then [x] else []
  {
    hide Run;
    RunLast(ops, PushOp(x), limit);
  }

  /** Whatever the run, the packet that the next pop takes has the least fields of all residents at that moment. */
  lemma PopTakesLeast(ops: seq<Op>, limit: nat, j: nat)
    requires j < |Run(ops, limit).queue|
    ensures var h := Run(ops, limit);
            && Run(ops + [PopOp], limit).popped == h.popped + [h.queue[0]]
            && NotAfter(h.queue[0].item, h.queue[j].item)
  {
    RunLast(ops, PopOp, limit);
    if j > 0 { ResidentsByFields(ops, limit, 0, j); }
    hide Run;
  }

  // ----- the queue object follows these runs

  function Handles(q: seq<Tagged>): (r: seq<PacketRef>)
    ensures |r| == |q| && forall i :: 0 <= i < |q| ==> r[i] == q[i].item.packet
  {
    seq(|q|, i requires 0 <= i < |q| => q[i].item.packet)
  }

  /** What one operation does to the items and to the handles popped, forgetting arrival numbers. */
  function Forget(q: seq<Item>, popped: seq<PacketRef>, op: Op, limit: nat): (seq<Item>, seq<PacketRef>) {
    match op
    case PushOp(x) => if |q| >= limit then (q, popped) else (Insert(q, x), popped)
    case PopOp => if q == [] then (q, popped) else (q[1..], popped + [q[0].packet])
  }

  lemma StepForgets(h: History, op: Op, limit: nat)
    ensures var h' := Step(h, op, limit);
            (Items(h'.queue), Handles(h'.popped)) == Forget(Items(h.queue), Handles(h.popped), op, limit)
  {
    hide InsertTagged, Insert;
    match op
    case PushOp(x) => InsertForgets(h.queue, Tagged(x, |h.pushed|));
    case PopOp =>
      if h.queue != [] {
        assert Items(h.queue[1..]) == Items(h.queue)[1..];
        assert Handles(h.popped + [h.queue[0]]) == Handles(h.popped) + [h.queue[0].item.packet];
      }
  }

  lemma NothingToForget(limit: nat)
    ensures Items(Run([], limit).queue) == [] && Handles(Run([], limit).popped) == []
  {}

  /** One operation on the queue object, with its packet variable. */
  method Perform(queue: ReorderQueue, cell: Cell, op: Op, popped: seq<PacketRef>) returns (after: seq<PacketRef>)
    requires queue.Valid()
    modifies queue, queue.items, cell
    ensures queue.Valid() && (queue.items == old(queue.items) || fresh(queue.items))
    ensures (queue.Contents(), after) == Forget(old(queue.Contents()), popped, op, queue.limit)
  {
    hide Insert, Sorted;
    after := popped;
    var status;
    match op {
      case PushOp(x) =>
        cell.packet := x.packet;
        status := queue.Push(cell, x.epoch);
      case PopOp =>
        status := queue.PopReady(cell);
        if status == OK { after := popped + [cell.packet]; }
    }
  }

  lemma RunStep(ops: seq<Op>, i: nat, limit: nat)
    requires i < |ops|
    ensures var h, h' := Run(ops[..i], limit), Run(ops[..i + 1], limit);
            (Items(h'.queue), Handles(h'.popped)) == Forget(Items(h.queue), Handles(h.popped), ops[i], limit)
  {
    hide Step, Forget, Items, Handles, Run;
    StepForgets(Run(ops[..i], limit), ops[i], limit);
    RunLast(ops[..i], ops[i], limit);
    assert ops[..i] + [ops[i]] == ops[..i + 1];
  }

  lemma SortedByFields(q: seq<Item>)
    requires Sorted(q)
    ensures forall i, j :: 0 <= i < j < |q| ==> NotAfter(q[i], q[j])
  {
    hide Less, NotAfter;
    forall i, j | 0 <= i < j < |q|
      ensures NotAfter(q[i], q[j])
    {
      LessByFields(q[i], q[j]);
    }
  }

  /** Any run of the queue object: what it popped and what it still holds are those of the history. */
  method DriveQueue(ops: seq<Op>, limit: nat) returns (popped: seq<PacketRef>, residents: seq<Item>)
    ensures popped == Handles(Run(ops, limit).popped) && residents == Items(Run(ops, limit).queue)
    ensures |residents| <= limit && forall i, j :: 0 <= i < j < |residents| ==> NotAfter(residents[i], residents[j])
  {
    hide Run, Items, Handles, Forget, Sorted, NotAfter;
    var queue := new ReorderQueue(limit);
    var cell := new Cell();
    popped := [];
    NothingToForget(limit);
    assert ops[..0] == [];
    for i := 0 to |ops|
      invariant queue.Valid() && fresh(queue) && fresh(queue.items) && fresh(cell) && queue.limit == limit
      invariant queue.Contents() == Items(Run(ops[..i], limit).queue)
      invariant popped == Handles(Run(ops[..i], limit).popped)
    {
      RunStep(ops, i, limit);
      popped := Perform(queue, cell, ops[i], popped);
    }
    assert ops[..|ops|] == ops;
    residents := queue.items[..queue.count];
    SortedByFields(residents);
  }
}
