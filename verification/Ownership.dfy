/**
  Payload leases and the handles that own them: `src/model/lease.c`, `src/model/packet.c`, and every place
  that copies, moves or drops a packet handle.
 */
module Ownership {
  import opened Base
  import opened Format
  import opened Reorder

  /** Reference-counted payload leases; `freed` records the calls to free, in order. */
  class Leases {
    var refcount: map<nat, nat>
    var freed: seq<nat>
    var next: nat

    /** Live counts are positive, and every lease ever created is either live or was freed exactly once. */
    ghost predicate Valid()
      reads this
    {
      && (forall id :: id in refcount ==> refcount[id] > 0 && id < next)
      && (forall id: nat :: id < next ==> multiset(freed)[id] == if id in refcount then 0 else 1)
      && (forall id :: id in freed ==> id < next)
    }

    constructor ()
      ensures Valid() && refcount == map[] && freed == [] && next == 0
    {
      refcount, freed, next := map[], [], 0;
    }

    method CreateCopy() returns (id: nat)
      requires Valid()
      modifies this
      ensures Valid() && id == old(next) && next == old(next) + 1 && freed == old(freed)
      ensures refcount == old(refcount)[id := 1] && id !in old(refcount)
    {
      id := next;
      next := next + 1;
      assert id !in freed;
      refcount := refcount[id := 1];
    }

    method Retain(id: nat)
      requires Valid() && id in refcount
      modifies this
      ensures Valid() && next == old(next) && freed == old(freed)
      ensures refcount == old(refcount)[id := old(refcount)[id] + 1]
    {
      refcount := refcount[id := refcount[id] + 1];
    }

    /** Frees at the last release. Only a live lease may be released. */
    method Release(id: nat)
      requires Valid() && id in refcount
      modifies this
      ensures Valid() && next == old(next)
      ensures freed == old(freed) + if old(refcount)[id] == 1 then [id] else []
      ensures refcount == if old(refcount)[id] == 1 then old(refcount) - {id}
                          else old(refcount)[id := old(refcount)[id] - 1]
    {
      if refcount[id] == 1 {
        freed := freed + [id];
        refcount := refcount - {id};
      } else {
        refcount := refcount[id := refcount[id] - 1];
      }
    }
  }

  // ----- leases owned by handles

  ghost function LeaseOf(p: PacketRef): multiset<nat> {
    if p.lease.Some? then multiset{p.lease.value} else multiset{}
  }

  ghost function Leased(s: seq<PacketRef>): multiset<nat> {
    if s == [] then multiset{} else LeaseOf(s[0]) + Leased(s[1..])
  }

  function Refs(q: seq<Item>): (r: seq<PacketRef>)
    ensures |r| == |q| && forall i :: 0 <= i < |q| ==> r[i] == q[i].packet
  {
    seq(|q|, i requires 0 <= i < |q| => q[i].packet)
  }

  lemma {:induction false} LeasedConcat(s: seq<PacketRef>, t: seq<PacketRef>)
    ensures Leased(s + t) == Leased(s) + Leased(t)
  {
    if s == [] {
      assert s + t == t;
    } else {
      assert (s + t)[1..] == s[1..] + t;
      LeasedConcat(s[1..], t);
    }
  }

  lemma LeasedOne(p: PacketRef)
    ensures Leased([p]) == LeaseOf(p)
  {
    assert [p][1..] == [];
  }

  lemma LeasedSplice(s: seq<PacketRef>, t: seq<PacketRef>, p: PacketRef)
    ensures Leased(s + [p] + t) == Leased(s + t) + LeaseOf(p)
  {
    hide *;
    LeasedConcat(s + [p], t);
    LeasedConcat(s, [p]);
    LeasedConcat(s, t);
    LeasedOne(p);
  }

  lemma LeasedUpdate(s: seq<PacketRef>, k: nat, p: PacketRef)
    requires k < |s|
    ensures Leased(s[k := p]) + LeaseOf(s[k]) == Leased(s) + LeaseOf(p)
  {
    hide *;
    LeasedSplice(s[..k], s[k + 1..], s[k]);
    LeasedSplice(s[..k], s[k + 1..], p);
    assert s == s[..k] + [s[k]] + s[k + 1..];
    assert s[k := p] == s[..k] + [p] + s[k + 1..];
  }

  lemma LeasedTake(s: seq<PacketRef>, k: nat)
    requires k < |s|
    ensures Leased(s) == Leased(s[k := EMPTY]) + LeaseOf(s[k])
  {
    hide Leased;
    LeasedUpdate(s, k, EMPTY);
    assert Leased(s) + multiset{} == Leased(s);
  }

  lemma RefsConcat(q: seq<Item>, r: seq<Item>)
    ensures Refs(q + r) == Refs(q) + Refs(r)
  {}

  lemma RefsOne(x: Item)
    ensures Refs([x]) == [x.packet]
  {}

  lemma LeasedInsert(q: seq<Item>, x: Item)
    ensures Leased(Refs(Insert(q, x))) == Leased(Refs(q)) + LeaseOf(x.packet)
  {
    hide Less, InsertPos, Refs, Leased, LeaseOf;
    var k := InsertPos(q, x);
    LeasedSplice(Refs(q[..k]), Refs(q[k..]), x.packet);
    assert q == q[..k] + q[k..];
    RefsConcat(q[..k], q[k..]);
    RefsConcat(q[..k] + [x], q[k..]);
    RefsConcat(q[..k], [x]);
    RefsOne(x);
  }

  lemma LeasedTail(q: seq<Item>)
    requires q != []
    ensures Leased(Refs(q)) == LeaseOf(q[0].packet) + Leased(Refs(q[1..]))
  {
    assert Refs(q)[1..] == Refs(q[1..]);
  }

  /** `n` empty handles own nothing. */
  lemma {:induction false} EmptyOwnsNothing(s: seq<PacketRef>)
    requires forall i :: 0 <= i < |s| ==> s[i].lease == None
    ensures Leased(s) == multiset{}
  {
    if s != [] { EmptyOwnsNothing(s[1..]); }
  }

  lemma LeasedGrow(s: seq<PacketRef>, extra: seq<PacketRef>)
    requires forall i :: 0 <= i < |extra| ==> extra[i].lease == None
    ensures Leased(s + extra) == Leased(s)
  {
    hide Leased;
    LeasedConcat(s, extra);
    EmptyOwnsNothing(extra);
  }

  // ----- conservation: each lease's count is the number of slots that own it

  ghost predicate Balanced(owned: multiset<nat>, refcount: map<nat, nat>) {
    forall id: nat :: owned[id] == if id in refcount then refcount[id] else 0
  }

  lemma OwnedIsLive(owned: multiset<nat>, refcount: map<nat, nat>, id: nat)
    requires Balanced(owned, refcount) && id in owned
    ensures id in refcount
  {
    assert owned[id] > 0;
  }

  function AfterRelease(refcount: map<nat, nat>, id: nat): map<nat, nat>
    requires id in refcount && refcount[id] > 0
  {
    if refcount[id] == 1 then refcount - {id} else refcount[id := refcount[id] - 1]
  }

  /** What releasing handle `p` once does: one reference fewer, and freed exactly if it was the last. */
  ghost predicate Released(
    p: PacketRef, before: map<nat, nat>, after: map<nat, nat>, freedBefore: seq<nat>, freedAfter: seq<nat>)
  {
    match p.lease
    case None => after == before && freedAfter == freedBefore
    case Some(id) =>
      && id in before && before[id] > 0
      && (before[id] == 1 ==> after == before - {id} && freedAfter == freedBefore + [id])
      && (before[id] > 1 ==> after == before[id := before[id] - 1] && freedAfter == freedBefore)
  }

  lemma BalancedRelease(rest: multiset<nat>, refcount: map<nat, nat>, id: nat)
    requires Balanced(rest + multiset{id}, refcount)
    ensures id in refcount && refcount[id] > 0 && Balanced(rest, AfterRelease(refcount, id))
  {
    assert (rest + multiset{id})[id] > 0;
  }

  lemma BalancedRetain(owned: multiset<nat>, refcount: map<nat, nat>, id: nat)
    requires Balanced(owned, refcount) && id in refcount
    ensures Balanced(owned + multiset{id}, refcount[id := refcount[id] + 1])
  {}

  lemma BalancedCreate(owned: multiset<nat>, refcount: map<nat, nat>, id: nat)
    requires Balanced(owned, refcount) && id !in refcount
    ensures Balanced(owned + multiset{id}, refcount[id := 1])
  {}

  /** Everything referenced: by demuxer slots, queue items, the caller's variables, and apart from any handle. */
  ghost function Total(slots: multiset<nat>, items: multiset<nat>, vars: multiset<nat>, apart: multiset<nat>)
    : multiset<nat>
  {
    slots + items + vars + apart
  }

  lemma TotalSlot(a: multiset<nat>, b: multiset<nat>, c: multiset<nat>, d: multiset<nat>, x: multiset<nat>)
    ensures Total(a + x, b, c, d) == Total(a, b, c, d) + x
  {}

  lemma TotalItem(a: multiset<nat>, b: multiset<nat>, c: multiset<nat>, d: multiset<nat>, x: multiset<nat>)
    ensures Total(a, b + x, c, d) == Total(a, b, c, d) + x
  {}

  lemma TotalVar(a: multiset<nat>, b: multiset<nat>, c: multiset<nat>, d: multiset<nat>, x: multiset<nat>)
    ensures Total(a, b, c + x, d) == Total(a, b, c, d) + x
  {}

  lemma TotalApart(a: multiset<nat>, b: multiset<nat>, c: multiset<nat>, d: multiset<nat>, x: multiset<nat>)
    ensures Total(a, b, c, d + x) == Total(a, b, c, d) + x
  {}

  // ----- the references of a session, place by place

  /**
    One entry per owning slot, retained lease and lost reference. Slots past the queue's count do not own what
    they still show.
   */
  ghost function Owns(
    slots: seq<PacketRef>, q: seq<Item>, vars: seq<PacketRef>, retained: seq<nat>, lost: seq<nat>): multiset<nat>
  {
    Total(Leased(slots), Leased(Refs(q)), Leased(vars), multiset(retained) + multiset(lost))
  }

  function LeaseIn(p: PacketRef): seq<nat> { if p.lease.Some? then [p.lease.value] else [] }

  lemma OwnsVar(slots: seq<PacketRef>, q: seq<Item>, vars: seq<PacketRef>, retained: seq<nat>, lost: seq<nat>, i: nat)
    requires i < |vars|
    ensures Owns(slots, q, vars, retained, lost) == Owns(slots, q, vars[i := EMPTY], retained, lost) + LeaseOf(vars[i])
  {
    hide Leased, Refs, LeaseOf;
    LeasedTake(vars, i);
    TotalVar(Leased(slots), Leased(Refs(q)), Leased(vars[i := EMPTY]), multiset(retained) + multiset(lost), LeaseOf(vars[i]));
  }

  lemma OwnsSlot(slots: seq<PacketRef>, q: seq<Item>, vars: seq<PacketRef>, retained: seq<nat>, lost: seq<nat>, i: nat)
    requires i < |slots|
    ensures Owns(slots, q, vars, retained, lost) == Owns(slots[i := EMPTY], q, vars, retained, lost) + LeaseOf(slots[i])
  {
    hide Leased, Refs, LeaseOf;
    LeasedTake(slots, i);
    TotalSlot(Leased(slots[i := EMPTY]), Leased(Refs(q)), Leased(vars), multiset(retained) + multiset(lost), LeaseOf(slots[i]));
  }

  /** Empty slots at the end of the array own nothing. */
  lemma OwnsLive(slots: seq<PacketRef>, n: nat, q: seq<Item>, vars: seq<PacketRef>, retained: seq<nat>, lost: seq<nat>)
    requires n <= |slots| && forall i :: n <= i < |slots| ==> slots[i] == EMPTY
    ensures Owns(slots, q, vars, retained, lost) == Owns(slots[..n], q, vars, retained, lost)
  {
    hide Leased, Refs;
    LeasedGrow(slots[..n], slots[n..]);
    assert slots == slots[..n] + slots[n..];
  }

  lemma OwnsHead(slots: seq<PacketRef>, q: seq<Item>, vars: seq<PacketRef>, retained: seq<nat>, lost: seq<nat>)
    requires q != []
    ensures Owns(slots, q, vars, retained, lost) == Owns(slots, q[1..], vars, retained, lost) + LeaseOf(q[0].packet)
  {
    hide Leased, Refs, LeaseOf;
    LeasedTail(q);
    assert Leased(Refs(q)) == Leased(Refs(q[1..])) + LeaseOf(q[0].packet);
    TotalItem(Leased(slots), Leased(Refs(q[1..])), Leased(vars), multiset(retained) + multiset(lost), LeaseOf(q[0].packet));
  }

  lemma OwnsInsert(slots: seq<PacketRef>, q: seq<Item>, vars: seq<PacketRef>, retained: seq<nat>, lost: seq<nat>, x: Item)
    ensures Owns(slots, Insert(q, x), vars, retained, lost) == Owns(slots, q, vars, retained, lost) + LeaseOf(x.packet)
  {
    hide Leased, Refs, LeaseOf, Insert;
    LeasedInsert(q, x);
    TotalItem(Leased(slots), Leased(Refs(q)), Leased(vars), multiset(retained) + multiset(lost), LeaseOf(x.packet));
  }

  lemma OwnsApart(
    slots: seq<PacketRef>, q: seq<Item>, vars: seq<PacketRef>, retained: seq<nat>, lost: seq<nat>, id: nat)
    ensures Owns(slots, q, vars, retained + [id], lost) == Owns(slots, q, vars, retained, lost) + multiset{id}
    ensures Owns(slots, q, vars, retained, lost + [id]) == Owns(slots, q, vars, retained, lost) + multiset{id}
  {
    hide Leased, Refs;
    OneMoreApart(retained, lost, id);
    TotalApart(Leased(slots), Leased(Refs(q)), Leased(vars), multiset(retained) + multiset(lost), multiset{id});
  }

  /** Clearing a variable without release turns what it owned into a lost reference. */
  lemma OwnsInit(slots: seq<PacketRef>, q: seq<Item>, vars: seq<PacketRef>, retained: seq<nat>, lost: seq<nat>, i: nat)
    requires i < |vars|
    ensures Owns(slots, q, vars[i := EMPTY], retained, lost + LeaseIn(vars[i])) == Owns(slots, q, vars, retained, lost)
  {
    hide Owns;
    OwnsVar(slots, q, vars, retained, lost, i);
    if vars[i].lease.Some? {
      OwnsApart(slots, q, vars[i := EMPTY], retained, lost, vars[i].lease.value);
    } else {
      assert lost + [] == lost;
      NoneAdded(Owns(slots, q, vars[i := EMPTY], retained, lost), vars[i]);
    }
  }

  /** A variable that owns nothing takes over `p`. */
  lemma OwnsFill(
    slots: seq<PacketRef>, q: seq<Item>, vars: seq<PacketRef>, retained: seq<nat>, lost: seq<nat>, i: nat, p: PacketRef)
    requires i < |vars| && vars[i] == EMPTY
    ensures Owns(slots, q, vars[i := p], retained, lost) == Owns(slots, q, vars, retained, lost) + LeaseOf(p)
  {
    hide Owns, LeaseOf;
    OwnsVar(slots, q, vars[i := p], retained, lost, i);
    assert vars[i := p][i := EMPTY] == vars;
  }

  lemma OwnsFillSlot(
    slots: seq<PacketRef>, q: seq<Item>, vars: seq<PacketRef>, retained: seq<nat>, lost: seq<nat>, i: nat, p: PacketRef)
    requires i < |slots| && slots[i] == EMPTY
    ensures Owns(slots[i := p], q, vars, retained, lost) == Owns(slots, q, vars, retained, lost) + LeaseOf(p)
  {
    hide Owns, LeaseOf;
    OwnsSlot(slots[i := p], q, vars, retained, lost, i);
    assert slots[i := p][i := EMPTY] == slots;
  }

  lemma OwnsMove(
    slots: seq<PacketRef>, q: seq<Item>, vars: seq<PacketRef>, retained: seq<nat>, lost: seq<nat>, dst: nat, src: nat)
    requires dst < |vars| && src < |vars| && dst != src && vars[dst] == EMPTY
    ensures Owns(slots, q, vars[dst := vars[src]][src := EMPTY], retained, lost) == Owns(slots, q, vars, retained, lost)
  {
    hide Owns, LeaseOf;
    OwnsVar(slots, q, vars, retained, lost, src);
    OwnsFill(slots, q, vars[src := EMPTY], retained, lost, dst, vars[src]);
    assert vars[src := EMPTY][dst := vars[src]] == vars[dst := vars[src]][src := EMPTY];
  }

  lemma OwnsMoveOut(
    slots: seq<PacketRef>, q: seq<Item>, vars: seq<PacketRef>, retained: seq<nat>, lost: seq<nat>, k: nat, i: nat)
    requires k < |slots| && i < |vars| && vars[i] == EMPTY
    ensures Owns(slots[k := EMPTY], q, vars[i := slots[k]], retained, lost) == Owns(slots, q, vars, retained, lost)
  {
    hide Owns, LeaseOf;
    OwnsSlot(slots, q, vars, retained, lost, k);
    OwnsFill(slots[k := EMPTY], q, vars, retained, lost, i, slots[k]);
  }

  lemma OwnsPush(
    slots: seq<PacketRef>, q: seq<Item>, vars: seq<PacketRef>, retained: seq<nat>, lost: seq<nat>, i: nat, epoch: u64)
    requires i < |vars|
    ensures Owns(slots, Insert(q, Item(vars[i], epoch)), vars[i := EMPTY], retained, lost)
         == Owns(slots, q, vars, retained, lost)
  {
    hide Owns, LeaseOf, Insert;
    OwnsVar(slots, q, vars, retained, lost, i);
    OwnsInsert(slots, q, vars[i := EMPTY], retained, lost, Item(vars[i], epoch));
  }

  lemma OwnsPop(slots: seq<PacketRef>, q: seq<Item>, vars: seq<PacketRef>, retained: seq<nat>, lost: seq<nat>, i: nat)
    requires q != [] && i < |vars| && vars[i] == EMPTY
    ensures Owns(slots, q[1..], vars[i := q[0].packet], retained, lost) == Owns(slots, q, vars, retained, lost)
  {
    hide Owns, LeaseOf;
    OwnsHead(slots, q, vars, retained, lost);
    OwnsFill(slots, q[1..], vars, retained, lost, i, q[0].packet);
  }

  lemma NoneAdded(owned: multiset<nat>, p: PacketRef)
    requires p.lease == None
    ensures owned + LeaseOf(p) == owned
  {}

  lemma OneMoreApart(retained: seq<nat>, lost: seq<nat>, id: nat)
    ensures multiset(retained) + multiset(lost + [id]) == multiset(retained) + multiset(lost) + multiset{id}
    ensures multiset(retained + [id]) + multiset(lost) == multiset(retained) + multiset(lost) + multiset{id}
  {}

  /**
    Popping into variable `i` without releasing it keeps every count equal to its owners if and only if the
    variable owns no lease; otherwise the overwritten lease is left with exactly one reference more than it has
    owners.
   */
  lemma PopKeepsBalanceExactly(
    slots: seq<PacketRef>, q: seq<Item>, vars: seq<PacketRef>, retained: seq<nat>, lost: seq<nat>, i: nat,
    refcount: map<nat, nat>)
    requires q != [] && i < |vars| && Balanced(Owns(slots, q, vars, retained, lost), refcount)
    ensures var after := Owns(slots, q[1..], vars[i := q[0].packet], retained, lost);
            && (Balanced(after, refcount) <==> vars[i].lease == None)
            && (vars[i].lease.Some? ==>
                  var id := vars[i].lease.value;
                  id in refcount && refcount[id] == after[id] + 1)
  {
    hide Owns;
    OwnsVar(slots, q, vars, retained, lost, i);
    OwnsPop(slots, q, vars[i := EMPTY], retained, lost, i);
    assert vars[i := EMPTY][i := q[0].packet] == vars[i := q[0].packet];
    var after := Owns(slots, q[1..], vars[i := q[0].packet], retained, lost);
    if vars[i].lease.Some? {
      var id := vars[i].lease.value;
      assert (after + multiset{id})[id] == after[id] + 1;
    } else {
      NoneAdded(after, vars[i]);
    }
  }

  // ----- a session: demuxer slots, reorder queue, the caller's variables and its retained leases

  datatype Op =
    | AddPacket(info: PacketInfo) | Create(i: nat, info: PacketInfo) | Next(i: nat) | Move(dst: nat, src: nat)
    | Push(i: nat, epoch: u64) | PopReady(i: nat) | WriteMux(i: nat) | Reset(i: nat) | Init(i: nat)
    | RetainVar(i: nat) | ReleaseRetained | DestroyQueue | CloseDemux

  /** The operation names existing variables only. */
  predicate InRange(op: Op, n: nat) {
    match op
    case Create(i, _) => i < n
    case Next(i) => i < n
    case Move(dst, src) => dst < n && src < n
    case Push(i, _) => i < n
    case PopReady(i) => i < n
    case WriteMux(i) => i < n
    case Reset(i) => i < n
    case Init(i) => i < n
    case RetainVar(i) => i < n
    case _ => true
  }

  /** Everything a run can observe: handles by place, retained and lost leases, and how many were created. */
  datatype World = World(
    vars: seq<PacketRef>, live: seq<PacketRef>, cursor: nat, queue: seq<Item>, retained: seq<nat>, lost: seq<nat>,
    created: nat)

  /** What each operation does to the handles, reference counts aside. */
  function Step(w: World, op: Op, limit: nat): (w': World)
    requires InRange(op, |w.vars|) && w.cursor <= |w.live|
    ensures |w'.vars| == |w.vars| && w'.cursor <= |w'.live|
  {
    match op
    case AddPacket(info) => w.(live := w.live + [PacketRef(info, Some(w.created))], created := w.created + 1)
    case Create(i, info) =>
      w.(vars := w.vars[i := PacketRef(info, Some(w.created))], lost := w.lost + LeaseIn(w.vars[i]),
         created := w.created + 1)
    case Next(i) =>
      if w.cursor == |w.live| then w
      else w.(vars := w.vars[i := w.live[w.cursor]], live := w.live[w.cursor := EMPTY], cursor := w.cursor + 1)
    case Move(dst, src) => if dst == src then w else w.(vars := w.vars[dst := w.vars[src]][src := EMPTY])
    case Push(i, epoch) =>
      if |w.queue| >= limit then w
      else w.(vars := w.vars[i := EMPTY], queue := Insert(w.queue, Item(w.vars[i], epoch)))
    case PopReady(i) =>
      if w.queue == [] then w
      else w.(vars := w.vars[i := w.queue[0].packet], queue := w.queue[1..], lost := w.lost + LeaseIn(w.vars[i]))
    case WriteMux(i) => w.(vars := w.vars[i := EMPTY])
    case Reset(i) => w.(vars := w.vars[i := EMPTY])
    case Init(i) => w.(vars := w.vars[i := EMPTY], lost := w.lost + LeaseIn(w.vars[i]))
    case RetainVar(i) => w.(retained := w.retained + LeaseIn(w.vars[i]))
    case ReleaseRetained => w.(retained := if w.retained == [] then [] else w.retained[..|w.retained| - 1])
    case DestroyQueue => w.(queue := [])
    case CloseDemux => w.(live := [], cursor := 0)
  }

  predicate AllInRange(ops: seq<Op>, n: nat) { forall k :: 0 <= k < |ops| ==> InRange(ops[k], n) }

  function RunOf(w: World, ops: seq<Op>, limit: nat): (w': World)
    requires AllInRange(ops, |w.vars|) && w.cursor <= |w.live|
    ensures |w'.vars| == |w.vars| && w'.cursor <= |w'.live|
  {
    if ops == [] then w else Step(RunOf(w, ops[..|ops| - 1], limit), ops[|ops| - 1], limit)
  }

  /** `op` writes over a variable that owns a lease without releasing it. */
  predicate Overwrites(w: World, op: Op)
    requires InRange(op, |w.vars|)
  {
    match op
    case Create(i, _) => w.vars[i].lease.Some?
    case PopReady(i) => w.queue != [] && w.vars[i].lease.Some?
    case Init(i) => w.vars[i].lease.Some?
    case _ => false
  }

  /** How many steps of a run overwrite an owning variable. */
  function Overwriting(w: World, ops: seq<Op>, limit: nat): nat
    requires AllInRange(ops, |w.vars|) && w.cursor <= |w.live|
  {
    if ops == [] then 0
    else
      var rest, op := ops[..|ops| - 1], ops[|ops| - 1];
      Overwriting(w, rest, limit) + if Overwrites(RunOf(w, rest, limit), op) then 1 else 0
  }

  /** A run loses exactly one reference for each step that overwrites an owning variable, and none otherwise. */
  lemma {:induction false} LostExactlyByOverwriting(w: World, ops: seq<Op>, limit: nat)
    requires AllInRange(ops, |w.vars|) && w.cursor <= |w.live|
    ensures w.lost <= RunOf(w, ops, limit).lost
    ensures |RunOf(w, ops, limit).lost| == |w.lost| + Overwriting(w, ops, limit)
    decreases |ops|
  {
    hide Overwrites, Step, InRange;
    if ops != [] {
      var rest := ops[..|ops| - 1];
      LostExactlyByOverwriting(w, rest, limit);
      StepLoses(RunOf(w, rest, limit), ops[|ops| - 1], limit);
    }
  }

  /** Creating into an empty variable and clearing it again leaves every handle as it was, one lease later. */
  lemma CreateAndClear(w: World, first: Op, second: Op, limit: nat)
    requires first.Create? && InRange(first, |w.vars|) && w.vars[first.i] == EMPTY && w.cursor <= |w.live|
    requires second == WriteMux(first.i) || second == Reset(first.i)
    ensures AllInRange([first, second], |w.vars|)
    ensures RunOf(w, [first, second], limit) == w.(created := w.created + 1)
  {
    hide Insert;
    assert [first, second][..1] == [first] && [first][..0] == [];
    var w1 := Step(w, first, limit);
    assert RunOf(w, [first], limit) == w1;
    assert w.lost + [] == w.lost;
    assert w1.vars[first.i := EMPTY] == w.vars;
  }

  lemma SameCounts(owned: multiset<nat>, r: map<nat, nat>, r': map<nat, nat>)
    requires Balanced(owned, r) && Balanced(owned, r')
    requires (forall id :: id in r ==> r[id] > 0) && (forall id :: id in r' ==> r'[id] > 0)
    ensures r == r'
  {
    forall id: nat
      ensures id in r <==> id in r'
      ensures id in r ==> r[id] == r'[id]
    {
      assert owned[id] == if id in r then r[id] else 0;
      assert owned[id] == if id in r' then r'[id] else 0;
    }
    assert r.Keys == r'.Keys;
  }

  /** What each operation means for the handles it names, place by place. */
  lemma StepByKind(w: World, op: Op, limit: nat)
    requires InRange(op, |w.vars|) && w.cursor <= |w.live|
    ensures var w' := Step(w, op, limit);
            && (op.WriteMux? || op.Reset? ==> w' == w.(vars := w'.vars) && w'.vars == w.vars[op.i := EMPTY])
            && (op.Init? ==> w' == w.(vars := w.vars[op.i := EMPTY], lost := w'.lost))
            && (op.Create? ==> w'.vars[op.i] == PacketRef(op.info, Some(w.created)) && w'.created == w.created + 1
                               && w'.live == w.live && w'.queue == w.queue && w'.retained == w.retained)
            && (op.AddPacket? ==> w' == w.(live := w.live + [PacketRef(op.info, Some(w.created))], created := w.created + 1))
            && (op.Next? && w.cursor < |w.live| ==>
                  w'.vars[op.i] == w.live[w.cursor] && w'.live[w.cursor] == EMPTY && w'.cursor == w.cursor + 1)
            && (op.Move? && op.dst != op.src ==> w'.vars[op.dst] == w.vars[op.src] && w'.vars[op.src] == EMPTY)
            && (op.Move? && op.dst == op.src ==> w' == w)
            && (op.Push? && |w.queue| < limit ==>
                  && w'.vars == w.vars[op.i := EMPTY] && |w'.queue| == |w.queue| + 1
                  && Item(w.vars[op.i], op.epoch) in w'.queue)
            && (op.Push? && |w.queue| >= limit ==> w' == w)
            && (op.PopReady? && w.queue != [] ==> w'.vars[op.i] == w.queue[0].packet && w'.queue == w.queue[1..])
            && (op.RetainVar? && w.vars[op.i].lease.Some? ==>
                  w' == w.(retained := w.retained + [w.vars[op.i].lease.value]))
            && (op.ReleaseRetained? && w.retained != [] ==> w'.retained == w.retained[..|w.retained| - 1])
            && (op.DestroyQueue? ==> w' == w.(queue := []))
            && (op.CloseDemux? ==> w' == w.(live := [], cursor := 0))
  {
    if op.Push? && |w.queue| < limit { InsertHolds(w.queue, Item(w.vars[op.i], op.epoch)); }
    hide Insert;
  }

  lemma InsertHolds(q: seq<Item>, x: Item)
    ensures |Insert(q, x)| == |q| + 1 && x in Insert(q, x)
  {
    hide Less, InsertPos;
    assert Insert(q, x)[InsertPos(q, x)] == x;
  }

  lemma StepLoses(w: World, op: Op, limit: nat)
    requires InRange(op, |w.vars|) && w.cursor <= |w.live|
    ensures w.lost <= Step(w, op, limit).lost
    ensures |Step(w, op, limit).lost| == |w.lost| + if Overwrites(w, op) then 1 else 0
  {
    hide Insert;
  }

  class Session {
    const leases: Leases
    const queue: ReorderQueue
    /** The caller's packet variables. */
    var vars: seq<PacketRef>
    var slots: seq<PacketRef>
    var packetCount: nat
    var cursor: nat
    var retained: seq<nat>
    /** References whose handle was overwritten without a release, in order. */
    ghost var lost: seq<nat>

    ghost function References(): multiset<nat>
      reads this, queue, queue.items
      requires queue.count <= queue.items.Length
    {
      Owns(slots, queue.Contents(), vars, retained, lost)
    }

    ghost predicate Valid()
      reads this, leases, queue, queue.items
    {
      && leases.Valid() && queue.Valid()
      && cursor <= packetCount <= |slots|
      && (forall i :: packetCount <= i < |slots| ==> slots[i] == EMPTY)
      && Balanced(References(), leases.refcount)
    }

    constructor (limit: nat, variables: nat)
      ensures Valid() && fresh(leases) && fresh(queue) && fresh(queue.items)
      ensures leases.next == 0 && lost == [] && vars == seq(variables, _ => EMPTY)
    {
      leases := new Leases();
      queue := new ReorderQueue(limit);
      vars := seq(variables, _ => EMPTY);
      slots, packetCount, cursor, retained, lost := [], 0, 0, [], [];
      new;
      EmptyOwnsNothing(vars);
      NothingOwned();
    }

    /** Drops one reference to `id`; `rest` is what is referenced besides. */
    method Drop(id: nat, ghost rest: multiset<nat>)
      requires leases.Valid() && Balanced(rest + multiset{id}, leases.refcount)
      modifies leases
      ensures leases.Valid() && Balanced(rest, leases.refcount) && leases.next == old(leases.next)
      ensures forall info :: Released(PacketRef(info, Some(id)), old(leases.refcount), leases.refcount,
                                      old(leases.freed), leases.freed)
    {
      hide Balanced;
      BalancedRelease(rest, leases.refcount, id);
      leases.Release(id);
    }

    /** Releases what handle `p` owned; `rest` is what is referenced besides. */
    method DropHandle(p: PacketRef, ghost rest: multiset<nat>)
      requires leases.Valid() && Balanced(rest + LeaseOf(p), leases.refcount)
      modifies leases
      ensures leases.Valid() && Balanced(rest, leases.refcount) && leases.next == old(leases.next)
      ensures Released(p, old(leases.refcount), leases.refcount, old(leases.freed), leases.freed)
    {
      hide Balanced;
      if p.lease.Some? { Drop(p.lease.value, rest); } else { NoneAdded(rest, p); }
    }

    /** `tide_packet_ref_reset` on a caller's variable. */
    method ResetVar(i: nat)
      requires Valid() && i < |vars|
      modifies `vars, leases
      ensures Valid() && vars == old(vars)[i := EMPTY] && leases.next == old(leases.next)
      ensures Released(old(vars)[i], old(leases.refcount), leases.refcount, old(leases.freed), leases.freed)
    {
      hide Owns, Balanced, LeaseOf, Sorted, Released;
      OwnsVar(slots, queue.Contents(), vars, retained, lost, i);
      DropHandle(vars[i], Owns(slots, queue.Contents(), vars[i := EMPTY], retained, lost));
      vars := vars[i := EMPTY];
    }

    /**
      `tide_mux_write_packet` as far as ownership goes: whether or not the record could be written, the packet is
      reset, so the caller's variable is empty and its lease released once; nothing else changes hands.
     */
    method WriteMux(i: nat)
      requires Valid() && i < |vars|
      modifies `vars, leases
      ensures Valid() && vars == old(vars)[i := EMPTY] && leases.next == old(leases.next)
      ensures Released(old(vars)[i], old(leases.refcount), leases.refcount, old(leases.freed), leases.freed)
    {
      hide Owns, Balanced, Sorted, Released;
      ResetVar(i);
    }

    /** `tide_packet_ref_init`: clears a variable without releasing; a lease it owned is lost. */
    method InitVar(i: nat)
      requires Valid() && i < |vars|
      modifies `vars, `lost
      ensures Valid() && vars == old(vars)[i := EMPTY] && lost == old(lost) + LeaseIn(old(vars)[i])
    {
      hide Owns, Balanced, LeaseIn, Sorted;
      OwnsInit(slots, queue.Contents(), vars, retained, lost, i);
      lost := lost + LeaseIn(vars[i]);
      vars := vars[i := EMPTY];
    }

    /** The demuxer's slot array doubles; new slots are empty. */
    method GrowSlots()
      requires Valid() && packetCount == |slots|
      modifies `slots
      ensures Valid() && packetCount < |slots| && slots[..packetCount] == old(slots)
    {
      hide Leased, Balanced, Total, Sorted;
      var next := if |slots| == 0 then 16 else 2 * |slots|;
      var extra := seq(next - |slots|, _ => EMPTY);
      LeasedGrow(slots, extra);
      slots := slots + extra;
    }

    /** `tide_demux_add_packet`: a new lease, owned by the next free slot. */
    method AddPacket(info: PacketInfo)
      requires Valid()
      modifies `slots, `packetCount, leases
      ensures Valid() && leases.next == old(leases.next) + 1 && packetCount == old(packetCount) + 1
      ensures slots[..packetCount] == old(slots[..packetCount]) + [PacketRef(info, Some(old(leases.next)))]
    {
      hide Owns, Balanced, Sorted;
      if packetCount == |slots| { GrowSlots(); }
      FillSlot(info);
    }

    /** A new lease for a handle that is about to own it. */
    method NewLease(ghost owned: multiset<nat>, info: PacketInfo) returns (p: PacketRef)
      requires leases.Valid() && Balanced(owned, leases.refcount)
      modifies leases
      ensures leases.Valid() && leases.next == old(leases.next) + 1 && p == PacketRef(info, Some(old(leases.next)))
      ensures Balanced(owned + LeaseOf(p), leases.refcount)
    {
      hide Balanced;
      ghost var refs := leases.refcount;
      var id := leases.CreateCopy();
      BalancedCreate(owned, refs, id);
      p := PacketRef(info, Some(id));
    }

    method FillSlot(info: PacketInfo)
      requires Valid() && packetCount < |slots|
      modifies `slots, `packetCount, leases
      ensures Valid() && leases.next == old(leases.next) + 1 && packetCount == old(packetCount) + 1
      ensures slots == old(slots)[old(packetCount) := PacketRef(info, Some(old(leases.next)))]
    {
      hide Owns, Balanced, LeaseOf, Sorted;
      var p := NewLease(References(), info);
      OwnsFillSlot(slots, queue.Contents(), vars, retained, lost, packetCount, p);
      slots := slots[packetCount := p];
      packetCount := packetCount + 1;
    }

    /** A caller puts a new lease into a variable of its own; whatever the variable owned is lost. */
    method Create(i: nat, info: PacketInfo)
      requires Valid() && i < |vars|
      modifies `vars, `lost, leases
      ensures Valid() && leases.next == old(leases.next) + 1
      ensures vars == old(vars)[i := PacketRef(info, Some(old(leases.next)))]
      ensures lost == old(lost) + LeaseIn(old(vars)[i])
    {
      hide Owns, Balanced, LeaseOf, LeaseIn, Sorted;
      InitVar(i);
      var p := NewLease(References(), info);
      OwnsFill(slots, queue.Contents(), vars, retained, lost, i, p);
      vars := vars[i := p];
    }

    /** `tide_packet_ref_move`: a variable is not moved onto itself; the destination's own lease is released. */
    method Move(dst: nat, src: nat) returns (status: Status)
      requires Valid() && dst < |vars| && src < |vars|
      modifies `vars, leases
      ensures Valid() && leases.next == old(leases.next)
      ensures status == if dst == src then INVALID_ARGUMENT else OK
      ensures vars == if dst == src then old(vars) else old(vars)[dst := old(vars)[src]][src := EMPTY]
      ensures dst == src ==> leases.refcount == old(leases.refcount) && leases.freed == old(leases.freed)
      ensures dst != src ==>
                Released(old(vars)[dst], old(leases.refcount), leases.refcount, old(leases.freed), leases.freed)
    {
      hide Owns, Balanced, Sorted, Released;
      if dst == src { return INVALID_ARGUMENT; }
      ResetVar(dst);
      OwnsMove(slots, queue.Contents(), vars, retained, lost, dst, src);
      vars := vars[dst := vars[src]][src := EMPTY];
      return OK;
    }

    /** `tide_demux_next`: moves the packet at the cursor into a variable, releasing what it held. */
    method Next(i: nat) returns (status: Status)
      requires Valid() && i < |vars|
      modifies `vars, `slots, `cursor, leases
      ensures Valid() && leases.next == old(leases.next)
      ensures status == if old(cursor) >= old(packetCount) then WOULD_BLOCK else OK
      ensures status == OK ==> vars == old(vars)[i := old(slots)[old(cursor)]] && cursor == old(cursor) + 1
                               && slots == old(slots)[old(cursor) := EMPTY]
      ensures status != OK ==> vars == old(vars) && cursor == old(cursor) && slots == old(slots)
      ensures status == OK ==>
                Released(old(vars)[i], old(leases.refcount), leases.refcount, old(leases.freed), leases.freed)
    {
      hide Owns, Balanced, Sorted, Released;
      if cursor >= packetCount { return WOULD_BLOCK; }
      ResetVar(i);
      OwnsMoveOut(slots, queue.Contents(), vars, retained, lost, cursor, i);
      vars := vars[i := slots[cursor]];
      slots := slots[cursor := EMPTY];
      cursor := cursor + 1;
      return OK;
    }

    method Push(i: nat, epoch: u64) returns (status: Status)
      requires Valid() && i < |vars|
      modifies `vars, queue, queue.items
      ensures Valid() && (queue.items == old(queue.items) || fresh(queue.items))
      ensures status == if old(queue.count) >= queue.limit then RESOURCE else OK
      ensures queue.Contents() == if status == OK then Insert(old(queue.Contents()), Item(old(vars)[i], epoch))
                                  else old(queue.Contents())
      ensures vars == if status == OK then old(vars)[i := EMPTY] else old(vars)
    {
      hide Owns, Balanced, Insert, Sorted;
      OwnsPush(slots, queue.Contents(), vars, retained, lost, i, epoch);
      var packet := new Cell();
      packet.packet := vars[i];
      status := queue.Push(packet, epoch);
      assert status != OK ==> vars[i := packet.packet] == vars;
      vars := vars[i := packet.packet];
    }

    /** `tide_reorder_queue_pop_ready`: the output is initialised, not reset, before the move. */
    method PopReady(i: nat) returns (status: Status)
      requires Valid() && i < |vars|
      modifies `vars, `lost, queue, queue.items
      ensures Valid() && queue.items == old(queue.items)
      ensures status == if old(queue.count) == 0 then WOULD_BLOCK else OK
      ensures status == OK ==> vars == old(vars)[i := old(queue.Contents())[0].packet]
                               && queue.Contents() == old(queue.Contents())[1..]
                               && lost == old(lost) + LeaseIn(old(vars)[i])
      ensures status != OK ==> vars == old(vars) && queue.Contents() == old(queue.Contents()) && lost == old(lost)
    {
      hide Owns, Balanced, Sorted, LeaseIn;
      if queue.count == 0 { return WOULD_BLOCK; }
      InitVar(i);
      OwnsPop(slots, queue.Contents(), vars, retained, lost, i);
      var out := new Cell();
      status := queue.PopReady(out);
      vars := vars[i := out.packet];
    }

    /** `tide_payload_lease_retain` on a variable's lease, kept by the caller. */
    method RetainVar(i: nat)
      requires Valid() && i < |vars|
      modifies `retained, leases
      ensures Valid() && leases.next == old(leases.next) && retained == old(retained) + LeaseIn(vars[i])
    {
      hide Owns, Balanced, Sorted;
      if vars[i].lease.None? { return; }
      var id := vars[i].lease.value;
      OwnsVar(slots, queue.Contents(), vars, retained, lost, i);
      OwnedIsLive(References(), leases.refcount, id);
      BalancedRetain(References(), leases.refcount, id);
      leases.Retain(id);
      OwnsApart(slots, queue.Contents(), vars, retained, lost, id);
      retained := retained + [id];
    }

    /** Releases the lease the caller retained last. */
    method ReleaseRetained()
      requires Valid()
      modifies `retained, leases
      ensures Valid() && leases.next == old(leases.next)
      ensures retained == if old(retained) == [] then [] else old(retained)[..|old(retained)| - 1]
    {
      hide Owns, Balanced, Sorted;
      if retained == [] { return; }
      var n := |retained| - 1;
      OwnsApart(slots, queue.Contents(), vars, retained[..n], lost, retained[n]);
      assert retained == retained[..n] + [retained[n]];
      Drop(retained[n], Owns(slots, queue.Contents(), vars, retained[..n], lost));
      retained := retained[..n];
    }

    /** `tide_packet_ref_reset` on one demuxer slot. */
    method ResetSlot(i: nat)
      requires Valid() && i < |slots|
      modifies `slots, leases
      ensures Valid() && slots == old(slots)[i := EMPTY] && leases.next == old(leases.next)
    {
      hide Owns, Balanced, LeaseOf, Sorted;
      OwnsSlot(slots, queue.Contents(), vars, retained, lost, i);
      DropHandle(slots[i], Owns(slots[i := EMPTY], queue.Contents(), vars, retained, lost));
      slots := slots[i := EMPTY];
    }

    /** `tide_demux_close`: every slot of the array is reset, moved-out ones included. */
    method CloseDemux()
      requires Valid()
      modifies `slots, `packetCount, `cursor, leases
      ensures Valid() && slots == [] && leases.next == old(leases.next)
    {
      hide Leased, Refs, Balanced, Total, Sorted;
      for i := 0 to |slots|
        invariant Valid() && |slots| == |old(slots)| && leases.next == old(leases.next)
        invariant forall j :: 0 <= j < i ==> slots[j] == EMPTY
      {
        ResetSlot(i);
      }
      EmptyOwnsNothing(slots);
      EmptyOwnsNothing([]);
      slots, packetCount, cursor := [], 0, 0;
    }

    /** `tide_reorder_queue_destroy`: resets exactly the counted items, never the stale slots after them. */
    method DestroyQueue()
      requires Valid()
      modifies queue, queue.items, leases
      ensures Valid() && fresh(queue.items) && queue.Contents() == [] && leases.next == old(leases.next)
    {
      hide Owns, Balanced, Sorted, LeaseOf;
      ghost var q := queue.Contents();
      var items, count := queue.items, queue.count;
      assert q[0..] == q;
      for i := 0 to count
        invariant items[i..count] == q[i..] && leases.Valid() && leases.next == old(leases.next)
        invariant Balanced(Owns(slots, q[i..], vars, retained, lost), leases.refcount)
        modifies items, leases
      {
        assert items[i] == items[i..count][0] == q[i] && q[i..][0] == q[i] && q[i..][1..] == q[i + 1..];
        OwnsHead(slots, q[i..], vars, retained, lost);
        DropHandle(items[i].packet, Owns(slots, q[i + 1..], vars, retained, lost));
        items[i] := items[i].(packet := EMPTY);
        assert items[i + 1..count] == q[i + 1..];
      }
      queue.items := new Item[0];
      queue.count := 0;
      assert q[count..] == [] && queue.items[..0] == [];
      NothingSorted();
    }

    ghost function Now(): World
      reads this, queue, queue.items, leases
      requires queue.count <= queue.items.Length && packetCount <= |slots|
    {
      World(vars, slots[..packetCount], cursor, queue.Contents(), retained, lost, leases.next)
    }

    /** The operations that move packets in and out of the queue or out of the demuxer. */
    method PerformShared(op: Op)
      requires Valid() && InRange(op, |vars|)
      requires op.Next? || op.Push? || op.PopReady? || op.DestroyQueue?
      modifies this, leases, queue, queue.items
      ensures Valid() && (queue.items == old(queue.items) || fresh(queue.items))
      ensures Now() == Step(old(Now()), op, queue.limit)
    {
      hide References, Balanced, Sorted, Insert, Released, LeaseIn;
      var status;
      match op {
        case Next(i) =>
          status := Next(i);
          assert status == OK ==> slots[..packetCount] == old(slots[..packetCount])[old(cursor) := EMPTY];
        case Push(i, epoch) => status := Push(i, epoch);
        case PopReady(i) => status := PopReady(i);
        case DestroyQueue => DestroyQueue();
      }
    }

    /** One operation: the handles change as `Step` says and conservation is kept. */
    method Perform(op: Op)
      requires Valid() && InRange(op, |vars|)
      modifies this, leases, queue, queue.items
      ensures Valid() && (queue.items == old(queue.items) || fresh(queue.items))
      ensures Now() == Step(old(Now()), op, queue.limit)
    {
      hide References, Balanced, Sorted, Insert, Released, LeaseIn;
      match op {
        case AddPacket(info) => AddPacket(info);
        case CloseDemux => CloseDemux();
        case Create(i, info) => Create(i, info);
        case Move(dst, src) => var status := Move(dst, src);
        case WriteMux(i) => WriteMux(i);
        case Reset(i) => ResetVar(i);
        case Init(i) => InitVar(i);
        case RetainVar(i) => RetainVar(i);
        case ReleaseRetained => ReleaseRetained();
        case _ => PerformShared(op);
      }
    }

    /**
      Any run of operations over any number of variables, in any order: the handles end where `RunOf` says, and
      every lease's count equals its owners plus its lost references.
     */
    method RunAll(ops: seq<Op>)
      requires Valid() && AllInRange(ops, |vars|)
      modifies this, leases, queue, queue.items
      ensures Valid() && (queue.items == old(queue.items) || fresh(queue.items))
      ensures Now() == RunOf(old(Now()), ops, queue.limit)
    {
      hide References, Balanced, Sorted, InRange, Step;
      assert ops[..0] == [];
      for k := 0 to |ops|
        invariant Valid() && (queue.items == old(queue.items) || fresh(queue.items))
        invariant Now() == RunOf(old(Now()), ops[..k], queue.limit)
      {
        assert ops[..k + 1][..k] == ops[..k];
        Perform(ops[k]);
      }
      assert ops[..|ops|] == ops;
    }

    /** A packet created into an empty variable and written to the muxer: exactly its lease is freed, once. */
    method CreateThenWrite(i: nat, info: PacketInfo)
      requires Valid() && i < |vars| && vars[i] == EMPTY
      modifies this, leases, queue, queue.items
      ensures Valid() && Now() == old(Now()).(created := old(leases.next) + 1)
      ensures leases.refcount == old(leases.refcount)
      ensures old(leases.next) !in old(leases.refcount) && multiset(leases.freed)[old(leases.next)] == 1
    {
      ghost var refs := leases.refcount;
      RunTwo(Op.Create(i, info), Op.WriteMux(i), refs);
    }

    /** The same with a reset in place of the write. */
    method CreateThenReset(i: nat, info: PacketInfo)
      requires Valid() && i < |vars| && vars[i] == EMPTY
      modifies this, leases, queue, queue.items
      ensures Valid() && Now() == old(Now()).(created := old(leases.next) + 1)
      ensures leases.refcount == old(leases.refcount)
      ensures old(leases.next) !in old(leases.refcount) && multiset(leases.freed)[old(leases.next)] == 1
    {
      ghost var refs := leases.refcount;
      RunTwo(Op.Create(i, info), Op.Reset(i), refs);
    }

    /** Two operations that leave every handle as it was: the counts are then what they were. */
    method RunTwo(first: Op, second: Op, ghost refs: map<nat, nat>)
      requires Valid() && first.Create? && InRange(first, |vars|) && vars[first.i] == EMPTY && refs == leases.refcount
      requires second == Op.WriteMux(first.i) || second == Op.Reset(first.i)
      modifies this, leases, queue, queue.items
      ensures Valid() && Now() == old(Now()).(created := old(leases.next) + 1)
      ensures leases.refcount == refs && old(leases.next) !in refs && multiset(leases.freed)[old(leases.next)] == 1
    {
      hide Owns, Balanced, Sorted, Insert, LeaseIn;
      ghost var before := Now();
      OwnsLive(slots, packetCount, queue.Contents(), vars, retained, lost);
      RunAll([first, second]);
      CreateAndClear(before, first, second, queue.limit);
      OwnsLive(slots, packetCount, queue.Contents(), vars, retained, lost);
      SameCounts(References(), refs, leases.refcount);
    }

    /**
      From any reachable state, shutting everything down frees every lease ever created exactly once, except those
      with a lost reference, which are never freed.
     */
    method Shutdown()
      requires Valid()
      modifies this, leases, queue, queue.items
      ensures Valid() && leases.next == old(leases.next) && lost == old(lost)
      ensures forall id: nat :: multiset(leases.freed)[id] == if id < leases.next && id !in lost then 1 else 0
      ensures forall id: nat :: id in leases.refcount <==> id in lost
    {
      hide Leased, Refs, Balanced, Sorted, Total, Owns;
      DestroyQueue();
      CloseDemux();
      for i := 0 to |vars|
        invariant Valid() && slots == [] && queue.Contents() == [] && |vars| == old(|vars|)
        invariant forall j :: 0 <= j < i ==> vars[j] == EMPTY
        invariant leases.next == old(leases.next) && lost == old(lost)
        modifies this, leases
      {
        ResetVar(i);
      }
      while retained != []
        invariant Valid() && slots == [] && queue.Contents() == [] && forall j :: 0 <= j < |vars| ==> vars[j] == EMPTY
        invariant leases.next == old(leases.next) && lost == old(lost)
        modifies `retained, leases
        decreases |retained|
      {
        ReleaseRetained();
      }
      OnlyLost(vars, lost);
      LostStayLive(lost, leases.refcount);
      FreedOnce(leases.freed, leases.next, lost, leases.refcount);
    }
  }

  lemma NothingSorted()
    ensures Sorted([])
  {}

  lemma NothingOwned()
    ensures Leased([]) == multiset{} && Refs([]) == []
    ensures Total(multiset{}, multiset{}, multiset{}, multiset{}) == multiset{}
  {}

  lemma OnlyLost(vars: seq<PacketRef>, lost: seq<nat>)
    requires forall i :: 0 <= i < |vars| ==> vars[i] == EMPTY
    ensures Owns([], [], vars, [], lost) == multiset(lost)
  {
    EmptyOwnsNothing(vars);
    NothingOwned();
  }

  lemma LostStayLive(lost: seq<nat>, refcount: map<nat, nat>)
    requires Balanced(multiset(lost), refcount) && forall id :: id in refcount ==> refcount[id] > 0
    ensures forall id: nat :: id in refcount <==> id in lost
  {
    forall id: nat
      ensures id in refcount <==> id in lost
    {
      assert multiset(lost)[id] == if id in refcount then refcount[id] else 0;
    }
  }

  lemma FreedOnce(freed: seq<nat>, next: nat, lost: seq<nat>, refcount: map<nat, nat>)
    requires forall id: nat :: id < next ==> multiset(freed)[id] == if id in refcount then 0 else 1
    requires forall id :: id in freed ==> id < next
    requires forall id: nat :: id in refcount <==> id in lost
    ensures forall id: nat :: multiset(freed)[id] == if id < next && id !in lost then 1 else 0
  {
    forall id: nat | id >= next
      ensures multiset(freed)[id] == 0
    {
      assert id !in freed;
    }
  }
}
