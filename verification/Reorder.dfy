/** The bounded insertion-sorted queue of `src/index/reorder.c`. */
module Reorder {
  import opened Base
  import opened Format

  /** A packet handle: metadata and the payload lease it owns, if any. */
  datatype PacketRef = PacketRef(info: PacketInfo, lease: Option<nat>)

  const EMPTY := PacketRef(PacketInfo(0, 0, 0, 0, 0, 0, 0, []), None)

  datatype Item = Item(packet: PacketRef, epoch: u64)

  /** Strictly before, by epoch, presentation time, decode time and sequence number. */
  predicate Less(a: Item, b: Item) {
    if a.epoch != b.epoch then a.epoch < b.epoch
    else if a.packet.info.pts != b.packet.info.pts then a.packet.info.pts < b.packet.info.pts
    else if a.packet.info.dts != b.packet.info.dts then a.packet.info.dts < b.packet.info.dts
    else a.packet.info.packetSeq < b.packet.info.packetSeq
  }

  /** The order on fields: epoch first, then presentation time, then decode time, then sequence number. */
  predicate NotAfter(a: Item, b: Item) {
    var p, q := a.packet.info, b.packet.info;
    && a.epoch <= b.epoch
    && (a.epoch == b.epoch ==> p.pts <= q.pts)
    && (a.epoch == b.epoch && p.pts == q.pts ==> p.dts <= q.dts)
    && (a.epoch == b.epoch && p.pts == q.pts && p.dts == q.dts ==> p.packetSeq <= q.packetSeq)
  }

  /** The comparison puts `b` strictly first exactly when the fields do. */
  lemma LessByFields(a: Item, b: Item)
    ensures Less(b, a) <==> !NotAfter(a, b)
  {}

  predicate Sorted(q: seq<Item>) { forall i, j :: 0 <= i < j < |q| ==> !Less(q[j], q[i]) }

  /** `k` is where the backward scan stops: everything from `k` on is greater, the item before is not. */
  predicate InsertsAt(q: seq<Item>, x: Item, k: nat) {
    k <= |q| && (forall i :: k <= i < |q| ==> Less(x, q[i])) && (k > 0 ==> !Less(x, q[k - 1]))
  }

  function InsertPos(q: seq<Item>, x: Item): (k: nat)
    ensures InsertsAt(q, x, k)
  {
    if q == [] || !Less(x, q[|q| - 1]) then |q| else InsertPos(q[..|q| - 1], x)
  }

  function Insert(q: seq<Item>, x: Item): seq<Item> {
    var k := InsertPos(q, x);
    q[..k] + [x] + q[k..]
  }

  lemma InsertPosUnique(q: seq<Item>, x: Item, k: nat)
    requires InsertsAt(q, x, k)
    ensures k == InsertPos(q, x)
  {}

  /** The caller's packet variable. */
  class Cell {
    var packet: PacketRef

    constructor ()
      ensures packet == EMPTY
    {
      packet := EMPTY;
    }
  }

  /** Shifts greater items up one slot from the end, then writes `x` into the gap. */
  method InsertInPlace(items: array<Item>, count: nat, x: Item)
    requires count < items.Length
    modifies items
    ensures items[..count + 1] == Insert(old(items[..count]), x)
  {
    hide Less, InsertPos;
    ghost var q := items[..count];
    var pos := count;
    while pos > 0 && Less(x, items[pos - 1])
      invariant 0 <= pos <= count
      invariant forall i :: 0 <= i < pos ==> items[i] == q[i]
      invariant forall i :: pos < i <= count ==> items[i] == q[i - 1]
      invariant forall i :: pos <= i < count ==> Less(x, q[i])
    {
      items[pos] := items[pos - 1];
      pos := pos - 1;
    }
    InsertPosUnique(q, x, pos);
    items[pos] := x;
    Spliced(items[..count + 1], q, x, pos);
  }

  lemma Spliced(r: seq<Item>, q: seq<Item>, x: Item, k: nat)
    requires k <= |q| && |r| == |q| + 1 && r[k] == x
    requires forall i :: 0 <= i < k ==> r[i] == q[i]
    requires forall i :: k < i < |r| ==> r[i] == q[i - 1]
    ensures r == q[..k] + [x] + q[k..]
  {}

  /** Moves every item after the first down one slot. */
  method ShiftDown(items: array<Item>, count: nat)
    requires 0 < count <= items.Length
    modifies items
    ensures items[..count - 1] == old(items[1..count])
  {
    ghost var q := items[1..count];
    for i := 1 to count
      invariant forall j :: 0 <= j < i - 1 ==> items[j] == q[j]
      invariant forall j :: i <= j < count ==> items[j] == q[j - 1]
    {
      items[i - 1] := items[i];
    }
    assert items[..count - 1] == q;
  }

  lemma TailSorted(q: seq<Item>)
    requires Sorted(q) && q != []
    ensures Sorted(q[1..])
  {}

  lemma HeadIsLeast(q: seq<Item>)
    requires Sorted(q) && q != []
    ensures forall j :: 0 <= j < |q| ==> NotAfter(q[0], q[j])
  {
    hide Less, NotAfter;
    forall j | 0 <= j < |q|
      ensures NotAfter(q[0], q[j])
    {
      LessByFields(q[0], q[j]);
      if j == 0 { LessIsStrictWeakOrder(q[0], q[0], q[0]); }
    }
  }

  class ReorderQueue {
    const limit: nat
    var items: array<Item>
    var count: nat

    ghost predicate Valid()
      reads this, items
    {
      count <= items.Length <= limit && Sorted(items[..count])
    }

    ghost function Contents(): seq<Item>
      reads this, items
      requires count <= items.Length
    {
      items[..count]
    }

    constructor (limit: nat)
      ensures Valid() && this.limit == limit && Contents() == [] && fresh(items)
    {
      this.limit := limit;
      items := new Item[0];
      count := 0;
    }

    /** Doubles the capacity, up to the limit, keeping the items. */
    method Grow()
      requires Valid() && count == items.Length < limit
      modifies this`items
      ensures Valid() && fresh(items) && count < items.Length && Contents() == old(Contents())
    {
      var next := if items.Length == 0 then 8 else items.Length * 2;
      if next > limit { next := limit; }
      var old_ := items;
      items := new Item[next](i requires 0 <= i reads old_ => if i < old_.Length then old_[i] else Item(EMPTY, 0));
      assert items[..count] == old_[..count];
    }

    method Push(packet: Cell, epoch: u64) returns (status: Status)
      requires Valid()
      modifies this, items, packet
      ensures Valid() && (items == old(items) || fresh(items))
      ensures status == if old(count) >= limit then RESOURCE else OK
      ensures status == OK ==> Contents() == Insert(old(Contents()), Item(old(packet.packet), epoch))
                               && packet.packet == EMPTY
      ensures status != OK ==> Contents() == old(Contents()) && packet.packet == old(packet.packet)
    {
      hide Less, Insert;
      if count >= limit { return RESOURCE; }
      if count == items.Length { Grow(); }
      InsertSorted(items[..count], Item(packet.packet, epoch));
      InsertInPlace(items, count, Item(packet.packet, epoch));
      packet.packet := EMPTY;
      count := count + 1;
      return OK;
    }

    /** Moves the least packet out and shifts the rest down; the slot past the end keeps a stale copy. */
    method PopReady(out: Cell) returns (status: Status)
      requires Valid()
      modifies this`count, items, out
      ensures Valid() && items == old(items)
      ensures status == if old(count) == 0 then WOULD_BLOCK else OK
      ensures status == OK ==> out.packet == old(Contents())[0].packet && Contents() == old(Contents())[1..]
      ensures status == OK ==> forall j :: 0 <= j < old(count) ==> NotAfter(old(Contents())[0], old(Contents())[j])
      ensures status != OK ==> out.packet == old(out.packet) && Contents() == old(Contents())
    {
      hide Sorted, NotAfter;
      if count == 0 { return WOULD_BLOCK; }
      ghost var q := Contents();
      out.packet := items[0].packet;
      items[0] := items[0].(packet := EMPTY);
      assert items[1..count] == q[1..];
      ShiftDown(items, count);
      count := count - 1;
      TailSorted(q);
      HeadIsLeast(q);
      return OK;
    }
  }

  /** `tide_reorder_queue_init`; a zero limit is refused. */
  method InitQueue(limit: nat) returns (status: Status, queue: ReorderQueue)
    ensures status == if limit == 0 then INVALID_ARGUMENT else OK
    ensures fresh(queue) && fresh(queue.items) && queue.Valid() && queue.limit == limit && queue.Contents() == []
  {
    queue := new ReorderQueue(limit);
    status := if limit == 0 then INVALID_ARGUMENT else OK;
  }

  // ----- order

  lemma LessIsStrictWeakOrder(a: Item, b: Item, c: Item)
    ensures Less(a, b) ==> !Less(b, a)
    ensures Less(a, b) && Less(b, c) ==> Less(a, c)
    ensures !Less(a, b) && !Less(b, c) ==> !Less(a, c)
  {}

  lemma InsertSorted(q: seq<Item>, x: Item)
    requires Sorted(q)
    ensures Sorted(Insert(q, x))
  {
    hide Less;
    var k, r := InsertPos(q, x), Insert(q, x);
    forall i, j | 0 <= i < j < |r|
      ensures !Less(r[j], r[i])
    {
      if j == k && 0 < k { LessIsStrictWeakOrder(x, q[k - 1], r[i]); if i < k - 1 { assert !Less(q[k - 1], q[i]); } }
      if i == k { LessIsStrictWeakOrder(x, r[j], x); }
    }
  }
}
