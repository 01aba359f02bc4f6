/** The in-process bounded ring queue: N preallocated slots, head and tail
    counters that only grow, and a push that refuses once N - 1 elements are
    queued. The counter-to-slot map is computed in uint64 arithmetic as
    ((c - 1) mod 2^64) mod N. Each atomic load, compare-and-swap or store is
    one sequential step here. */
module LockFree {
  import RingArith

  /** The template's default capacity. */
  const DefaultCapacity: nat := 10000

  /** Return codes of push and pop. */
  const Success: int := 0
  const Full: int := -1
  const Empty: int := -1

  /** One slot: the readiness flag (0 free, 1 populated) and the payload. */
  datatype Block<T> = Block(writeFin: int, data: T) {

    /** A slot is readable once its flag holds 1, the value SetData stores. */
    predicate Readable()
      ensures Readable() <==> writeFin == 1
    {
      writeFin == 1
    }

    /** Copy the payload in, then publish it by setting the flag. */
    function SetData(x: T): (r: Block<T>)
      ensures r.Readable() && r.data == x
    {
      Block(1, x)
    }

    /** Clear the flag, then copy the payload out. */
    function GetData(): (r: (Block<T>, T))
      ensures !r.0.Readable() && r.0.data == data && r.1 == data
    {
      (this.(writeFin := 0), data)
    }
  }

  /** The slot both push and pop use for counter c: get_idx(c - 1), where the
      subtraction wraps around at 2^64. */
  function Slot(n: nat, c: nat): (s: nat)
    requires n > 0
    ensures s < n
    ensures c >= 1 && c - 1 < RingArith.TWO64 ==> s == (c - 1) % n
  {
    ((c - 1) % RingArith.TWO64) % n
  }

  /** Capacities for which the slot map never gives two live counters the same
      slot: those that divide 2^64 (and the degenerate capacity 0, which
      accepts no push). */
  predicate SlotMapSound(n: nat)
  {
    n == 0 || RingArith.TWO64 % n == 0
  }

  /** For such a capacity the map is a plain rotation: counter c goes to (c - 1) mod N. */
  lemma {:induction false} SlotRotates(n: nat, c: nat)
    requires n > 0 && SlotMapSound(n)
    ensures Slot(n, c) == (c - 1) % n
  {
    var k := RingArith.TWO64 / n;
    assert n * k == RingArith.TWO64;
    RingArith.ModModMultiple(c - 1, n, k);
  }

  /** For such a capacity, counters fewer than N apart occupy different slots. */
  lemma {:induction false} SlotsDistinct(n: nat, c1: nat, c2: nat)
    requires n > 0 && SlotMapSound(n) && c1 < c2 < c1 + n
    ensures Slot(n, c1) != Slot(n, c2)
  {
    SlotRotates(n, c1);
    SlotRotates(n, c2);
    RingArith.ModWindowDistinct(c1 - 1, c2 - 1, n);
  }

  /** Whenever (2^64 - 1) mod N <= N - 3, the very first counter shares its
      slot with counter (2^64 - 1) mod N + 1, and the two are queued together
      as soon as that many more pushes have succeeded: the window holds at
      most N - 1 counters. */
  lemma {:induction false} FirstWindowClash(n: nat)
    requires n > 0 && (RingArith.TWO64 - 1) % n + 3 <= n
    ensures var k := (RingArith.TWO64 - 1) % n + 1;
            k + 1 <= n - 1 && Slot(n, 0) == Slot(n, k)
  {
    var top := RingArith.TWO64 - 1;
    var r := top % n;
    RingArith.ModUnique(0 - 1, RingArith.TWO64, -1, top);
    assert Slot(n, 0) == r;
    assert r <= top by {
      RingArith.ModUnique(top, n, top / n, r);
      RingArith.MulAwayFromZero(top / n, n);
    }
    RingArith.ModUnique(r, RingArith.TWO64, 0, r);
    RingArith.ModUnique(r, n, 0, r);
    assert Slot(n, r + 1) == r;
  }

  /** With the default capacity 10000, counters 0 and 1616 both land in slot
      1615 and are both queued after 1617 pushes into a new queue. */
  lemma DefaultCapacityClash()
    ensures !SlotMapSound(DefaultCapacity)
    ensures Slot(DefaultCapacity, 0) == Slot(DefaultCapacity, 1616) == 1615
    ensures 1616 + 1 <= DefaultCapacity - 1
  {
    FirstWindowClash(DefaultCapacity);
  }

  /** Every live counter's slot holds a published payload. */
  ghost predicate LiveReadable<T>(blocks: seq<Block<T>>, head: nat, tail: nat)
    requires tail - head < |blocks| || head == tail
  {
    forall c :: head <= c < tail ==> blocks[Slot(|blocks|, c)].Readable()
  }

  /** The queue's contents, oldest first. */
  function Window<T>(blocks: seq<Block<T>>, head: nat, tail: nat): (w: seq<T>)
    requires head <= tail && (head == tail || tail - head < |blocks|)
    ensures |w| == tail - head
  {
    seq(tail - head, i requires 0 <= i < tail - head => blocks[Slot(|blocks|, head + i)].data)
  }

  /** Publishing x in the tail counter's slot appends x and keeps every live slot readable. */
  lemma {:induction false} WindowAfterPush<T>(blocks: seq<Block<T>>, head: nat, tail: nat, x: T)
    requires SlotMapSound(|blocks|) && head <= tail && tail + 1 - head < |blocks|
    requires LiveReadable(blocks, head, tail)
    ensures var k := Slot(|blocks|, tail);
            var b' := blocks[k := blocks[k].SetData(x)];
            LiveReadable(b', head, tail + 1) && Window(b', head, tail + 1) == Window(blocks, head, tail) + [x]
  {
    var n := |blocks|;
    var k := Slot(n, tail);
    var b' := blocks[k := blocks[k].SetData(x)];
    forall c | head <= c < tail
      ensures Slot(n, c) != k
    {
      SlotsDistinct(n, c, tail);
    }
    var w, w' := Window(blocks, head, tail), Window(b', head, tail + 1);
    forall i | 0 <= i < tail - head
      ensures w'[i] == w[i]
    {
      assert Slot(n, head + i) != k;
    }
    assert w'[tail - head] == b'[Slot(n, head + (tail - head))].data;
    assert head + (tail - head) == tail;
    assert w' == w + [x];
  }

  /** Consuming the head counter's slot removes the oldest element. */
  lemma {:induction false} WindowAfterPop<T>(blocks: seq<Block<T>>, head: nat, tail: nat)
    requires SlotMapSound(|blocks|) && head < tail && tail - head < |blocks|
    requires LiveReadable(blocks, head, tail)
    ensures var k := Slot(|blocks|, head);
            var b' := blocks[k := blocks[k].GetData().0];
            && LiveReadable(b', head + 1, tail)
            && Window(b', head + 1, tail) == Window(blocks, head, tail)[1..]
            && Window(blocks, head, tail)[0] == blocks[k].data
  {
    var n := |blocks|;
    var k := Slot(n, head);
    var b' := blocks[k := blocks[k].GetData().0];
    forall c | head + 1 <= c < tail
      ensures Slot(n, c) != k
    {
      SlotsDistinct(n, head, c);
    }
    var w, w' := Window(blocks, head, tail), Window(b', head + 1, tail);
    forall i | 0 <= i < tail - head - 1
      ensures w'[i] == w[i + 1]
    {
      assert w'[i] == b'[Slot(n, head + 1 + i)].data;
      assert w[i + 1] == blocks[Slot(n, head + (i + 1))].data;
      assert head + (i + 1) == head + 1 + i;
    }
    assert w' == w[1..];
    assert w[0] == blocks[Slot(n, head + 0)].data;
  }

  class LockfreeQueue<T> {
    const maxCnt: nat
    var head: nat
    var tail: nat
    const blocks: array<Block<T>>

    ghost predicate Valid()
      reads this, blocks
    {
      && blocks.Length == maxCnt
      && SlotMapSound(maxCnt)
      && head <= tail && (head == tail || tail - head < maxCnt)
      && LiveReadable(blocks[..], head, tail)
    }

    ghost function Contents(): seq<T>
      reads this, blocks
      requires Valid()
    {
      Window(blocks[..], head, tail)
    }

    /** A new queue of capacity n: both counters zero, every flag clear.
        The capacity must be one for which the slot map is sound. */
    constructor (n: nat, zero: T)
      requires SlotMapSound(n)
      ensures Valid() && fresh(blocks)
      ensures maxCnt == n && head == 0 && tail == 0 && Contents() == []
      ensures forall s :: 0 <= s < n ==> !blocks[s].Readable()
    {
      maxCnt := n;
      head, tail := 0, 0;
      blocks := new Block<T>[n](_ => Block(0, zero));
    }

    /** Number of queued elements. */
    method Size() returns (n: nat)
      requires Valid()
      ensures n == |Contents()| && n == tail - head
    {
      n := RingArith.UsedCnt(head, tail);
    }

    /** Push: Full (and nothing changes) when N - 1 elements are queued
        already; otherwise reserve the tail counter and publish x in its slot. */
    method Push(x: T) returns (rc: int)
      requires Valid()
      modifies this, blocks
      ensures Valid()
      ensures rc == Success || rc == Full
      ensures rc == Full <==> |old(Contents())| + 2 > maxCnt
      ensures rc == Full ==> head == old(head) && tail == old(tail) && blocks[..] == old(blocks[..])
      ensures rc == Success ==>
        && head == old(head) && tail == old(tail) + 1
        && blocks[..] == old(blocks[..])[Slot(maxCnt, old(tail)) := Block(1, x)]
        && Contents() == old(Contents()) + [x]
    {
      var t := tail;
      var h := head;
      var cnt := RingArith.UsedCnt(h, t + 1);
      if cnt + 1 > maxCnt {
        return Full;
      }
      // the compare-and-swap on m_tail, which succeeds when nothing runs concurrently
      tail := t + 1;
      var idx := Slot(maxCnt, t);
      WindowAfterPush(blocks[..], h, t, x);
      blocks[idx] := blocks[idx].SetData(x);
      rc := Success;
    }

    /** Pop: Empty (nothing changes, data is returned as given) when head
        meets tail; otherwise claim the head counter and take its slot's
        payload, clearing the flag. */
    method Pop(data: T) returns (rc: int, out: T)
      requires Valid()
      modifies this, blocks
      ensures Valid()
      ensures rc == Success || rc == Empty
      ensures rc == Empty <==> old(Contents()) == []
      ensures rc == Empty ==> out == data && head == old(head) && tail == old(tail) && blocks[..] == old(blocks[..])
      ensures rc == Success ==>
        && head == old(head) + 1 && tail == old(tail)
        && blocks[..] == old(blocks[..])[Slot(maxCnt, old(head)) := old(blocks[Slot(maxCnt, head)]).(writeFin := 0)]
        && out == old(Contents())[0]
        && Contents() == old(Contents())[1..]
    {
      var h := head;
      var t := tail;
      var cnt := RingArith.UsedCnt(h, t);
      if cnt == 0 {
        return Empty, data;
      }
      // the compare-and-swap on m_head, which succeeds when nothing runs concurrently
      head := h + 1;
      var idx := Slot(maxCnt, h);
      WindowAfterPop(blocks[..], h, t);
      // the spin on Readable() exits at once: the push that reserved this counter has published it
      assert blocks[idx].Readable();
      var taken := blocks[idx].GetData();
      blocks[idx] := taken.0;
      rc, out := Success, taken.1;
    }
  }

  /** Up to N - 1 pushes into an empty queue, followed by as many pops, hand
      the elements back in push order. */
  method FillThenDrain<T>(q: LockfreeQueue<T>, xs: seq<T>, d: T) returns (outs: seq<T>)
    requires q.Valid() && q.Contents() == [] && |xs| < q.maxCnt
    modifies q, q.blocks
    ensures q.Valid() && q.Contents() == []
    ensures outs == xs
  {
    var i := 0;
    while i < |xs|
      invariant 0 <= i <= |xs|
      invariant q.Valid() && q.Contents() == xs[..i]
    {
      var rc := q.Push(xs[i]);
      assert xs[..i + 1] == xs[..i] + [xs[i]];
      i := i + 1;
    }
    outs := [];
    i := 0;
    while i < |xs|
      invariant 0 <= i <= |xs|
      invariant q.Valid() && q.Contents() == xs[i..]
      invariant outs == xs[..i]
    {
      var rc, v := q.Pop(d);
      assert xs[i..][1..] == xs[i + 1..];
      outs := outs + [v];
      i := i + 1;
    }
  }

}
