/** The cross-process bounded ring queue: a header (total size, capacity,
    head, tail) followed by a flat array of slots, all in one shared memory
    segment. Head and tail are counters that only grow; counter c lives in
    slot c mod capacity. Each atomic load, compare-and-swap or store is one
    sequential step here. */
module SharedLockFree {
  import opened Wrappers
  import RingArith

  /** Bytes taken by the header: four uint64 fields in a char[32] union. */
  const HeaderSize: nat := 32
  /** How many times GetData checks a slot's flag before giving it up. */
  const RetryLimit: nat := 5

  /** Return codes of AddData and GetData. */
  const Success: int := 0
  const Full: int := -1
  const Empty: int := -1
  const Dropped: int := -2

  /** One slot: the readiness flag (0 reserved or consumed, 1 populated) and the payload. */
  datatype Block<T> = Block(writeFin: int, data: T) {

    /** A slot is readable once its flag holds 1, the value SetData stores. */
    predicate IsReadable()
      ensures IsReadable() <==> writeFin == 1
    {
      writeFin == 1
    }

    /** Copy the payload in, then publish it by setting the flag. */
    function SetData(x: T): (r: Block<T>)
      ensures r.IsReadable() && r.data == x
    {
      Block(1, x)
    }

    /** Clear the flag, then hand out the payload. */
    function GetData(): (r: (Block<T>, T))
      ensures !r.0.IsReadable() && r.0.data == data && r.1 == data
    {
      (this.(writeFin := 0), data)
    }
  }

  /** Bytes a queue of maxCnt slots of blockSize bytes occupies in the segment. */
  function TotalSize(maxCnt: nat, blockSize: nat): (r: nat)
    ensures r >= HeaderSize
  {
    HeaderSize + blockSize * maxCnt
  }

  /** The slot of counter idx. */
  function GetIdx(idx: nat, maxCnt: nat): (r: nat)
    requires maxCnt > 0
    ensures r < maxCnt
    ensures idx < maxCnt ==> r == idx
  {
    idx % maxCnt
  }

  /** What a reader finds in a slot: the payload if it was published, nothing otherwise. */
  function Elem<T>(b: Block<T>): Option<T>
  {
    if b.IsReadable() then Some(b.data) else None
  }

  function Somes<T>(xs: seq<T>): (r: seq<Option<T>>)
    ensures |r| == |xs|
    ensures forall i :: 0 <= i < |xs| ==> r[i] == Some(xs[i])
  {
    seq(|xs|, i requires 0 <= i < |xs| => Some(xs[i]))
  }

  /** The ring invariant on a slot array: at most |blocks| elements are queued
      and every slot no live counter owns has a clear flag. */
  ghost predicate RingInv<T>(blocks: seq<Block<T>>, head: nat, tail: nat)
  {
    && head <= tail <= head + |blocks|
    && forall c :: tail <= c < head + |blocks| ==> blocks[GetIdx(c, |blocks|)].writeFin == 0
  }

  /** The queue's contents, oldest first: what a reader would take from each
      live counter, None where the writer never published. */
  function Window<T>(blocks: seq<Block<T>>, head: nat, tail: nat): (w: seq<Option<T>>)
    requires head <= tail <= head + |blocks|
    ensures |w| == tail - head
  {
    seq(tail - head, i requires 0 <= i < tail - head => Elem(blocks[GetIdx(head + i, |blocks|)]))
  }

  /** Publishing x in the slot of the tail counter appends x to the contents. */
  lemma {:induction false} WindowAfterSet<T>(blocks: seq<Block<T>>, head: nat, tail: nat, x: T)
    requires RingInv(blocks, head, tail) && tail < head + |blocks|
    ensures var k := GetIdx(tail, |blocks|);
            var b' := blocks[k := blocks[k].SetData(x)];
            RingInv(b', head, tail + 1) && Window(b', head, tail + 1) == Window(blocks, head, tail) + [Some(x)]
  {
    var m := |blocks|;
    var k := GetIdx(tail, m);
    var b' := blocks[k := blocks[k].SetData(x)];
    forall c | tail + 1 <= c < head + m
      ensures b'[GetIdx(c, m)].writeFin == 0
    {
      RingArith.ModWindowDistinct(tail, c, m);
    }
    var w, w' := Window(blocks, head, tail), Window(b', head, tail + 1);
    forall i | 0 <= i < tail - head
      ensures w'[i] == w[i]
    {
      RingArith.ModWindowDistinct(head + i, tail, m);
      assert GetIdx(head + i, m) != k;
      assert w'[i] == Elem(b'[GetIdx(head + i, m)]);
    }
    assert w'[tail - head] == Elem(b'[GetIdx(head + (tail - head), m)]);
    assert head + (tail - head) == tail;
    assert w' == w + [Some(x)];
  }

  /** A writer that dies after reserving the tail counter appends a lost element. */
  lemma {:induction false} WindowAfterReserve<T>(blocks: seq<Block<T>>, head: nat, tail: nat)
    requires RingInv(blocks, head, tail) && tail < head + |blocks|
    ensures RingInv(blocks, head, tail + 1)
    ensures Window(blocks, head, tail + 1) == Window(blocks, head, tail) + [None]
  {
    var w, w' := Window(blocks, head, tail), Window(blocks, head, tail + 1);
    var m := |blocks|;
    assert blocks[GetIdx(tail, m)].writeFin == 0;
    assert w'[tail - head] == Elem(blocks[GetIdx(head + (tail - head), m)]);
    assert head + (tail - head) == tail;
    assert w'[tail - head] == None;
    assert w' == w + [None];
  }

  /** Consuming the head counter's slot removes the oldest element and frees the slot. */
  lemma {:induction false} WindowAfterConsume<T>(blocks: seq<Block<T>>, head: nat, tail: nat)
    requires RingInv(blocks, head, tail) && head < tail
    ensures var k := GetIdx(head, |blocks|);
            var b' := blocks[k := blocks[k].GetData().0];
            RingInv(b', head + 1, tail) && Window(b', head + 1, tail) == Window(blocks, head, tail)[1..]
  {
    var m := |blocks|;
    var k := GetIdx(head, m);
    var b' := blocks[k := blocks[k].GetData().0];
    forall c | tail <= c < head + 1 + m
      ensures b'[GetIdx(c, m)].writeFin == 0
    {
      if c == head + m {
        RingArith.ModAddMultiple(1, m, head);
      }
    }
    var w, w' := Window(blocks, head, tail), Window(b', head + 1, tail);
    forall i | 0 <= i < tail - head - 1
      ensures w'[i] == w[i + 1]
    {
      RingArith.ModWindowDistinct(head, head + 1 + i, m);
      assert w'[i] == Elem(b'[GetIdx(head + 1 + i, m)]);
      assert w[i + 1] == Elem(blocks[GetIdx(head + (i + 1), m)]);
      assert head + (i + 1) == head + 1 + i;
    }
    assert w' == w[1..];
  }

  /** The slot array after a batch writer published xs at the counters from tail on. */
  function WriteBatch<T>(blocks: seq<Block<T>>, tail: nat, xs: seq<T>): (r: seq<Block<T>>)
    requires xs == [] || |blocks| > 0
    ensures |r| == |blocks|
    decreases |xs|
  {
    if xs == [] then blocks
    else
      var last := |xs| - 1;
      var b := WriteBatch(blocks, tail, xs[..last]);
      var k := GetIdx(tail + last, |blocks|);
      b[k := b[k].SetData(xs[last])]
  }

  /** A batch written at the tail counters appends the whole batch, in order. */
  lemma {:induction false} WindowAfterBatch<T>(blocks: seq<Block<T>>, head: nat, tail: nat, xs: seq<T>)
    requires RingInv(blocks, head, tail) && tail + |xs| <= head + |blocks|
    ensures RingInv(WriteBatch(blocks, tail, xs), head, tail + |xs|)
    ensures Window(WriteBatch(blocks, tail, xs), head, tail + |xs|) == Window(blocks, head, tail) + Somes(xs)
    decreases |xs|
  {
    if xs != [] {
      var last := |xs| - 1;
      WindowAfterBatch(blocks, head, tail, xs[..last]);
      WindowAfterSet(WriteBatch(blocks, tail, xs[..last]), head, tail + last, xs[last]);
      assert Somes(xs) == Somes(xs[..last]) + [Some(xs[last])];
    }
  }

  /** The slot AddData(vector) writes its i-th element to, as the source computes
      it: the tail's slot plus i, with no further reduction. */
  function BatchSlotAsWritten(tail: nat, i: nat, maxCnt: nat): (r: nat)
    requires maxCnt > 0
    ensures i <= r < maxCnt + i
    ensures tail < maxCnt ==> r == tail + i
  {
    GetIdx(tail, maxCnt) + i
  }

  /** Wherever the source's batch index stays inside the ring, it is the slot
      of counter tail + i, which is what the model writes. */
  lemma {:induction false} BatchSlotAgrees(tail: nat, i: nat, maxCnt: nat)
    requires maxCnt > 0 && BatchSlotAsWritten(tail, i, maxCnt) < maxCnt
    ensures BatchSlotAsWritten(tail, i, maxCnt) == GetIdx(tail + i, maxCnt)
  {
    var r := tail % maxCnt;
    assert tail + i == (tail / maxCnt) * maxCnt + (r + i);
    RingArith.ModUnique(tail + i, maxCnt, tail / maxCnt, r + i);
  }

  /** A batch that straddles the end of the ring passes the capacity check and
      still asks for a slot past the array: with 4 slots, head == tail == 3 and
      two elements, the second goes to index 4. */
  lemma BatchSlotAsWrittenOverruns()
    ensures var head, tail, cnt, maxCnt := 3, 3, 2, 4;
            RingArith.UsedCnt(head, tail) + cnt <= maxCnt && BatchSlotAsWritten(tail, cnt - 1, maxCnt) >= maxCnt
  {
  }

  /** The publishing loop of AddData(vector): element i goes to the slot of
      counter tail + i. The source writes slot GetIdx(tail) + i instead; see
      BatchSlotAsWritten. */
  method PublishBatch<T>(blocks: array<Block<T>>, tail: nat, xs: seq<T>)
    requires xs == [] || blocks.Length > 0
    modifies blocks
    ensures blocks[..] == WriteBatch(old(blocks[..]), tail, xs)
  {
    var i := 0;
    while i < |xs|
      invariant 0 <= i <= |xs|
      invariant blocks[..] == WriteBatch(old(blocks[..]), tail, xs[..i])
    {
      var idx := GetIdx(tail + i, blocks.Length);
      assert xs[..i + 1][..i] == xs[..i];
      blocks[idx] := blocks[idx].SetData(xs[i]);
      i := i + 1;
    }
    assert xs[..|xs|] == xs;
  }

  /** The segment's header and slot array (struct Queue). */
  class Queue<T> {
    var memSize: nat
    var maxCnt: nat
    var head: nat
    var tail: nat
    const blocks: array<Block<T>>

    /** A segment as the shared memory collaborator creates it: every byte zero. */
    constructor Create(slots: nat, zero: T)
      ensures Zeroed() && blocks.Length == slots && fresh(blocks)
    {
      memSize, maxCnt, head, tail := 0, 0, 0, 0;
      blocks := new Block<T>[slots](_ => Block(0, zero));
    }

    ghost predicate Zeroed()
      reads this, blocks
    {
      && memSize == 0 && maxCnt == 0 && head == 0 && tail == 0
      && forall s :: 0 <= s < blocks.Length ==> blocks[s].writeFin == 0
    }

    /** Either untouched, or left by openers that keep the ring invariant. */
    ghost predicate Consistent()
      reads this, blocks
    {
      if memSize == 0 then Zeroed()
      else maxCnt == blocks.Length ==> RingInv(blocks[..], head, tail)
    }
  }

  /** One process's handle on a named queue. */
  class SharedLockFreeQueue<T> {
    const maxCnt: nat
    const blockSize: nat
    var queue: Queue?<T>
    ghost var Repr: set<object>

    /** The handle remembers its configuration; nothing is mapped until Init. */
    constructor (maxCnt: nat, blockSize: nat)
      ensures this.maxCnt == maxCnt && this.blockSize == blockSize
      ensures queue == null && Repr == {this}
    {
      this.maxCnt := maxCnt;
      this.blockSize := blockSize;
      queue := null;
      Repr := {this};
    }

    ghost predicate Valid()
      reads this, Repr
    {
      && this in Repr && queue != null && queue in Repr && queue.blocks in Repr
      && queue.memSize == TotalSize(maxCnt, blockSize)
      && queue.maxCnt == maxCnt
      && queue.blocks.Length == maxCnt
      && RingInv(queue.blocks[..], queue.head, queue.tail)
    }

    ghost function Contents(): seq<Option<T>>
      reads this, Repr
      requires Valid()
    {
      Window(queue.blocks[..], queue.head, queue.tail)
    }

    /** Attach to the mapped segment q, which the collaborator sized for this
        handle's configuration. The first opener (size field 0) writes the
        header; every opener then checks the stored size and capacity, and a
        mismatch (a failed assertion in the source) is ok == false. */
    method Init(q: Queue<T>) returns (ok: bool)
      requires q.Consistent() && q.blocks.Length == maxCnt
      modifies this, q
      ensures queue == q && Repr == {this, q, q.blocks}
      ensures old(q.memSize) == 0 ==>
        q.memSize == TotalSize(maxCnt, blockSize) && q.maxCnt == maxCnt && q.head == 0 && q.tail == 0
      ensures old(q.memSize) != 0 ==>
        q.memSize == old(q.memSize) && q.maxCnt == old(q.maxCnt) && q.head == old(q.head) && q.tail == old(q.tail)
      ensures ok <==> q.memSize == TotalSize(maxCnt, blockSize) && q.maxCnt == maxCnt
      ensures ok ==> Valid()
      ensures ok && old(q.memSize) == 0 ==> Contents() == []
    {
      var totalSize := TotalSize(maxCnt, blockSize);
      queue := q;
      Repr := {this, q, q.blocks};
      if q.memSize == 0 {
        q.memSize := totalSize;
        q.maxCnt := maxCnt;
        q.head := 0;
        q.tail := 0;
      }
      ok := q.memSize == totalSize && q.maxCnt == maxCnt;
    }

    /** Push one element: Full (and nothing changes) when the ring holds
        capacity elements already; otherwise reserve the tail counter and
        publish x in its slot. */
    method AddData(x: T) returns (rc: int)
      requires Valid()
      modifies queue, queue.blocks
      ensures Valid()
      ensures rc == Success || rc == Full
      ensures rc == Full <==> |old(Contents())| + 1 > maxCnt
      ensures rc == Full ==>
        queue.head == old(queue.head) && queue.tail == old(queue.tail) && queue.blocks[..] == old(queue.blocks[..])
      ensures rc == Success ==>
        && queue.head == old(queue.head) && queue.tail == old(queue.tail) + 1
        && queue.blocks[..] == old(queue.blocks[..])[GetIdx(old(queue.tail), maxCnt) := Block(1, x)]
        && Contents() == old(Contents()) + [Some(x)]
    {
      var newTail := queue.tail;
      var head := queue.head;
      var usedCnt := RingArith.UsedCnt(head, newTail);
      if usedCnt + 1 > queue.maxCnt {
        return Full;
      }
      // the compare-and-swap on m_tail, which succeeds when nothing runs concurrently
      queue.tail := newTail + 1;
      var idx := GetIdx(newTail, maxCnt);
      WindowAfterSet(queue.blocks[..], head, newTail, x);
      queue.blocks[idx] := queue.blocks[idx].SetData(x);
      rc := Success;
    }

    /** A producer process that dies between its successful reservation and
        SetData: the tail counter advances and its slot stays unpublished. */
    method AddDataCrashed() returns (rc: int)
      requires Valid()
      modifies queue
      ensures Valid()
      ensures rc == Success || rc == Full
      ensures rc == Full <==> |old(Contents())| + 1 > maxCnt
      ensures rc == Full ==> queue.head == old(queue.head) && queue.tail == old(queue.tail)
      ensures rc == Success ==>
        && queue.head == old(queue.head) && queue.tail == old(queue.tail) + 1
        && Contents() == old(Contents()) + [None]
    {
      var newTail := queue.tail;
      var head := queue.head;
      var usedCnt := RingArith.UsedCnt(head, newTail);
      if usedCnt + 1 > queue.maxCnt {
        return Full;
      }
      WindowAfterReserve(queue.blocks[..], head, newTail);
      queue.tail := newTail + 1;
      rc := Success;
    }

    /** Push a batch: an empty batch succeeds at once; Full (and nothing
        changes) when the batch does not fit; otherwise reserve |xs| counters
        in one step and publish xs[i] in the slot of counter tail + i. */
    method AddDataBatch(xs: seq<T>) returns (rc: int)
      requires Valid()
      modifies queue, queue.blocks
      ensures Valid()
      ensures rc == Success || rc == Full
      ensures rc == Full <==> xs != [] && |old(Contents())| + |xs| > maxCnt
      ensures rc == Full || xs == [] ==>
        queue.head == old(queue.head) && queue.tail == old(queue.tail) && queue.blocks[..] == old(queue.blocks[..])
      ensures rc == Success && xs != [] ==>
        && queue.head == old(queue.head) && queue.tail == old(queue.tail) + |xs|
        && queue.blocks[..] == WriteBatch(old(queue.blocks[..]), old(queue.tail), xs)
      ensures rc == Success ==> Contents() == old(Contents()) + Somes(xs)
    {
      var cnt := |xs|;
      if cnt == 0 {
        assert Somes(xs) == [];
        return Success;
      }
      var newTail := queue.tail;
      var head := queue.head;
      var usedCnt := RingArith.UsedCnt(head, newTail);
      if usedCnt + cnt > queue.maxCnt {
        return Full;
      }
      queue.tail := newTail + cnt;
      ghost var before := queue.blocks[..];
      WindowAfterBatch(before, head, newTail, xs);
      PublishBatch(queue.blocks, newTail, xs);
      rc := Success;
    }

    /** Pop one element: Empty (nothing changes, data is returned as given)
        when head meets tail; otherwise claim the head counter, check its flag
        up to RetryLimit times, and either hand out the payload or, if it was
        never published, clear the slot and report Dropped. */
    method GetData(data: T) returns (rc: int, out: T)
      requires Valid()
      modifies queue, queue.blocks
      ensures Valid()
      ensures rc == Success || rc == Empty || rc == Dropped
      ensures rc == Empty <==> old(Contents()) == []
      ensures rc == Empty ==>
        && out == data && queue.head == old(queue.head) && queue.tail == old(queue.tail)
        && queue.blocks[..] == old(queue.blocks[..])
      ensures rc != Empty ==>
        && queue.head == old(queue.head) + 1 && queue.tail == old(queue.tail)
        && queue.blocks[..] == old(queue.blocks[..])[GetIdx(old(queue.head), maxCnt) := old(queue.blocks[GetIdx(queue.head, maxCnt)]).(writeFin := 0)]
        && Contents() == old(Contents())[1..]
      ensures rc == Success ==> old(Contents())[0] == Some(out)
      ensures rc == Dropped ==> old(Contents())[0] == None && out == data
    {
      var newHead := queue.head;
      var tail := queue.tail;
      var usedCnt := RingArith.UsedCnt(newHead, tail);
      if usedCnt == 0 {
        return Empty, data;
      }
      var idx := GetIdx(newHead, maxCnt);
      assert Contents()[0] == Elem(queue.blocks[GetIdx(newHead + 0, maxCnt)]);
      // the compare-and-swap on m_head, which succeeds when nothing runs concurrently
      queue.head := newHead + 1;
      WindowAfterConsume(queue.blocks[..], newHead, tail);
      var retryCnt := 0;
      while retryCnt < RetryLimit
        invariant 0 <= retryCnt <= RetryLimit
        invariant retryCnt > 0 ==> !queue.blocks[idx].IsReadable()
      {
        if !queue.blocks[idx].IsReadable() {
          retryCnt := retryCnt + 1;  // then sleep 100 ms
        } else {
          break;
        }
      }
      if retryCnt >= RetryLimit {
        var taken := queue.blocks[idx].GetData();
        queue.blocks[idx] := taken.0;
        rc, out := Dropped, data;
      } else {
        var taken := queue.blocks[idx].GetData();
        queue.blocks[idx] := taken.0;
        rc, out := Success, taken.1;
      }
    }
  }

  /** Up to capacity pushes into an empty queue, followed by as many pops,
      hand the elements back in push order. */
  method FillThenDrain<T>(q: SharedLockFreeQueue<T>, xs: seq<T>, d: T) returns (outs: seq<T>)
    requires q.Valid() && q.Contents() == [] && |xs| <= q.maxCnt
    modifies q.queue, q.queue.blocks
    ensures q.Valid() && q.Contents() == []
    ensures outs == xs
  {
    var i := 0;
    while i < |xs|
      invariant 0 <= i <= |xs|
      invariant q.Valid() && q.Contents() == Somes(xs[..i])
    {
      var rc := q.AddData(xs[i]);
      assert Somes(xs[..i + 1]) == Somes(xs[..i]) + [Some(xs[i])];
      i := i + 1;
    }
    outs := [];
    i := 0;
    while i < |xs|
      invariant 0 <= i <= |xs|
      invariant q.Valid() && q.Contents() == Somes(xs[i..])
      invariant outs == xs[..i]
    {
      var rc, v := q.GetData(d);
      assert Somes(xs[i..])[0] == Some(xs[i]);
      assert Somes(xs[i..])[1..] == Somes(xs[i + 1..]);
      outs := outs + [v];
      i := i + 1;
    }
  }

}
