/** The blocking FIFO: a std::queue behind one mutex and one condition
    variable. Run sequentially it is a plain first-in first-out sequence; a
    blocking pop needs an element to be there, and a timed pop that finds none
    times out. The ring queues' contracts keep the same first-in first-out
    discipline over their own sequence of contents. */
module BlockingQueue {

  class ConcurrentQueue<T> {
    var items: seq<T>

    constructor ()
      ensures items == []
    {
      items := [];
    }

    /** Both push overloads (copy and move): append at the back. */
    method Push(x: T)
      modifies this
      ensures items == old(items) + [x]
      ensures |items| == |old(items)| + 1
    {
      items := items + [x];
    }

    /** Blocking pop: the caller waits until an element is there, then takes the front one. */
    method Pop() returns (x: T)
      requires items != []
      modifies this
      ensures x == old(items)[0] && items == old(items)[1..]
      ensures [x] + items == old(items)
    {
      x := items[0];
      items := items[1..];
    }

    /** Timed pop: with an element there, take the front one; otherwise the
        wait times out and both the queue and data are left as they were. */
    method TimedPop(data: T, timeoutMs: int) returns (ok: bool, out: T)
      modifies this
      ensures ok <==> old(items) != []
      ensures ok ==> out == old(items)[0] && items == old(items)[1..]
      ensures !ok ==> out == data && items == old(items)
    {
      var ready := items != [];
      if ready {
        out := items[0];
        items := items[1..];
        return true, out;
      }
      return false, data;
    }

    method IsEmpty() returns (e: bool)
      ensures e <==> |items| == 0
    {
      e := items == [];
    }

    method Size() returns (n: nat)
      ensures n == |items|
    {
      n := |items|;
    }
  }

  /** Pushes into an empty queue followed by as many pops hand the elements
      back in push order. */
  method FillThenDrain<T>(q: ConcurrentQueue<T>, xs: seq<T>) returns (outs: seq<T>)
    requires q.items == []
    modifies q
    ensures q.items == []
    ensures outs == xs
  {
    var i := 0;
    while i < |xs|
      invariant 0 <= i <= |xs|
      invariant q.items == xs[..i]
    {
      q.Push(xs[i]);
      assert xs[..i + 1] == xs[..i] + [xs[i]];
      i := i + 1;
    }
    outs := [];
    i := 0;
    while i < |xs|
      invariant 0 <= i <= |xs|
      invariant q.items == xs[i..]
      invariant outs == xs[..i]
    {
      var v := q.Pop();
      assert xs[i..][1..] == xs[i + 1..];
      outs := outs + [v];
      i := i + 1;
    }
  }

}
