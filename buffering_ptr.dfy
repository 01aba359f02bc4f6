/** The double-buffered holder and its reader/writer spin lock.

    The lock packs its state into one uint32 flag: the low 16 bits count
    shared holders and bit 16 marks an exclusive holder. Each compare-and-swap,
    fetch_sub or store is one sequential step; a ghost record of who holds the
    lock lets the model state mutual exclusion.

    The holder keeps two value slots and a read index. update writes the
    slot the index does not point at, under that slot's exclusive lock, and
    then flips the index; get reads the slot the index points at, under that
    slot's shared lock. */
module Buffering {
  import opened Wrappers

  /** Bit 16: set while a writer holds the lock. */
  const ExclusiveBit: nat := 0x1_0000
  /** 2^32, the modulus of the uint32 flag. */
  const TWO32: nat := 0x1_0000_0000

  /** Who holds a lock: how many readers, and whether a writer does. */
  datatype Holders = Holders(shared: nat, exclusive: bool)

  const Free: Holders := Holders(0, false)

  /** The flag value that records these holders. */
  function Encode(h: Holders): nat
  {
    if h.exclusive then ExclusiveBit + h.shared else h.shared
  }

  /** Mutual exclusion, and a shared count the flag can hold. */
  ghost predicate Sound(h: Holders)
  {
    (h.exclusive ==> h.shared == 0) && h.shared <= ExclusiveBit
  }

  /** How the flag reads when taken apart by its bit fields. */
  function Decode(flag: nat): Holders
  {
    Holders(flag % 0x1_0000, (flag / ExclusiveBit) % 2 == 1)
  }

  /** One attempt of shared_lock: compare-and-swap from flag & 0xFFFF to that plus one. */
  function SharedAttempt(flag: nat): (r: Option<nat>)
    ensures r.Some? <==> flag < 0x1_0000
    ensures r.Some? ==> r.value == flag + 1
  {
    var expected := flag % 0x1_0000;
    if flag == expected then Some(expected + 1) else None
  }

  /** One attempt of lock: compare-and-swap from 0 to the exclusive bit. */
  function ExclusiveAttempt(flag: nat): (r: Option<nat>)
    ensures r.Some? <==> flag == 0
    ensures r.Some? ==> r.value == ExclusiveBit
  {
    if flag == 0 then Some(ExclusiveBit) else None
  }

  /** shared_unlock: fetch_sub(1) on the uint32 flag. */
  function SharedRelease(flag: nat): (r: nat)
    ensures r < TWO32
    ensures 0 < flag <= TWO32 ==> r == flag - 1
    ensures flag == 0 ==> r == TWO32 - 1
  {
    (flag - 1) % TWO32
  }

  /** A shared attempt succeeds exactly when no writer holds the lock and the
      count has room, and then it records one more reader. */
  lemma SharedAttemptSpec(h: Holders)
    requires Sound(h)
    ensures SharedAttempt(Encode(h)).Some? <==> !h.exclusive && h.shared < ExclusiveBit
    ensures SharedAttempt(Encode(h)).Some? ==>
      SharedAttempt(Encode(h)).value == Encode(Holders(h.shared + 1, false)) && Sound(Holders(h.shared + 1, false))
  {
  }

  /** An exclusive attempt succeeds exactly when nobody holds the lock. */
  lemma ExclusiveAttemptSpec(h: Holders)
    requires Sound(h)
    ensures ExclusiveAttempt(Encode(h)).Some? <==> h == Free
    ensures ExclusiveAttempt(Encode(h)).Some? ==> ExclusiveAttempt(Encode(h)).value == Encode(Holders(0, true))
  {
  }

  /** Reading the flag by its bit fields gives the true holders exactly while
      fewer than 65536 readers hold the lock; the 65536th shared acquire
      carries into bit 16 and the flag then reads as a writer with no readers. */
  lemma DecodeFaithful(h: Holders)
    requires Sound(h)
    ensures Decode(Encode(h)) == h <==> h.shared < ExclusiveBit
  {
  }

  /** What a thread does to one lock. */
  datatype LockOp = AcquireShared | ReleaseShared | AcquireExclusive | ReleaseExclusive

  /** The flag and the holders after a sequence of lock operations from a new
      lock. An acquire whose compare-and-swap fails leaves everything as it
      was (that thread keeps spinning); only holders release. */
  function Run(ops: seq<LockOp>): (Holders, nat)
    decreases |ops|
  {
    if ops == [] then (Free, 0)
    else
      var (h, flag) := Run(ops[..|ops| - 1]);
      match ops[|ops| - 1]
      case AcquireShared =>
        (match SharedAttempt(flag)
         case Some(f) => (Holders(h.shared + 1, h.exclusive), f)
         case None => (h, flag))
      case ReleaseShared =>
        if h.shared > 0 then (Holders(h.shared - 1, h.exclusive), SharedRelease(flag)) else (h, flag)
      case AcquireExclusive =>
        (match ExclusiveAttempt(flag)
         case Some(f) => (Holders(h.shared, true), f)
         case None => (h, flag))
      case ReleaseExclusive =>
        if h.exclusive then (Holders(h.shared, false), 0) else (h, flag)
  }

  /** Whatever the operations, a writer never holds the lock together with a
      reader, and the flag always records the holders. */
  lemma {:induction false} MutualExclusion(ops: seq<LockOp>)
    ensures Sound(Run(ops).0) && Run(ops).1 == Encode(Run(ops).0)
    decreases |ops|
  {
    if ops != [] {
      var prefix := ops[..|ops| - 1];
      MutualExclusion(prefix);
      var (h, flag) := Run(prefix);
      SharedAttemptSpec(h);
      ExclusiveAttemptSpec(h);
    }
  }

  /** rw_spin_lock. */
  class RwSpinLock {
    var flag: nat
    ghost var holders: Holders

    ghost predicate Valid()
      reads this
    {
      flag < TWO32 && Sound(holders) && flag == Encode(holders)
    }

    constructor ()
      ensures Valid() && flag == 0 && holders == Free
    {
      flag := 0;
      holders := Free;
    }

    /** The copy constructor takes over the other lock's flag. */
    constructor Copy(other: RwSpinLock)
      requires other.Valid()
      ensures Valid() && flag == other.flag && holders == other.holders
    {
      flag := other.flag;
      holders := other.holders;
    }

    /** One pass of shared_lock's loop. */
    method TrySharedLock() returns (ok: bool)
      requires Valid()
      modifies this
      ensures Valid()
      ensures ok <==> !old(holders).exclusive && old(holders).shared < ExclusiveBit
      ensures ok ==> holders == Holders(old(holders).shared + 1, false) && flag == old(flag) + 1
      ensures !ok ==> holders == old(holders) && flag == old(flag)
    {
      var expected := flag % 0x1_0000;
      if flag == expected {
        flag := expected + 1;
        holders := Holders(holders.shared + 1, false);
        ok := true;
      } else {
        ok := false;
      }
    }

    /** shared_lock. Its retry loop spins until the attempt succeeds; run
        sequentially it can return only if no writer holds the lock and the
        count has room, and then the first attempt succeeds. */
    method SharedLock()
      requires Valid() && !holders.exclusive && holders.shared < ExclusiveBit
      modifies this
      ensures Valid()
      ensures holders == Holders(old(holders).shared + 1, false) && flag == old(flag) + 1
    {
      var ok := TrySharedLock();
      assert ok;
    }

    /** shared_unlock, by a reader that holds the lock. */
    method SharedUnlock()
      requires Valid() && holders.shared > 0
      modifies this
      ensures Valid()
      ensures holders == Holders(old(holders).shared - 1, false) && flag == old(flag) - 1
    {
      flag := SharedRelease(flag);
      holders := Holders(holders.shared - 1, false);
    }

    /** One pass of lock's loop. */
    method TryLock() returns (ok: bool)
      requires Valid()
      modifies this
      ensures Valid()
      ensures ok <==> old(holders) == Free
      ensures ok ==> holders == Holders(0, true) && flag == ExclusiveBit
      ensures !ok ==> holders == old(holders) && flag == old(flag)
    {
      if flag == 0 {
        flag := ExclusiveBit;
        holders := Holders(0, true);
        ok := true;
      } else {
        ok := false;
      }
    }

    /** lock. Its retry loop spins until the attempt succeeds; run
        sequentially it can return only if nobody holds the lock, and then the
        first attempt succeeds. */
    method Lock()
      requires Valid() && holders == Free
      modifies this
      ensures Valid() && holders == Holders(0, true) && flag == ExclusiveBit
    {
      var ok := TryLock();
      assert ok;
    }

    /** unlock, by the writer that holds the lock. */
    method Unlock()
      requires Valid() && holders.exclusive
      modifies this
      ensures Valid() && holders == Free && flag == 0
    {
      flag := 0;
      holders := Free;
    }
  }

  /** scoped_share_guard: shared-locks on construction, unlocks on exit. */
  class ScopedShareGuard {
    const lock: RwSpinLock

    constructor (lock: RwSpinLock)
      requires lock.Valid() && !lock.holders.exclusive && lock.holders.shared < ExclusiveBit
      modifies lock
      ensures this.lock == lock && lock.Valid()
      ensures lock.holders == Holders(old(lock.holders).shared + 1, false) && lock.flag == old(lock.flag) + 1
    {
      this.lock := lock;
      new;
      lock.SharedLock();
    }

    method Exit()
      requires lock.Valid() && lock.holders.shared > 0
      modifies lock
      ensures lock.Valid()
      ensures lock.holders == Holders(old(lock.holders).shared - 1, false) && lock.flag == old(lock.flag) - 1
    {
      lock.SharedUnlock();
    }
  }

  /** scoped_exclusive_guard: locks on construction, unlocks on exit. */
  class ScopedExclusiveGuard {
    const lock: RwSpinLock

    constructor (lock: RwSpinLock)
      requires lock.Valid() && lock.holders == Free
      modifies lock
      ensures this.lock == lock && lock.Valid()
      ensures lock.holders == Holders(0, true) && lock.flag == ExclusiveBit
    {
      this.lock := lock;
      new;
      lock.Lock();
    }

    method Exit()
      requires lock.Valid() && lock.holders.exclusive
      modifies lock
      ensures lock.Valid() && lock.holders == Free && lock.flag == 0
    {
      lock.Unlock();
    }
  }

  /** A shared scope leaves the lock as it found it. */
  method SharedScope(lock: RwSpinLock)
    requires lock.Valid() && !lock.holders.exclusive && lock.holders.shared < ExclusiveBit
    modifies lock
    ensures lock.Valid() && lock.holders == old(lock.holders) && lock.flag == old(lock.flag)
  {
    var guard := new ScopedShareGuard(lock);
    guard.Exit();
  }

  /** An exclusive scope leaves the lock as it found it: free. */
  method ExclusiveScope(lock: RwSpinLock)
    requires lock.Valid() && lock.holders == Free
    modifies lock
    ensures lock.Valid() && lock.holders == old(lock.holders) && lock.flag == old(lock.flag)
  {
    var guard := new ScopedExclusiveGuard(lock);
    guard.Exit();
  }

  /** buffering_ptr. A slot holds a shared_ptr, None when it is empty. */
  class BufferingPtr<T> {
    var readIndex: bv8
    const locks: seq<RwSpinLock>
    const handlers: array<Option<T>>

    /** The read index names one of the two slots, that slot holds a value,
        and between calls nobody holds either slot's lock. */
    ghost predicate Valid()
      reads this, handlers, locks
    {
      && |locks| == 2 && locks[0] != locks[1]
      && handlers.Length == 2
      && (readIndex == 0 || readIndex == 1)
      && handlers[readIndex as int].Some?
      && locks[0].Valid() && locks[0].holders == Free
      && locks[1].Valid() && locks[1].holders == Free
    }

    /** Slot 0 holds a default-constructed value (given here as init) and is
        the one read; slot 1 is empty. */
    constructor (init: T)
      ensures Valid() && fresh(handlers) && fresh(locks[0]) && fresh(locks[1])
      ensures readIndex == 0 && handlers[0] == Some(init) && handlers[1] == None
    {
      readIndex := 0;
      var lock0 := new RwSpinLock();
      var lock1 := new RwSpinLock();
      locks := [lock0, lock1];
      handlers := new Option<T>[2](i => if i == 0 then Some(init) else None);
    }

    /** reader(): the slot get() reads. */
    method Reader() returns (r: nat)
      requires Valid()
      ensures r < 2 && r == readIndex as int
    {
      r := readIndex as int;
    }

    /** update(x): store x in the other slot under its exclusive lock, then
        make that slot the one read. The previously published value stays
        where it was. */
    method Update(x: T)
      requires Valid()
      modifies this, handlers, locks
      ensures Valid()
      ensures readIndex == old(readIndex) ^ 1
      ensures handlers[readIndex as int] == Some(x)
      ensures handlers[old(readIndex) as int] == old(handlers[readIndex as int])
      ensures locks[0].flag == 0 && locks[1].flag == 0
    {
      var ri := readIndex;
      var wi := ri ^ 1;
      var guard := new ScopedExclusiveGuard(locks[wi as int]);
      handlers[wi as int] := Some(x);
      readIndex := wi;
      guard.Exit();
    }

    /** get(): read the current slot under its shared lock. Nothing else changes. */
    method Get() returns (r: Option<T>)
      requires Valid()
      modifies locks
      ensures Valid()
      ensures r == handlers[readIndex as int] && r.Some?
      ensures locks[0].flag == old(locks[0].flag) && locks[1].flag == old(locks[1].flag)
    {
      var ri := readIndex;
      var guard := new ScopedShareGuard(locks[ri as int]);
      r := handlers[ri as int];
      guard.Exit();
    }

    /** operator->: the current value, read without taking a lock. */
    function Peek(): (r: Option<T>)
      reads this, handlers, locks
      requires Valid()
      ensures r.Some?
    {
      handlers[readIndex as int]
    }
  }

  /** A get() after update(x) returns x, and the value published before is still held. */
  method PublishThenRead<T>(b: BufferingPtr<T>, x: T) returns (r: Option<T>)
    requires b.Valid()
    modifies b, b.handlers, b.locks
    ensures b.Valid()
    ensures r == Some(x)
    ensures b.handlers[old(b.readIndex) as int] == old(b.handlers[b.readIndex as int])
  {
    b.Update(x);
    r := b.Get();
  }

  /** A holder built with init, updated with x and read back gives x. */
  method BuildUpdateGet<T>(init: T, x: T) returns (r: Option<T>)
    ensures r == Some(x)
  {
    var b := new BufferingPtr(init);
    r := PublishThenRead(b, x);
  }

}
