/** Procedures and the transaction that rolls them back.

    A procedure carries an action, an error function and a committed flag.
    Destroying a procedure that is not committed runs its error function.
    A transaction owns a list of procedures, invokes their actions in order,
    commits all of them only when every action succeeds, and on destruction
    pops them from the back.

    The callbacks are std::function objects bound to user code. An action is
    modelled by the outcome it returns, an error function by an identifier,
    and running an error function by appending its identifier to a log. An
    empty std::function is None; a moved-from std::function is empty. */
module Transactions {
  import opened Wrappers

  /** The observable state of one procedure. */
  datatype ProcState = ProcState(committed: bool, action: Option<bool>, errorFunc: Option<nat>)

  /** What destroying a procedure in this state runs: its error function,
      exactly once, when it is not committed and has one; otherwise nothing. */
  function Rollback(p: ProcState): (r: seq<nat>)
    ensures |r| <= 1
    ensures r == [] <==> p.committed || p.errorFunc.None?
    ensures r != [] ==> r[0] == p.errorFunc.value
  {
    if !p.committed && p.errorFunc.Some? then [p.errorFunc.value] else []
  }

  /** What popping every procedure from the back of the list runs, in order. */
  function RollbackAll(ps: seq<ProcState>): (r: seq<nat>)
    ensures |r| <= |ps|
  {
    if ps == [] then [] else Rollback(ps[|ps| - 1]) + RollbackAll(ps[..|ps| - 1])
  }

  /** The error functions still armed, in insertion order. */
  function Pending(ps: seq<ProcState>): seq<nat>
  {
    if ps == [] then [] else Rollback(ps[0]) + Pending(ps[1..])
  }

  function Reverse(xs: seq<nat>): seq<nat>
  {
    if xs == [] then [] else Reverse(xs[1..]) + [xs[0]]
  }

  lemma {:induction false} ReverseAppend(xs: seq<nat>, ys: seq<nat>)
    ensures Reverse(xs + ys) == Reverse(ys) + Reverse(xs)
    decreases |xs|
  {
    if xs == [] {
      assert xs + ys == ys;
    } else {
      assert (xs + ys)[1..] == xs[1..] + ys;
      ReverseAppend(xs[1..], ys);
    }
  }

  lemma {:induction false} PendingSnoc(ps: seq<ProcState>)
    requires ps != []
    ensures Pending(ps) == Pending(ps[..|ps| - 1]) + Rollback(ps[|ps| - 1])
    decreases |ps|
  {
    var n := |ps|;
    if n == 1 {
      assert ps[..0] == [];
      assert ps[1..] == [];
    } else {
      var tail := ps[1..];
      var init := ps[..n - 1];
      assert tail[..n - 2] == init[1..];
      assert tail[n - 2] == ps[n - 1];
      assert init[0] == ps[0];
      PendingSnoc(tail);
      calc {
        Pending(ps);
        Rollback(ps[0]) + Pending(tail);
        Rollback(ps[0]) + (Pending(init[1..]) + Rollback(ps[n - 1]));
        (Rollback(init[0]) + Pending(init[1..])) + Rollback(ps[n - 1]);
        Pending(init) + Rollback(ps[n - 1]);
      }
    }
  }

  /** Popping the n-th procedure runs its rollback before those of the n - 1
      before it, so a log of what the pops have run so far stays a prefix of
      the whole rollback. */
  lemma {:induction false} RollbackAllStep(ps: seq<ProcState>, n: nat, ran: seq<nat>, r: seq<nat>)
    requires 0 < n <= |ps|
    requires ran + RollbackAll(ps[..n]) == RollbackAll(ps) && r == Rollback(ps[n - 1])
    ensures (ran + r) + RollbackAll(ps[..n - 1]) == RollbackAll(ps)
  {
    var prefix := ps[..n];
    var rest := RollbackAll(ps[..n - 1]);
    assert prefix[..n - 1] == ps[..n - 1];
    calc {
      RollbackAll(prefix);
      Rollback(prefix[n - 1]) + RollbackAll(prefix[..n - 1]);
      r + rest;
    }
    assert (ran + r) + rest == ran + (r + rest);
  }

  /** The destructor runs the armed error functions in reverse insertion order. */
  lemma {:induction false} RollbackIsReversePending(ps: seq<ProcState>)
    ensures RollbackAll(ps) == Reverse(Pending(ps))
    decreases |ps|
  {
    if ps != [] {
      var init := ps[..|ps| - 1];
      var last := ps[|ps| - 1];
      RollbackIsReversePending(init);
      PendingSnoc(ps);
      ReverseAppend(Pending(init), Rollback(last));
      assert Reverse(Rollback(last)) == Rollback(last) by {
        if Rollback(last) != [] {
          assert Rollback(last)[1..] == [];
        }
      }
    }
  }

  /** When every procedure is committed, the destructor runs nothing. */
  lemma {:induction false} CommittedRollsBackNothing(ps: seq<ProcState>)
    requires forall i :: 0 <= i < |ps| ==> ps[i].committed
    ensures RollbackAll(ps) == []
    decreases |ps|
  {
    if ps != [] {
      var init := ps[..|ps| - 1];
      assert forall i :: 0 <= i < |init| ==> init[i].committed by {
        forall i | 0 <= i < |init| ensures init[i].committed {
          assert init[i] == ps[i];
        }
      }
      CommittedRollsBackNothing(init);
    }
  }

  /** Procedure. */
  class Procedure {
    var committed: bool
    var action: Option<bool>
    var errorFunc: Option<nat>
    /** How often the action has been invoked. */
    ghost var invocations: nat

    function State(): ProcState
      reads this
    {
      ProcState(committed, action, errorFunc)
    }

    /** A new procedure is not committed and has no error function. */
    constructor (action: bool)
      ensures !committed && this.action == Some(action) && errorFunc.None? && invocations == 0
      ensures Rollback(State()) == []
    {
      committed := false;
      this.action := Some(action);
      errorFunc := None;
      invocations := 0;
    }

    /** The copy constructor copies the flag and both functions. */
    constructor Copy(other: Procedure)
      ensures State() == other.State() && invocations == 0
    {
      committed := other.committed;
      action := other.action;
      errorFunc := other.errorFunc;
      invocations := 0;
    }

    /** Copy assignment; assigning a procedure to itself changes nothing. */
    method CopyAssign(other: Procedure)
      modifies this
      ensures State() == old(other.State())
      ensures other == this ==> State() == old(State())
      ensures invocations == old(invocations)
    {
      if other == this {
        return;
      }
      committed := other.committed;
      action := other.action;
      errorFunc := other.errorFunc;
    }

    /** The move constructor takes over the flag and both functions and marks
        the source committed, so the source never rolls back. */
    constructor Move(other: Procedure)
      modifies other
      ensures State() == old(other.State()) && invocations == 0
      ensures other.committed && other.action.None? && other.errorFunc.None?
      ensures other.invocations == old(other.invocations)
      ensures Rollback(other.State()) == []
    {
      committed := other.committed;
      action := other.action;
      errorFunc := other.errorFunc;
      invocations := 0;
      new;
      other.committed := true;
      other.action := None;
      other.errorFunc := None;
    }

    /** Move assignment. There is no self-check: moving a procedure into
        itself keeps its functions and leaves it committed. */
    method MoveAssign(other: Procedure)
      modifies this, other
      ensures other != this ==> State() == old(other.State())
      ensures other != this ==> other.committed && other.action.None? && other.errorFunc.None?
      ensures other == this ==> State() == old(State()).(committed := true)
      ensures invocations == old(invocations) && other.invocations == old(other.invocations)
      ensures Rollback(other.State()) == []
    {
      committed := other.committed;
      other.committed := true;
      var a := other.action;
      other.action := None;
      action := a;
      var e := other.errorFunc;
      other.errorFunc := None;
      errorFunc := e;
    }

    /** AddErrorFunc: bind the error function, replacing any earlier one. */
    method AddErrorFunc(id: nat)
      modifies this
      ensures State() == old(State()).(errorFunc := Some(id))
      ensures invocations == old(invocations)
    {
      errorFunc := Some(id);
    }

    /** Invoke: run the action and return its result. */
    method Invoke() returns (ok: bool)
      requires action.Some?
      modifies this
      ensures State() == old(State()) && invocations == old(invocations) + 1
      ensures ok == action.value
    {
      ok := action.value;
      invocations := invocations + 1;
    }

    method Commit()
      modifies this
      ensures State() == old(State()).(committed := true)
      ensures invocations == old(invocations)
    {
      committed := true;
    }

    /** The destructor: the error functions it runs. */
    method Destroy() returns (ran: seq<nat>)
      ensures ran == Rollback(State())
      ensures ran != [] <==> !committed && errorFunc.Some?
    {
      ran := [];
      if !committed && errorFunc.Some? {
        ran := [errorFunc.value];
      }
    }
  }

  /** The states of a list of procedures, element by element. */
  function StatesOf(ps: seq<Procedure>): (r: seq<ProcState>)
    reads set p | p in ps
    ensures |r| == |ps|
    ensures forall i :: 0 <= i < |ps| ==> r[i] == ps[i].State()
  {
    if ps == [] then [] else StatesOf(ps[..|ps| - 1]) + [ps[|ps| - 1].State()]
  }

  /** Transaction: a list of distinct procedures. */
  class Transaction {
    var procedures: seq<Procedure>

    ghost predicate Valid()
      reads this
    {
      forall i, j :: 0 <= i < j < |procedures| ==> procedures[i] != procedures[j]
    }

    function States(): seq<ProcState>
      reads this, set p | p in procedures
    {
      StatesOf(procedures)
    }

    constructor ()
      ensures Valid() && procedures == []
    {
      procedures := [];
    }

    /** AddProcedure: build an uncommitted procedure around the action, move it
        into a new element at the back of the list and return that element.
        The local procedure is destroyed committed, so it runs nothing. */
    method AddProcedure(action: bool) returns (p: Procedure)
      requires Valid()
      modifies this
      ensures Valid() && fresh(p)
      ensures procedures == old(procedures) + [p]
      ensures States() == old(States()) + [ProcState(false, Some(action), None)]
    {
      var local := new Procedure(action);
      p := new Procedure.Move(local);
      var ran := local.Destroy();
      assert ran == [];
      procedures := procedures + [p];
      assert procedures[..|procedures| - 1] == old(procedures);
    }

    /** InvokeCurrentProcedures: invoke the actions in list order, stopping at
        the first that fails. Only when all succeed is every procedure
        committed; on failure no procedure changes but the invoked ones. */
    method InvokeCurrentProcedures() returns (ok: bool)
      requires Valid()
      requires forall i :: 0 <= i < |procedures| && (forall j :: 0 <= j < i ==> procedures[j].action == Some(true)) ==>
        procedures[i].action.Some?
      modifies set p | p in procedures
      ensures ok <==> forall i :: 0 <= i < |procedures| ==> old(procedures[i].action) == Some(true)
      ensures ok ==> forall i :: 0 <= i < |procedures| ==>
        procedures[i].State() == old(procedures[i].State()).(committed := true)
        && procedures[i].invocations == old(procedures[i].invocations) + 1
      ensures !ok ==> forall i :: 0 <= i < |procedures| ==> procedures[i].State() == old(procedures[i].State())
      ensures !ok ==> exists k :: (0 <= k < |procedures|
        && old(procedures[k].action) == Some(false)
        && (forall i :: 0 <= i < k ==> old(procedures[i].action) == Some(true))
        && forall i :: 0 <= i < |procedures| ==>
             procedures[i].invocations == old(procedures[i].invocations) + (if i <= k then 1 else 0))
    {
      var i := 0;
      while i < |procedures|
        invariant 0 <= i <= |procedures|
        invariant forall j :: 0 <= j < i ==> procedures[j].action == Some(true)
        invariant forall j :: 0 <= j < |procedures| ==> procedures[j].State() == old(procedures[j].State())
        invariant forall j :: 0 <= j < |procedures| ==>
          procedures[j].invocations == old(procedures[j].invocations) + (if j < i then 1 else 0)
      {
        var r := procedures[i].Invoke();
        if !r {
          return false;
        }
        i := i + 1;
      }
      CommitAll();
      return true;
    }

    /** The commit loop of InvokeCurrentProcedures: commit every procedure in
        list order. */
    method CommitAll()
      requires Valid()
      modifies set p | p in procedures
      ensures forall i :: 0 <= i < |procedures| ==>
        procedures[i].State() == old(procedures[i].State()).(committed := true)
        && procedures[i].invocations == old(procedures[i].invocations)
    {
      var i := 0;
      while i < |procedures|
        invariant 0 <= i <= |procedures|
        invariant forall j :: 0 <= j < |procedures| ==>
          procedures[j].State() == old(procedures[j].State()).(committed := j < i || old(procedures[j].committed))
        invariant forall j :: 0 <= j < |procedures| ==> procedures[j].invocations == old(procedures[j].invocations)
      {
        procedures[i].Commit();
        i := i + 1;
      }
    }

    /** The destructor: pop procedures from the back until the list is empty,
        each running its error function if it is armed. */
    method Destroy() returns (ran: seq<nat>)
      modifies this
      ensures procedures == []
      ensures ran == RollbackAll(old(States()))
      ensures ran == Reverse(Pending(old(States())))
    {
      ghost var initial := States();
      ghost var all := procedures;
      ran := [];
      assert initial[..|procedures|] == initial;
      while procedures != []
        invariant |procedures| <= |all| && procedures == all[..|procedures|]
        invariant forall i :: 0 <= i < |all| ==> all[i].State() == initial[i]
        invariant ran + RollbackAll(initial[..|procedures|]) == RollbackAll(initial)
        decreases |procedures|
      {
        var n := |procedures|;
        var last := procedures[n - 1];
        procedures := procedures[..n - 1];
        var r := last.Destroy();
        assert r == Rollback(initial[n - 1]);
        RollbackAllStep(initial, n, ran, r);
        ran := ran + r;
      }
      assert initial[..0] == [];
      RollbackIsReversePending(initial);
    }
  }

  /** A transaction run end to end: invoke, then destroy. After success the
      destructor runs nothing; after a failure it runs every armed error
      function, last added first. */
  method InvokeThenDestroy(t: Transaction) returns (ok: bool, ran: seq<nat>)
    requires t.Valid()
    requires forall i :: 0 <= i < |t.procedures| && (forall j :: 0 <= j < i ==> t.procedures[j].action == Some(true)) ==>
      t.procedures[i].action.Some?
    modifies t, set p | p in t.procedures
    ensures ok <==> forall i :: 0 <= i < |old(t.procedures)| ==> old(t.procedures[i].action) == Some(true)
    ensures ok ==> ran == []
    ensures !ok ==> ran == Reverse(Pending(old(t.States())))
  {
    ghost var before := t.States();
    ok := t.InvokeCurrentProcedures();
    ghost var after := t.States();
    if ok {
      assert forall i :: 0 <= i < |after| ==> after[i].committed by {
        forall i | 0 <= i < |after| ensures after[i].committed {
          assert after[i] == t.procedures[i].State();
        }
      }
      CommittedRollsBackNothing(after);
    } else {
      assert after == before by {
        assert |after| == |before|;
        forall i | 0 <= i < |after| ensures after[i] == before[i] {
          assert after[i] == t.procedures[i].State();
        }
      }
    }
    ran := t.Destroy();
    assert ran == RollbackAll(after);
    if !ok {
      RollbackIsReversePending(before);
    }
  }

  /** The armed error functions of an uncommitted procedure with error
      function 7 followed by a committed one, in reverse order. */
  lemma TwoPending(states: seq<ProcState>)
    requires states == [ProcState(false, Some(false), Some(7)), ProcState(true, None, None)]
    ensures Reverse(Pending(states)) == [7]
  {
    assert states[1..][1..] == [];
    assert Pending(states[1..]) == [];
    assert [7][1..] == [];
  }

  /** A failing procedure with error function 7, followed by one whose action
      was moved out through the reference AddProcedure returned. */
  method BuildFailThenMovedOut() returns (t: Transaction)
    ensures fresh(t) && t.Valid() && |t.procedures| == 2
    ensures fresh(t.procedures[0]) && fresh(t.procedures[1])
    ensures t.procedures[0].State() == ProcState(false, Some(false), Some(7))
    ensures t.procedures[1].State() == ProcState(true, None, None)
  {
    t := new Transaction();
    var p := t.AddProcedure(false);
    p.AddErrorFunc(7);
    var q := t.AddProcedure(true);
    assert t.procedures == [p, q] && p != q;
    var sink := new Procedure.Move(q);
    assert p.State() == ProcState(false, Some(false), Some(7));
    assert q.State() == ProcState(true, None, None);
  }

  /** On that list the invoke stops at the failure before reaching the empty
      action, and the destructor runs the failing procedure's error function
      only. */
  method FailThenMovedOut() returns (ok: bool, ran: seq<nat>)
    ensures !ok && ran == [7]
  {
    var t := BuildFailThenMovedOut();
    ghost var states := t.States();
    assert states == [ProcState(false, Some(false), Some(7)), ProcState(true, None, None)];
    label invoked:
    ok, ran := InvokeThenDestroy(t);
    assert old@invoked(t.procedures[0].action) == Some(false);
    TwoPending(states);
  }

}
