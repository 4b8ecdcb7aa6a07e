/** Runs of the lock system itself: calls of its methods and of the release functions that Confirm hands out.  Every
    run of the class is a run of LockRuns, so what is proved there holds of the class. */
module LockClients {
  import opened Common
  import opened LockTable
  import opened LockRuns
  import opened ExpiryHeap
  import opened MemLockSystem

  /** The operations without releases that have nothing to release. */
  ghost function Live(s: System, ops: seq<Op>): seq<Op>
    decreases |ops|
  {
    if ops == [] then []
    else if Legal(s, ops[0]) then [ops[0]] + Live(Step(s, ops[0]), ops[1..])
    else Live(s, ops[1..])
  }

  class Clients {
    const ls: MemLS
    var handles: map<nat, (Node?, Node?)>    // what the release functions that are still to be called have captured
    var confirms: nat
    ghost var pending: map<nat, Pending>

    constructor (gen: nat)
      ensures Valid() && Now() == Initial(gen) && fresh(ls) && fresh(ls.byExpiry) && fresh(ls.Repr)
    {
      ls := new MemLS(gen);
      handles, confirms, pending := map[], 0, map[];
    }

    ghost function Now(): System
      requires ls.Shape()
      reads this, ls, ls.Repr
    {
      System(ls.Table(), ls.gen, pending, confirms)
    }

    /** The nodes that a release function has captured still stand for the locks that it holds. */
    ghost predicate Usable(i: nat)
      requires ls.Shape()
      reads this, ls, ls.Repr
    {
      i in handles ==>
        i in pending && ls.Handle(handles[i].0, handles[i].1) &&
        MemLS.HandleTokens(handles[i].0, handles[i].1) == pending[i].tokens
    }

    ghost predicate Valid()
      reads this, ls, ls.byExpiry, ls.Repr
      ensures Valid() ==> ls.Shape()
    {
      ls.Shape() && ls.Valid() && handles.Keys == pending.Keys && (forall i :: Usable(i)) && SystemInvariant(Now())
    }

    method Create(now: int, details: LockDetails)
      requires Valid()
      modifies ls`byName, ls`byToken, ls`gen, ls`Repr, ls.byExpiry, ls.Repr
      ensures Valid() && fresh(ls.Repr - old(ls.Repr))
      ensures Now() == Step(old(Now()), CreateOp(now, details))
    {
      hide SystemInvariant, LockTable.Create, MemLS.TreeValid, MemLS.ExpiryIndex, Invariant;
      ls.TokensAreUnique();
      var _ := ls.Create(now, details);
      ls.TokensAreUnique();
      forall i ensures Usable(i) {
        assert old(Usable(i));
      }
      StepKeepsInvariant(old(Now()), CreateOp(now, details));
    }

    method Refresh(now: int, token: string, duration: int)
      requires Valid()
      modifies ls`byName, ls`byToken, ls.byExpiry, ls.Repr
      ensures Valid() && Now() == Step(old(Now()), RefreshOp(now, token, duration))
    {
      hide SystemInvariant, LockTable.Refresh, MemLS.TreeValid, MemLS.ExpiryIndex, Invariant;
      ls.TokensAreUnique();
      var _ := ls.Refresh(now, token, duration);
      ls.TokensAreUnique();
      forall i ensures Usable(i) {
        assert old(Usable(i));
      }
      StepKeepsInvariant(old(Now()), RefreshOp(now, token, duration));
    }

    method Unlock(now: int, token: string)
      requires Valid()
      modifies ls`byName, ls`byToken, ls.byExpiry, ls.Repr
      ensures Valid() && Now() == Step(old(Now()), UnlockOp(now, token))
    {
      hide SystemInvariant, LockTable.Unlock, MemLS.TreeValid, MemLS.ExpiryIndex, Invariant;
      ls.TokensAreUnique();
      var _ := ls.Unlock(now, token);
      ls.TokensAreUnique();
      forall i ensures Usable(i) {
        assert old(Usable(i));
      }
      StepKeepsInvariant(old(Now()), UnlockOp(now, token));
    }

    /** Keeps what a new release function has captured. */
    method Keep(ghost p: Pending, handle: (Node?, Node?))
      requires ls.Shape() && handles.Keys == pending.Keys && confirms !in pending && (forall i :: Usable(i))
      requires ls.Handle(handle.0, handle.1) && MemLS.HandleTokens(handle.0, handle.1) == p.tokens
      modifies this
      ensures handles.Keys == pending.Keys && (forall i :: Usable(i))
      ensures pending == old(pending)[old(confirms) := p] && confirms == old(confirms) + 1
    {
      hide MemLS.Handle, MemLS.HandleTokens, MemLS.Held;
      handles, pending := handles[confirms := handle], pending[confirms := p];
      confirms := confirms + 1;
      forall i ensures Usable(i) {
        assert old(Usable(i));
      }
    }

    method CallConfirm(now: int, name0: string, name1: string, conditions: seq<Condition>)
      returns (r: Result<(Node?, Node?), LockError>)
      requires ls.Valid() && (forall i :: Usable(i))
      modifies ls`byName, ls`byToken, ls.byExpiry, ls.Repr
      ensures ls.Shape() && ls.Valid() && (forall i :: Usable(i))
      ensures ls.gen == old(ls.gen) && handles == old(handles) && pending == old(pending) && confirms == old(confirms)
      ensures r.Ok? ==> ls.Handle(r.value.0, r.value.1)
      ensures var (table, claim) := LockTable.Confirm(old(ls.Table()), now, name0, name1, conditions);
              ls.Table() == table && (r.Ok? <==> claim.Ok?) &&
              (r.Ok? ==> MemLS.HandleTokens(r.value.0, r.value.1) == claim.value)
    {
      hide LockTable.Confirm, MemLS.TreeValid, MemLS.ExpiryIndex, MemLS.Held, MemLS.Table, Invariant;
      r := ls.Confirm(now, name0, name1, conditions);
      ls.HeldTokensAreUnique();
      forall i ensures Usable(i) {
        assert old(Usable(i));
      }
    }

    method Confirm(now: int, name0: string, name1: string, conditions: seq<Condition>)
      requires Valid()
      modifies this, ls`byName, ls`byToken, ls.byExpiry, ls.Repr
      ensures Valid() && Now() == Step(old(Now()), ConfirmOp(now, name0, name1, conditions))
    {
      hide SystemInvariant, LockTable.Confirm, MemLS.Valid, MemLS.Shape, MemLS.Held, MemLS.Table, MemLS.Handle,
        MemLS.HandleTokens, Invariant, ClaimNames, Usable, Step;
      ghost var s, op := Now(), ConfirmOp(now, name0, name1, conditions);
      NextIsNew(s);
      ConfirmStep(s, now, name0, name1, conditions);
      StepKeepsInvariant(s, op);
      var r := CallConfirm(now, name0, name1, conditions);
      assert ls.Table() == Step(s, op).table && ls.gen == Step(s, op).gen;
      if r.Ok? {
        ghost var p := Pending(ClaimNames(name0, name1), MemLS.HandleTokens(r.value.0, r.value.1));
        assert Step(s, op).pending == s.pending[s.confirms := p] && Step(s, op).confirms == s.confirms + 1;
        Keep(p, r.value);
      }
      assert Now() == Step(s, op);
    }

    method CallRelease(id: nat)
      requires ls.Valid() && (forall i :: Usable(i)) && id in handles && id in pending
      requires forall i :: i in pending && i != id ==> pending[i].tokens !! pending[id].tokens
      modifies ls.byExpiry, ls.Repr`held, ls.Repr`byExpiryIndex
      ensures ls.Shape() && ls.Valid() && (forall i :: i != id ==> Usable(i)) && ls.gen == old(ls.gen)
      ensures handles == old(handles) && pending == old(pending) && confirms == old(confirms)
      ensures ls.Table() == LockTable.Release(old(ls.Table()), pending[id].tokens)
    {
      hide LockTable.Release, MemLS.TreeValid, MemLS.ExpiryIndex, Invariant;
      ls.TokensAreUnique();
      assert Usable(id);
      ls.Release(handles[id].0, handles[id].1);
      ls.TokensAreUnique();
      forall i | i != id ensures Usable(i) {
        assert old(Usable(i));
      }
    }

    /** The release function still finds what it needs, whatever was called since its Confirm. */
    method Release(id: nat)
      requires Valid() && id in handles
      modifies this, ls.byExpiry, ls.Repr`held, ls.Repr`byExpiryIndex
      ensures Valid() && Now() == Step(old(Now()), ReleaseOp(id))
    {
      hide SystemInvariant, LockTable.Release, MemLS.Valid, MemLS.Shape, MemLS.Held, MemLS.Table, MemLS.Handle,
        MemLS.HandleTokens, Invariant;
      ClaimsAreApart(Now(), id);
      StepKeepsInvariant(Now(), ReleaseOp(id));
      CallRelease(id);
      label Released:
      handles, pending := handles - {id}, pending - {id};
      forall i ensures Usable(i) {
        assert i != id ==> old@Released(Usable(i));
      }
    }

    method Perform(op: Op)
      requires Valid() && (op.ReleaseOp? ==> op.id in handles)
      modifies this, ls`byName, ls`byToken, ls`gen, ls`Repr, ls.byExpiry, ls.Repr
      ensures Valid() && fresh(ls.Repr - old(ls.Repr)) && Legal(old(Now()), op) && Now() == Step(old(Now()), op)
    {
      assert Legal(Now(), op);
      hide Valid, Step;
      match op
      case CreateOp(now, details) => Create(now, details);
      case RefreshOp(now, token, duration) => Refresh(now, token, duration);
      case UnlockOp(now, token) => Unlock(now, token);
      case ConfirmOp(now, name0, name1, conditions) => Confirm(now, name0, name1, conditions);
      case ReleaseOp(id) => Release(id);
    }

    /** Any sequence of calls is a run of LockRuns, once repeated calls of a release function are left out. */
    method Run(ops: seq<Op>) returns (ghost states: seq<System>, ghost performed: seq<Op>)
      requires Valid()
      modifies this, ls`byName, ls`byToken, ls`gen, ls`Repr, ls.byExpiry, ls.Repr
      ensures Valid() && IsRun(states, performed) && states[0] == old(Now()) && states[|performed|] == Now()
      ensures performed == Live(old(Now()), ops)
    {
      hide Valid, Step, Now;
      states, performed := [Now()], [];
      for i := 0 to |ops|
        invariant Valid() && fresh(ls.Repr - old(ls.Repr))
        invariant IsRun(states, performed) && states[0] == old(Now()) && states[|performed|] == Now()
        invariant Live(old(Now()), ops) == performed + Live(Now(), ops[i..])
      {
        assert ops[i..][0] == ops[i] && ops[i..][1..] == ops[i + 1..];
        assert Legal(Now(), ops[i]) <==> !ops[i].ReleaseOp? || ops[i].id in handles by {
          SamePending();
        }
        if !ops[i].ReleaseOp? || ops[i].id in handles {
          Perform(ops[i]);
          states, performed := states + [Now()], performed + [ops[i]];
        }
      }
    }

    lemma SamePending()
      requires Valid()
      ensures Now().pending.Keys == handles.Keys
    {
    }
  }

  lemma ConfirmStep(s: System, now: int, name0: string, name1: string, conditions: seq<Condition>)
    ensures var (table, claim) := LockTable.Confirm(s.table, now, name0, name1, conditions);
            Step(s, ConfirmOp(now, name0, name1, conditions)) ==
            if claim.Ok?
            then System(table, s.gen, s.pending[s.confirms := Pending(ClaimNames(name0, name1), claim.value)], s.confirms + 1)
            else System(table, s.gen, s.pending, s.confirms)
  {
  }

  lemma NextIsNew(s: System)
    requires SystemInvariant(s)
    ensures s.confirms !in s.pending
  {
  }

  lemma ClaimsAreApart(s: System, id: nat)
    requires SystemInvariant(s) && id in s.pending
    ensures forall i :: i in s.pending && i != id ==> s.pending[i].tokens !! s.pending[id].tokens
  {
  }
}
