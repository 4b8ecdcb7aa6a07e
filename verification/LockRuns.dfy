/** Runs of the lock system: sequences of operations on the lock table, with the release functions that
    successful Confirm calls have handed out. */
module LockRuns {
  import opened Common
  import opened Names
  import opened LockTable

  /** The release function of a successful Confirm: the names it was asked for and the locks it holds. */
  datatype Pending = Pending(names: set<string>, tokens: set<string>)

  /** `pending` holds the release functions that have not been called, by the number of their Confirm. */
  datatype System = System(table: Table, gen: nat, pending: map<nat, Pending>, confirms: nat)

  datatype Op =
    | CreateOp(now: int, details: LockDetails)
    | RefreshOp(now: int, token: string, duration: int)
    | UnlockOp(now: int, token: string)
    | ConfirmOp(now: int, name0: string, name1: string, conditions: seq<Condition>)
    | ReleaseOp(id: nat)

  /** A release function is called at most once. */
  predicate Legal(s: System, op: Op) {
    op.ReleaseOp? ==> op.id in s.pending
  }

  function ClaimNames(name0: string, name1: string): set<string> {
    set name | name in {name0, name1} && name != "" :: SlashClean(name)
  }

  ghost function Step(s: System, op: Op): System
    requires Legal(s, op)
  {
    match op
    case CreateOp(now, details) =>
      var (table, r) := Create(s.table, s.gen, now, details);
      s.(table := table, gen := if r.Ok? then s.gen + 1 else s.gen)
    case RefreshOp(now, token, duration) => s.(table := Refresh(s.table, now, token, duration).0)
    case UnlockOp(now, token) => s.(table := Unlock(s.table, now, token).0)
    case ConfirmOp(now, name0, name1, conditions) =>
      var (table, r) := Confirm(s.table, now, name0, name1, conditions);
      if r.Err? then s.(table := table) else
        s.(table := table, confirms := s.confirms + 1,
           pending := s.pending[s.confirms := Pending(ClaimNames(name0, name1), r.value)])
    case ReleaseOp(id) =>
      s.(table := Release(s.table, s.pending[id].tokens), pending := s.pending - {id})
  }

  /** The locks of a pending claim are in the table and held, no two claims share one, and every named
      resource of a claim is covered by one of its locks. */
  ghost predicate ClaimsHold(s: System) {
    (forall i :: i in s.pending ==> i < s.confirms) &&
    (forall i, t :: i in s.pending && t in s.pending[i].tokens ==> t in s.table && s.table[t].held) &&
    (forall t :: t in s.table && s.table[t].held ==> exists i :: i in s.pending && t in s.pending[i].tokens) &&
    (forall i, j :: i in s.pending && j in s.pending && i != j ==> s.pending[i].tokens !! s.pending[j].tokens) &&
    (forall i, name :: i in s.pending && name in s.pending[i].names ==> ClaimCovers(s, i, name))
  }

  ghost predicate ClaimCovers(s: System, i: nat, name: string)
    requires i in s.pending
  {
    exists t :: t in s.pending[i].tokens && t in s.table && LockCovers(s.table[t].details.Scope(), name)
  }

  ghost predicate SystemInvariant(s: System) {
    Invariant(s.table, s.gen) && ClaimsHold(s)
  }

  lemma SameHeldKeepsClaims(s: System, table: Table)
    requires ClaimsHold(s) && SameHeld(s.table, table)
    ensures ClaimsHold(s.(table := table))
  {
    var s' := s.(table := table);
    forall i, name | i in s'.pending && name in s'.pending[i].names ensures ClaimCovers(s', i, name) {
      assert ClaimCovers(s, i, name);
    }
  }

  lemma ClaimCoversItsNames(table: Table, name0: string, name1: string, conditions: seq<Condition>)
    ensures var r := Claim(table, name0, name1, conditions);
            r.Ok? ==> (forall t :: t in r.value ==> t in table && !table[t].held) &&
                      forall name :: name in ClaimNames(name0, name1) ==> ClaimedBy(table, r.value, name)
  {
  }

  lemma ConfirmKeepsClaims(s: System, now: int, name0: string, name1: string, conditions: seq<Condition>)
    requires SystemInvariant(s)
    ensures ClaimsHold(Step(s, ConfirmOp(now, name0, name1, conditions)))
  {
    hide SlashClean, LockCovers, Lookup, Claim, ClaimsHold;
    var live := Expire(s.table, now);
    var r := Claim(live, name0, name1, conditions);
    HeldLocksStay(s.table, now, "", 0);
    SameHeldKeepsClaims(s, live);
    if r.Ok? {
      ClaimCoversItsNames(live, name0, name1, conditions);
      HoldingAddsAClaim(s.(table := live), Pending(ClaimNames(name0, name1), r.value));
    }
  }

  ghost predicate ClaimedBy(table: Table, tokens: set<string>, name: string) {
    exists t :: t in tokens && t in table && LockCovers(table[t].details.Scope(), name)
  }

  lemma HoldingAddsAClaim(s: System, p: Pending)
    requires ClaimsHold(s)
    requires forall t :: t in p.tokens ==> t in s.table && !s.table[t].held
    requires forall name :: name in p.names ==> ClaimedBy(s.table, p.tokens, name)
    ensures ClaimsHold(System(SetHeld(s.table, p.tokens, true), s.gen, s.pending[s.confirms := p], s.confirms + 1))
  {
    hide LockCovers;
    var s' := System(SetHeld(s.table, p.tokens, true), s.gen, s.pending[s.confirms := p], s.confirms + 1);
    forall i, name | i in s'.pending && name in s'.pending[i].names ensures ClaimCovers(s', i, name) {
      if i == s.confirms {
        var t :| t in p.tokens && t in s.table && LockCovers(s.table[t].details.Scope(), name);
        assert t in s'.table;
      } else {
        assert ClaimCovers(s, i, name);
        var t :| t in s.pending[i].tokens && t in s.table && LockCovers(s.table[t].details.Scope(), name);
        assert t in s'.table;
      }
    }
    forall t | t in s'.table && s'.table[t].held ensures exists i :: i in s'.pending && t in s'.pending[i].tokens {
      if t in p.tokens {
        assert t in s'.pending[s.confirms].tokens;
      } else {
        var i :| i in s.pending && t in s.pending[i].tokens;
        assert i in s'.pending && t in s'.pending[i].tokens;
      }
    }
  }

  lemma ReleaseKeepsClaims(s: System, id: nat)
    requires ClaimsHold(s) && id in s.pending
    ensures ClaimsHold(Step(s, ReleaseOp(id)))
  {
    hide LockCovers;
    var s' := Step(s, ReleaseOp(id));
    forall i, name | i in s'.pending && name in s'.pending[i].names ensures ClaimCovers(s', i, name) {
      assert ClaimCovers(s, i, name);
      var t :| t in s.pending[i].tokens && t in s.table && LockCovers(s.table[t].details.Scope(), name);
      assert t in s'.table;
    }
    forall t | t in s'.table && s'.table[t].held ensures exists i :: i in s'.pending && t in s'.pending[i].tokens {
      var i :| i in s.pending && t in s.pending[i].tokens;
      assert i != id && i in s'.pending;
    }
  }

  lemma CreateStepKeeps(s: System, now: int, details: LockDetails)
    requires SystemInvariant(s)
    ensures SystemInvariant(Step(s, CreateOp(now, details)))
  {
    hide Conflicts, SlashClean, Decimal, Create, ClaimsHold, Invariant, SameHeld;
    CreateKeeps(s.table, s.gen, now, details);
    SameHeldKeepsClaims(s, Create(s.table, s.gen, now, details).0);
    ClaimsIgnoreTokens(s.(table := Create(s.table, s.gen, now, details).0), s.gen + 1);
  }

  lemma ClaimsIgnoreTokens(s: System, gen: nat)
    requires ClaimsHold(s)
    ensures ClaimsHold(s.(gen := gen))
  {
    forall i, name | i in s.pending && name in s.pending[i].names ensures ClaimCovers(s.(gen := gen), i, name) {
      assert ClaimCovers(s, i, name);
    }
  }

  lemma StepKeepsInvariant(s: System, op: Op)
    requires SystemInvariant(s) && Legal(s, op)
    ensures SystemInvariant(Step(s, op))
  {
    hide Conflicts, SlashClean, Decimal, ClaimsHold, Invariant, Create, Refresh, Unlock, Confirm, SetHeld;
    match op
    case CreateOp(now, details) =>
      CreateStepKeeps(s, now, details);
    case RefreshOp(now, token, duration) =>
      RefreshKeeps(s.table, s.gen, now, token, duration);
      HeldLocksStay(s.table, now, token, duration);
      SameHeldKeepsClaims(s, Refresh(s.table, now, token, duration).0);
    case UnlockOp(now, token) =>
      UnlockKeeps(s.table, s.gen, now, token);
      HeldLocksStay(s.table, now, token, 0);
      SameHeldKeepsClaims(s, Unlock(s.table, now, token).0);
    case ConfirmOp(now, name0, name1, conditions) =>
      ConfirmKeeps(s.table, s.gen, now, name0, name1, conditions);
      ConfirmKeepsClaims(s, now, name0, name1, conditions);
    case ReleaseOp(id) =>
      SetHeldKeeps(s.table, s.gen, s.pending[id].tokens, false);
      ReleaseKeepsClaims(s, id);
  }

  /** A claim of `before` is still there, with its locks as they were. */
  ghost predicate ClaimKept(before: System, after: System, id: nat)
    requires id in before.pending
  {
    id in after.pending && after.pending[id] == before.pending[id] &&
    forall t :: t in before.pending[id].tokens ==>
      t in before.table && t in after.table && after.table[t] == before.table[t]
  }

  /** Only the release of a claim touches the locks of that claim. */
  lemma StepKeepsClaim(s: System, op: Op, id: nat)
    requires SystemInvariant(s) && Legal(s, op) && id in s.pending && op != ReleaseOp(id)
    ensures ClaimKept(s, Step(s, op), id)
  {
    hide Conflicts, SlashClean, Decimal, LockCovers;
    match op
    case CreateOp(now, details) => CreateKeeps(s.table, s.gen, now, details);
    case RefreshOp(now, token, duration) => HeldLocksStay(s.table, now, token, duration);
    case UnlockOp(now, token) => HeldLocksStay(s.table, now, token, 0);
    case ConfirmOp(now, name0, name1, conditions) => HeldLocksStay(s.table, now, "", 0);
    case ReleaseOp(other) =>
  }

  ghost function Initial(gen: nat): System {
    System(map[], gen, map[], 0)
  }

  ghost predicate IsRun(states: seq<System>, ops: seq<Op>) {
    |states| == |ops| + 1 &&
    forall i :: 0 <= i < |ops| ==> Legal(states[i], ops[i]) && states[i + 1] == Step(states[i], ops[i])
  }

  /** In every state of every run each resource is locked at most once, and the claims of all release
      functions that are still to be called are held and apart. */
  lemma {:induction false} RunsAreSafe(states: seq<System>, ops: seq<Op>, gen: nat, n: nat)
    requires IsRun(states, ops) && states[0] == Initial(gen) && n <= |ops|
    ensures SystemInvariant(states[n])
  {
    if n > 0 {
      RunsAreSafe(states, ops, gen, n - 1);
      StepKeepsInvariant(states[n - 1], ops[n - 1]);
    }
  }

  /** While a claim has not been released its locks do not change in any way: they are not expired,
      refreshed, unlocked or replaced. */
  lemma {:induction false} ClaimedLocksDoNotChange(states: seq<System>, ops: seq<Op>, gen: nat, i: nat, j: nat, id: nat)
    requires IsRun(states, ops) && states[0] == Initial(gen) && i <= j <= |ops|
    requires id in states[i].pending && ReleaseOp(id) !in ops[i..j]
    ensures ClaimKept(states[i], states[j], id)
    decreases j
  {
    RunsAreSafe(states, ops, gen, i);
    if i < j {
      assert ops[i..j] == ops[i..j - 1] + [ops[j - 1]];
      ClaimedLocksDoNotChange(states, ops, gen, i, j - 1, id);
      RunsAreSafe(states, ops, gen, j - 1);
      StepKeepsClaim(states[j - 1], ops[j - 1], id);
    }
  }

  /** Confirm is mutual exclusion: as long as a confirmed claim on a resource is not released, no other
      Confirm that names the resource succeeds, whatever conditions it presents and whenever it comes. */
  lemma ConfirmedNameIsExclusive(states: seq<System>, ops: seq<Op>, gen: nat, i: nat, j: nat, id: nat, op: Op, name: string)
    requires IsRun(states, ops) && states[0] == Initial(gen) && i <= j <= |ops|
    requires id in states[i].pending && ReleaseOp(id) !in ops[i..j]
    requires op.ConfirmOp? && name in {op.name0, op.name1} && name != "" && SlashClean(name) in states[i].pending[id].names
    ensures Confirm(states[j].table, op.now, op.name0, op.name1, op.conditions).1 == Err(ErrConfirmationFailed)
    ensures Step(states[j], op).pending == states[j].pending
  {
    ClaimedLocksDoNotChange(states, ops, gen, i, j, id);
    RunsAreSafe(states, ops, gen, j);
    var s := states[j];
    hide SlashClean, Conflicts, LockCovers;
    assert ClaimCovers(s, id, SlashClean(name));
    var t :| t in s.pending[id].tokens && t in s.table && LockCovers(s.table[t].details.Scope(), SlashClean(name));
    ExpireKeeps(s.table, s.gen, op.now);
    var live := Expire(s.table, op.now);
    LookupFindsTheLock(live, SlashClean(name), op.conditions);
    assert t in live && live[t].held;
  }

  /** In terms of the calls: from a Confirm that succeeds to the call of its release function, every other Confirm fails
      that asks for one of its names, in any spelling. */
  lemma ConfirmExcludes(states: seq<System>, ops: seq<Op>, gen: nat, i: nat, j: nat, op: Op, mine: string, theirs: string)
    requires IsRun(states, ops) && states[0] == Initial(gen) && i < j <= |ops|
    requires ops[i].ConfirmOp? && mine in {ops[i].name0, ops[i].name1} && mine != ""
    requires Confirm(states[i].table, ops[i].now, ops[i].name0, ops[i].name1, ops[i].conditions).1.Ok?
    requires ReleaseOp(states[i].confirms) !in ops[i + 1..j]
    requires op.ConfirmOp? && theirs in {op.name0, op.name1} && theirs != "" && SlashClean(theirs) == SlashClean(mine)
    ensures Confirm(states[j].table, op.now, op.name0, op.name1, op.conditions).1 == Err(ErrConfirmationFailed)
  {
    hide SlashClean, Confirm, Invariant, ClaimsHold;
    var id := states[i].confirms;
    assert states[i + 1] == Step(states[i], ops[i]);
    assert id in states[i + 1].pending && SlashClean(mine) in states[i + 1].pending[id].names;
    ConfirmedNameIsExclusive(states, ops, gen, i + 1, j, id, op, theirs);
  }
}
