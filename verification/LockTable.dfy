/** The meaning of the WebDAV lock system: a table from lock tokens to locks (section 6 of RFC 4918).

    Every operation of `memLS` is specified here by a function on that table.  The second half is about
    runs: sequences of such operations starting from an empty table. */
module LockTable {
  import opened Common
  import opened Names

  datatype LockDetails = LockDetails(root: string, duration: int, ownerXML: string, zeroDepth: bool) {
    function Scope(): Scope {
      Extent(root, zeroDepth)
    }
  }

  /** What a lock covers depends on its root and depth only. */
  datatype Scope = Extent(root: string, zeroDepth: bool)

  /** `deadline` is None for a lock of infinite duration; `held` says that a Confirm claims the lock. */
  datatype Lock = Lock(details: LockDetails, deadline: Option<int>, held: bool)

  type Table = map<string, Lock>

  datatype Condition = Condition(not: bool, token: string, etag: string)

  datatype LockError = ErrConfirmationFailed | ErrLocked | ErrNoSuchLock

  // ---------- which names a lock covers ----------

  /** A zero-depth lock covers its root only, any other its root and everything below. */
  predicate LockCovers(d: Scope, name: string) {
    name == d.root || (!d.zeroDepth && Covers(d.root, name))
  }

  /** What canCreate refuses: a lock whose root the other covers. */
  predicate Conflicts(d: Scope, e: Scope) {
    LockCovers(d, e.root) || LockCovers(e, d.root)
  }

  /** Two locks conflict exactly when some resource would be locked twice. */
  lemma ConflictIsSharedName(d: Scope, e: Scope)
    requires IsClean(d.root) && IsClean(e.root)
    ensures Conflicts(d, e) <==> exists name: string :: IsClean(name) && LockCovers(d, name) && LockCovers(e, name)
  {
    if name: string :| IsClean(name) && LockCovers(d, name) && LockCovers(e, name) {
      CoveredTwiceConflicts(d, e, name);
    }
    if LockCovers(d, e.root) {
      assert LockCovers(e, e.root);
    }
    if LockCovers(e, d.root) {
      assert LockCovers(d, d.root);
    }
  }

  lemma CoveredTwiceConflicts(d: Scope, e: Scope, name: string)
    requires LockCovers(d, name) && LockCovers(e, name)
    ensures Conflicts(d, e)
  {
    if name != d.root && name != e.root {
      CoverersComparable(d.root, e.root, name);
    }
  }

  /** No resource is locked twice. */
  ghost predicate Exclusive(table: Table) {
    forall t, u :: t in table && u in table && t != u ==> !Conflicts(table[t].details.Scope(), table[u].details.Scope())
  }

  lemma AtMostOneLockPerName(table: Table, t: string, u: string, name: string)
    requires Exclusive(table) && t in table && u in table
    requires LockCovers(table[t].details.Scope(), name) && LockCovers(table[u].details.Scope(), name)
    ensures t == u
  {
    CoveredTwiceConflicts(table[t].details.Scope(), table[u].details.Scope(), name);
  }

  // ---------- the operations ----------

  predicate Expired(lock: Lock, now: int) {
    lock.deadline.Some? && !lock.held && lock.deadline.value <= now
  }

  /** collectExpiredNodes: a lock that a Confirm holds does not expire. */
  function Expire(table: Table, now: int): Table {
    map t | t in table && !Expired(table[t], now) :: table[t]
  }

  function Deadline(now: int, duration: int): Option<int> {
    if duration >= 0 then Some(now + duration) else None
  }

  ghost predicate CanCreate(table: Table, d: Scope) {
    forall t :: t in table ==> !Conflicts(table[t].details.Scope(), d)
  }

  ghost function Create(table: Table, gen: nat, now: int, details: LockDetails): (Table, Result<string, LockError>) {
    var live := Expire(table, now);
    var d := details.(root := SlashClean(details.root));
    if CanCreate(live, d.Scope()) then
      var token := Decimal(gen + 1);
      (live[token := Lock(d, Deadline(now, d.duration), false)], Ok(token))
    else (live, Err(ErrLocked))
  }

  function Refresh(table: Table, now: int, token: string, duration: int): (Table, Result<LockDetails, LockError>) {
    var live := Expire(table, now);
    if token !in live then (live, Err(ErrNoSuchLock))
    else if live[token].held then (live, Err(ErrLocked))
    else
      var d := live[token].details.(duration := duration);
      (live[token := Lock(d, Deadline(now, duration), false)], Ok(d))
  }

  function Unlock(table: Table, now: int, token: string): (Table, Option<LockError>) {
    var live := Expire(table, now);
    if token !in live then (live, Some(ErrNoSuchLock))
    else if live[token].held then (live, Some(ErrLocked))
    else (live - {token}, None)
  }

  /** The first condition whose token names a lock that is free and covers the resource. */
  function Lookup(table: Table, name: string, conditions: seq<Condition>): (t: Option<string>)
    ensures t.Some? ==> Usable(table, name, t.value) && exists c :: c in conditions && c.token == t.value
  {
    if conditions == [] then None
    else if Usable(table, name, conditions[0].token) then Some(conditions[0].token)
    else Lookup(table, name, conditions[1..])
  }

  predicate Usable(table: Table, name: string, t: string) {
    t in table && !table[t].held && LockCovers(table[t].details.Scope(), name)
  }

  function SetHeld(table: Table, tokens: set<string>, held: bool): Table {
    map t | t in table :: if t in tokens then table[t].(held := held) else table[t]
  }

  /** The locks that Confirm would hold; an empty name asks for nothing. */
  function Claim(table: Table, name0: string, name1: string, conditions: seq<Condition>): Result<set<string>, LockError> {
    var t0 := if name0 == "" then None else Lookup(table, SlashClean(name0), conditions);
    var t1 := if name1 == "" then None else Lookup(table, SlashClean(name1), conditions);
    if (name0 != "" && t0.None?) || (name1 != "" && t1.None?) then Err(ErrConfirmationFailed)
    else Ok((if t0.Some? then {t0.value} else {}) + (if t1.Some? then {t1.value} else {}))
  }

  function Confirm(table: Table, now: int, name0: string, name1: string, conditions: seq<Condition>)
    : (Table, Result<set<string>, LockError>)
  {
    var live := Expire(table, now);
    var claim := Claim(live, name0, name1, conditions);
    (if claim.Ok? then SetHeld(live, claim.value, true) else live, claim)
  }

  function Release(table: Table, tokens: set<string>): Table {
    SetHeld(table, tokens, false)
  }

  // ---------- what each operation keeps ----------

  /** Every token was made by nextToken, so the next one is new. */
  ghost predicate Issued(token: string, gen: nat) {
    exists k: nat :: k <= gen && token == Decimal(k)
  }

  ghost predicate Invariant(table: Table, gen: nat) {
    Exclusive(table) &&
    forall t :: t in table ==>
      IsClean(table[t].details.root) && Issued(t, gen) &&
      (table[t].deadline.Some? <==> table[t].details.duration >= 0)
  }

  lemma NextTokenIsNew(gen: nat)
    ensures !Issued(Decimal(gen + 1), gen) && Issued(Decimal(gen + 1), gen + 1)
    ensures forall t :: Issued(t, gen) ==> Issued(t, gen + 1)
  {
    if Issued(Decimal(gen + 1), gen) {
      var k: nat :| k <= gen && Decimal(gen + 1) == Decimal(k);
      DecimalInjective(gen + 1, k);
    }
  }

  /** No lock is new and none has moved. */
  ghost predicate Narrows(table: Table, after: Table) {
    forall t :: t in after ==>
      t in table && after[t].details.Scope() == table[t].details.Scope() &&
      (after[t].deadline.Some? <==> after[t].details.duration >= 0)
  }

  lemma NarrowingKeeps(table: Table, after: Table, gen: nat)
    requires Invariant(table, gen) && Narrows(table, after)
    ensures Invariant(after, gen)
  {
  }

  lemma ExpireKeeps(table: Table, gen: nat, now: int)
    requires Invariant(table, gen)
    ensures Invariant(Expire(table, now), gen)
  {
    NarrowingKeeps(table, Expire(table, now), gen);
  }

  /** The held locks are the same ones before and after, unchanged. */
  ghost predicate SameHeld(table: Table, after: Table) {
    (forall t :: t in table && table[t].held ==> t in after && after[t] == table[t]) &&
    (forall t :: t in after && after[t].held ==> t in table && table[t].held)
  }

  /** Expiry, Refresh and Unlock do not touch a lock that a Confirm holds. */
  lemma HeldLocksStay(table: Table, now: int, token: string, duration: int)
    ensures SameHeld(table, Expire(table, now))
    ensures SameHeld(table, Refresh(table, now, token, duration).0)
    ensures SameHeld(table, Unlock(table, now, token).0)
  {
  }

  lemma AddingKeeps(table: Table, gen: nat, lock: Lock)
    requires Invariant(table, gen) && CanCreate(table, lock.details.Scope())
    requires IsClean(lock.details.root) && (lock.deadline.Some? <==> lock.details.duration >= 0)
    ensures Invariant(table[Decimal(gen + 1) := lock], gen + 1) && Decimal(gen + 1) !in table
  {
    NextTokenIsNew(gen);
    hide Conflicts, Decimal;
    var after := table[Decimal(gen + 1) := lock];
    forall t, u | t in after && u in after && t != u
      ensures !Conflicts(after[t].details.Scope(), after[u].details.Scope())
    {
      ConflictsSymmetric(after[t].details.Scope(), after[u].details.Scope());
    }
  }

  lemma ConflictsSymmetric(d: Scope, e: Scope)
    ensures Conflicts(d, e) <==> Conflicts(e, d)
  {
  }

  lemma TokenIsFree(table: Table, gen: nat)
    requires Invariant(table, gen)
    ensures Decimal(gen + 1) !in table
  {
    NextTokenIsNew(gen);
    hide Conflicts, Decimal;
  }

  lemma CreateKeeps(table: Table, gen: nat, now: int, details: LockDetails)
    requires Invariant(table, gen)
    ensures var (after, r) := Create(table, gen, now, details);
            Invariant(after, if r.Ok? then gen + 1 else gen) && (r.Ok? ==> r.value !in table)
    ensures SameHeld(table, Create(table, gen, now, details).0)
  {
    hide Conflicts, Decimal, SlashClean, Expired, Invariant, CanCreate;
    var live := Expire(table, now);
    var d := details.(root := SlashClean(details.root));
    TokenIsFree(table, gen);
    ExpireKeeps(table, gen, now);
    HeldLocksStay(table, now, "", 0);
    if CanCreate(live, d.Scope()) {
      AddingKeeps(live, gen, Lock(d, Deadline(now, d.duration), false));
    }
  }

  lemma RenewKeeps(table: Table, gen: nat, token: string, lock: Lock)
    requires Invariant(table, gen) && token in table && lock.details.Scope() == table[token].details.Scope()
    requires lock.deadline.Some? <==> lock.details.duration >= 0
    ensures Invariant(table[token := lock], gen)
  {
  }

  lemma RefreshKeeps(table: Table, gen: nat, now: int, token: string, duration: int)
    requires Invariant(table, gen)
    ensures Invariant(Refresh(table, now, token, duration).0, gen)
  {
    ExpireKeeps(table, gen, now);
    var live := Expire(table, now);
    if token in live && !live[token].held {
      RenewKeeps(live, gen, token, Lock(live[token].details.(duration := duration), Deadline(now, duration), false));
    }
    hide Expire, Invariant;
  }

  lemma UnlockKeeps(table: Table, gen: nat, now: int, token: string)
    requires Invariant(table, gen)
    ensures Invariant(Unlock(table, now, token).0, gen)
  {
    NarrowingKeeps(table, Unlock(table, now, token).0, gen);
  }

  lemma SetHeldKeeps(table: Table, gen: nat, tokens: set<string>, held: bool)
    requires Invariant(table, gen)
    ensures Invariant(SetHeld(table, tokens, held), gen)
  {
    NarrowingKeeps(table, SetHeld(table, tokens, held), gen);
  }

  lemma SetHeldTwice(table: Table, a: set<string>, b: set<string>, held: bool)
    ensures SetHeld(SetHeld(table, a, held), b, held) == SetHeld(table, a + b, held)
    ensures a == {} ==> SetHeld(table, a, held) == table && a + b == b
    ensures a + b == b + a && (b == {} ==> a + b == a)
  {
  }

  lemma ConfirmKeeps(table: Table, gen: nat, now: int, name0: string, name1: string, conditions: seq<Condition>)
    requires Invariant(table, gen)
    ensures Invariant(Confirm(table, now, name0, name1, conditions).0, gen)
  {
    NarrowingKeeps(table, Confirm(table, now, name0, name1, conditions).0, gen);
  }

  /** One of the conditions names a free lock over the resource. */
  ghost predicate Permitted(table: Table, name: string, conditions: seq<Condition>) {
    exists c :: c in conditions && Usable(table, name, c.token)
  }

  /** lookup finds a lock exactly when one of the conditions names a free lock over the resource, and then
      the lock it finds is the only lock over that resource: holding it gives exclusive access. */
  lemma {:induction false} LookupFindsTheLock(table: Table, name: string, conditions: seq<Condition>)
    requires Exclusive(table)
    ensures Lookup(table, name, conditions).Some? <==> Permitted(table, name, conditions)
    ensures Lookup(table, name, conditions).Some? ==>
            forall u :: u in table && LockCovers(table[u].details.Scope(), name) ==> u == Lookup(table, name, conditions).value
  {
    var found := Lookup(table, name, conditions);
    if found.Some? {
      forall u | u in table && LockCovers(table[u].details.Scope(), name) ensures u == found.value {
        AtMostOneLockPerName(table, u, found.value, name);
      }
    }
    if conditions != [] {
      LookupFindsTheLock(table, name, conditions[1..]);
      assert conditions == [conditions[0]] + conditions[1..];
    }
  }

  /** A failing Confirm holds nothing; it fails exactly when a named resource has no free lock among the
      conditions. */
  lemma ConfirmFailsExactly(table: Table, now: int, name0: string, name1: string, conditions: seq<Condition>)
    requires Exclusive(table)
    ensures var live := Expire(table, now);
            var (after, r) := Confirm(table, now, name0, name1, conditions);
            (r.Err? ==> after == live) &&
            (r.Ok? <==> forall name :: name in {name0, name1} - {""} ==> Permitted(live, SlashClean(name), conditions))
  {
    var live := Expire(table, now);
    LookupFindsTheLock(live, SlashClean(name0), conditions);
    LookupFindsTheLock(live, SlashClean(name1), conditions);
    hide Permitted, Lookup, SlashClean, Expire, Exclusive, LockCovers;
    var r := Confirm(table, now, name0, name1, conditions).1;
    if r.Err? {
      var name := if name0 != "" && Lookup(live, SlashClean(name0), conditions).None? then name0 else name1;
      assert name in {name0, name1} - {""};
    }
  }
}
