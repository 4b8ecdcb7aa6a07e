/** What the operations of the lock system mean for its users: when a lock is there, until when, and what a call leaves as
    it was.  The laws speak of the fields of the locks before and after a call. */
module LockLaws {
  import opened Common
  import opened Names
  import opened LockTable

  // ---------- names as paths ----------

  lemma {:induction false} JoinedPrefix(a: seq<string>, b: seq<string>)
    requires AllElements(a) && AllElements(b) && a <= b && a != []
    ensures a == b || JoinTail(a) + "/" <= JoinTail(b)
    decreases |b|
  {
    if a != b {
      var init, last := b[..|b| - 1], b[|b| - 1];
      assert a <= init;
      JoinedPrefix(a, init);
      assert JoinTail(b) == JoinTail(init) + "/" + last;
      if a != init {
        assert JoinTail(a) + "/" <= JoinTail(init) <= JoinTail(b);
      } else {
        assert JoinTail(b)[..|JoinTail(a)| + 1] == JoinTail(a) + "/";
      }
    }
  }

  lemma {:induction false} SplitPrefix(s: string, t: string)
    requires s + "/" <= t
    ensures Split(s) <= Split(t)
    decreases |t|
  {
    var i := LastSlash(t);
    assert t[|s|] == '/' by { assert (s + "/")[|s|] == '/'; }
    assert i >= |s|;
    if i == |s| {
      assert t[..i] == s;
    } else {
      assert s + "/" <= t[..i] by { assert s + "/" == t[..|s| + 1] == t[..i][..|s| + 1]; }
      SplitPrefix(s, t[..i]);
    }
  }

  /** One name covers another exactly if its elements are the first elements of the other. */
  lemma CoversIsPrefix(a: seq<string>, b: seq<string>)
    requires AllElements(a) && AllElements(b)
    ensures Covers(Join(a), Join(b)) <==> a <= b
  {
    hide IsElement, Split;
    if a != [] && b != [] {
      SplitJoin(a);
      SplitJoin(b);
      if a <= b {
        JoinedPrefix(a, b);
      }
      if JoinTail(a) + "/" <= JoinTail(b) {
        SplitPrefix(JoinTail(a), JoinTail(b));
        assert [""] + a <= [""] + b;
        assert a == ([""] + a)[1..] && b == ([""] + b)[1..];
      }
      if JoinTail(a) == JoinTail(b) {
        assert a == ([""] + a)[1..] && b == ([""] + b)[1..];
      }
    } else if a != [] {
      assert |JoinTail(a)| > 1;
    }
  }

  /** What cleaning does to one more element, by the rules of path.Clean. */
  lemma SlashCleanSteps(name: string, e: string)
    requires '/' !in e
    ensures var es, more := Normalize(Split(name)), Normalize(Split(name + "/" + e));
            (e == "" || e == "." ==> more == es) &&
            (e == ".." && es != [] ==> |more| == |es| - 1 && more <= es) &&
            (e == ".." && es == [] ==> more == []) &&
            (IsElement(e) ==> more == es + [e])
  {
    SplitAppend(name, e);
    assert (Split(name) + [e])[..|Split(name)|] == Split(name);
    hide Split, LastSlash;
  }

  lemma SlashCleanStarts(e: string)
    requires '/' !in e
    ensures Normalize(Split(e)) == (if IsElement(e) then [e] else [])
    ensures SlashClean("") == "/"
  {
    assert [e][..0] == [] && Split(e) == [e] && Split("") == [""] && [""][..0] == [];
    assert Normalize([""]) == [];
  }

  /** A lock of zero depth covers its root; any other lock covers what the walk to the root leads past its root from. */
  lemma CoversExactly(d: Scope, name: string)
    requires IsClean(d.root) && IsClean(name)
    ensures LockCovers(d, name) <==> name == d.root || (!d.zeroDepth && d.root in Ancestors(name))
  {
    AncestorsAreCoverers(d.root, name);
  }

  // ---------- when a lock is there ----------

  /** A lock is alive if a Confirm holds it, if it is infinite, or before its deadline. */
  ghost predicate Alive(table: Table, t: string, now: int) {
    t in table && (table[t].held || table[t].deadline.None? || now < table[t].deadline.value)
  }

  /** Expiry takes away exactly what is not alive. */
  lemma ExpiryKeepsExactly(table: Table, now: int)
    ensures forall t :: t in Expire(table, now) <==> Alive(table, t, now)
    ensures forall t :: t in Expire(table, now) ==> Expire(table, now)[t] == table[t]
  {
  }

  /** The live locks of the table before, but for one token, are there afterwards unchanged, and nothing else is. */
  ghost predicate OnlyChanges(table: Table, now: int, after: Table, token: string) {
    forall t :: t != token ==> (t in after <==> Alive(table, t, now)) && (t in after ==> after[t] == table[t])
  }

  /** The table afterwards is the one before without the locks that are not alive. */
  ghost predicate OnlyExpires(table: Table, now: int, after: Table) {
    forall t :: (t in after <==> Alive(table, t, now)) && (t in after ==> after[t] == table[t])
  }

  /** A live lock covers some name that the wanted lock would cover. */
  ghost predicate Meets(table: Table, t: string, now: int, root: string, zeroDepth: bool) {
    Alive(table, t, now) &&
    exists name: string :: IsClean(name) && LockCovers(table[t].details.Scope(), name) && LockCovers(Extent(root, zeroDepth), name)
  }

  /** The lock that a call gives: alive at a later time exactly before its own duration has passed. */
  ghost predicate LivesFor(after: Table, token: string, now: int, duration: int) {
    token in after && !after[token].held && after[token].details.duration == duration &&
    forall later :: Alive(after, token, later) <==> duration < 0 || later < now + duration
  }

  lemma WantedMeets(table: Table, gen: nat, now: int, root: string, zeroDepth: bool)
    requires Invariant(table, gen) && IsClean(root)
    ensures CanCreate(Expire(table, now), Extent(root, zeroDepth)) <==> forall t :: !Meets(table, t, now, root, zeroDepth)
  {
    hide Conflicts, LockCovers;
    forall t ensures Meets(table, t, now, root, zeroDepth) <==>
                     t in Expire(table, now) && Conflicts(table[t].details.Scope(), Extent(root, zeroDepth))
    {
      if t in table {
        ConflictIsSharedName(table[t].details.Scope(), Extent(root, zeroDepth));
      }
    }
  }

  /** Create gives a new lock over the cleaned name exactly if no live lock meets it, for as long as it was asked for;
      otherwise it answers ErrLocked.  No other lock changes. */
  lemma CreateGivesALock(table: Table, gen: nat, now: int, details: LockDetails)
    requires Invariant(table, gen)
    ensures var (after, r) := Create(table, gen, now, details);
            (r.Ok? <==> forall t :: !Meets(table, t, now, SlashClean(details.root), details.zeroDepth)) &&
            (r.Err? ==> r == Err(ErrLocked) && OnlyExpires(table, now, after)) &&
            (r.Ok? ==> r.value !in table && OnlyChanges(table, now, after, r.value) &&
                       LivesFor(after, r.value, now, details.duration) &&
                       after[r.value].details.root == SlashClean(details.root) &&
                       after[r.value].details.zeroDepth == details.zeroDepth &&
                       after[r.value].details.ownerXML == details.ownerXML)
  {
    hide SlashClean, Decimal, Invariant, Meets, CanCreate, OnlyExpires, OnlyChanges, LivesFor, Expire;
    TokenIsFree(table, gen);
    WantedMeets(table, gen, now, SlashClean(details.root), details.zeroDepth);
    ExpiringOnly(table, now);
    if CanCreate(Expire(table, now), Extent(SlashClean(details.root), details.zeroDepth)) {
      var d := details.(root := SlashClean(details.root));
      AddingOnly(table, now, Decimal(gen + 1), Lock(d, Deadline(now, d.duration), false));
    }
  }

  lemma ExpiringOnly(table: Table, now: int)
    ensures OnlyExpires(table, now, Expire(table, now))
  {
  }

  lemma AddingOnly(table: Table, now: int, token: string, lock: Lock)
    requires !lock.held && lock.deadline == Deadline(now, lock.details.duration)
    ensures OnlyChanges(table, now, Expire(table, now)[token := lock], token)
    ensures LivesFor(Expire(table, now)[token := lock], token, now, lock.details.duration)
  {
  }

  /** Refresh gives a live lock that no Confirm holds the new duration from now on, and changes nothing else. */
  lemma RefreshRenews(table: Table, now: int, token: string, duration: int)
    ensures var (after, r) := Refresh(table, now, token, duration);
            (r == Err(ErrNoSuchLock) <==> !Alive(table, token, now)) &&
            (r == Err(ErrLocked) <==> Alive(table, token, now) && table[token].held) &&
            (r.Ok? <==> Alive(table, token, now) && !table[token].held) &&
            (r.Err? ==> OnlyExpires(table, now, after)) &&
            (r.Ok? ==> OnlyChanges(table, now, after, token) && LivesFor(after, token, now, duration) &&
                       after[token].details == r.value &&
                       r.value.root == table[token].details.root && r.value.zeroDepth == table[token].details.zeroDepth &&
                       r.value.ownerXML == table[token].details.ownerXML)
  {
  }

  /** Unlock takes a live lock away that no Confirm holds, and changes nothing else. */
  lemma UnlockRemoves(table: Table, now: int, token: string)
    ensures var (after, e) := Unlock(table, now, token);
            (e == Some(ErrNoSuchLock) <==> !Alive(table, token, now)) &&
            (e == Some(ErrLocked) <==> Alive(table, token, now) && table[token].held) &&
            (e.None? <==> Alive(table, token, now) && !table[token].held) &&
            (e.Some? ==> OnlyExpires(table, now, after)) &&
            (e.None? ==> token !in after && OnlyChanges(table, now, after, token))
  {
  }

  /** A lock that stands alone in the way of another is out of the way once it is unlocked. */
  lemma UnlockMakesRoom(table: Table, gen: nat, now: int, token: string, details: LockDetails)
    requires Invariant(table, gen) && Alive(table, token, now) && !table[token].held
    requires forall t :: t != token ==> !Meets(table, t, now, SlashClean(details.root), details.zeroDepth)
    ensures Create(Unlock(table, now, token).0, gen, now, details).1.Ok?
  {
    var after := Unlock(table, now, token).0;
    UnlockRemoves(table, now, token);
    UnlockKeeps(table, gen, now, token);
    CreateGivesALock(after, gen, now, details);
    hide Unlock, Invariant, LockCovers, SlashClean;
    forall t ensures !Meets(after, t, now, SlashClean(details.root), details.zeroDepth) {
      if t != token && t in after {
        assert !Meets(table, t, now, SlashClean(details.root), details.zeroDepth);
      }
    }
  }

  /** The same locks, of which exactly some are held. */
  ghost predicate SameButHeld(before: Table, after: Table, tokens: set<string>, held: bool) {
    before.Keys == after.Keys &&
    forall t :: t in before ==> after[t].details == before[t].details && after[t].deadline == before[t].deadline &&
                                after[t].held == if t in tokens then held else before[t].held
  }

  /** A condition names this lock, it was free, and it covers one of the wanted names. */
  ghost predicate Asked(live: Table, t: string, name0: string, name1: string, conditions: seq<Condition>) {
    t in live && !live[t].held && (exists c :: c in conditions && c.token == t) &&
    ((name0 != "" && LockCovers(live[t].details.Scope(), SlashClean(name0))) ||
     (name1 != "" && LockCovers(live[t].details.Scope(), SlashClean(name1))))
  }

  /** Confirm holds exactly the locks over the wanted names - each of them free and named by a condition - and changes
      nothing else about any lock; if a wanted name has no such lock it holds none. */
  lemma ConfirmHolds(table: Table, gen: nat, now: int, name0: string, name1: string, conditions: seq<Condition>)
    requires Invariant(table, gen)
    ensures var live := Expire(table, now);
            var (after, r) := Confirm(table, now, name0, name1, conditions);
            (r.Err? ==> r == Err(ErrConfirmationFailed) && OnlyExpires(table, now, after)) &&
            (r.Ok? ==> SameButHeld(live, after, r.value, true) &&
                       forall t :: t in r.value <==> Asked(live, t, name0, name1, conditions))
  {
    var live := Expire(table, now);
    hide Claim, Expire, Asked, OnlyExpires, SameButHeld;
    ExpireKeeps(table, gen, now);
    ExpiringOnly(table, now);
    forall t ensures Claim(live, name0, name1, conditions).Ok? ==>
                       (t in Claim(live, name0, name1, conditions).value <==> Asked(live, t, name0, name1, conditions))
    {
      ClaimIsAsked(live, t, name0, name1, conditions);
    }
    ClaimIsAsked(live, "", name0, name1, conditions);
    var r := Claim(live, name0, name1, conditions);
    if r.Ok? {
      HoldingOnly(live, r.value, true);
    }
  }

  lemma HoldingOnly(table: Table, tokens: set<string>, held: bool)
    ensures SameButHeld(table, SetHeld(table, tokens, held), tokens, held)
  {
  }

  lemma ClaimIsAsked(live: Table, t: string, name0: string, name1: string, conditions: seq<Condition>)
    requires Exclusive(live)
    ensures var r := Claim(live, name0, name1, conditions);
            r == Err(ErrConfirmationFailed) || (r.Ok? && (t in r.value <==> Asked(live, t, name0, name1, conditions)))
  {
    LookupFindsTheLock(live, SlashClean(name0), conditions);
    LookupFindsTheLock(live, SlashClean(name1), conditions);
    hide SlashClean, LockCovers, Conflicts, Exclusive;
  }

  /** A release frees exactly the locks of its claim, and undoes the Confirm. */
  lemma ReleaseFrees(table: Table, now: int, name0: string, name1: string, conditions: seq<Condition>, tokens: set<string>)
    ensures SameButHeld(table, Release(table, tokens), tokens, false)
    ensures var (after, r) := Confirm(table, now, name0, name1, conditions);
            r.Ok? ==> Release(after, r.value) == Expire(table, now)
  {
    hide SlashClean, LockCovers;
    var (after, r) := Confirm(table, now, name0, name1, conditions);
    if r.Ok? {
      assert forall t :: t in r.value ==> t in Expire(table, now) && !Expire(table, now)[t].held;
    }
  }
}
