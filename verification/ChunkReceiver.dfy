/** The receiving side of a chunked upload to local storage: the physical file, the placeholder row, the
    upload session and the owner's storage counter, under rejected, re-sent and broken chunks. */
module ChunkReceiver {
  import opened Common
  import opened ChunkGroup

  /** What the session fixes: the size of the file, the chunk size of the policy, the owner's quota. */
  datatype Session = Session(size: nat, chunkSize: nat, maxStorage: nat)

  /** `disk` is the physical file, `rowSize` the size column of the placeholder row, `uploading` says that
      the row still carries the session id and `cached` that the session is in the cache. */
  datatype State = State(disk: Option<Bytes>, rowSize: nat, uploading: bool, cached: bool, storage: int)

  /** Where the outside world fails: creating the directory, opening, reading the size, truncating or reopening
      the file; after `copied` bytes if `broken`; in the hooks after the upload and in those after these.  If the
      client cancels a request that fails, the file is truncated, unless that fails as well. */
  datatype Faults = Faults(mkdir: bool, open: bool, stat: bool, truncate: bool, reopen: bool,
                           broken: bool, copied: nat, canceled: bool, cancelTruncate: bool,
                           update: Transaction, pop: bool, undoTruncate: bool, undoUpdate: Transaction)

  const NO_FAULTS := Faults(false, false, false, false, false, false, 0, false, false, Committed, false, false, Committed)

  datatype Request = Request(index: nat, contentLength: Option<nat>, body: Bytes, faults: Faults)

  datatype Reply = Accepted | SessionExpired | InvalidChunkIndex | InvalidContentLength | UploadFailed

  function U64(n: int): nat {
    n % TWO_TO_THE_64
  }

  function Start(c: Session, index: nat): nat {
    U64(index * c.chunkSize)
  }

  predicate IsLastChunk(c: Session, index: nat) {
    c.chunkSize == 0 || U64((index + 1) * c.chunkSize) >= c.size
  }

  function ExpectedLength(c: Session, index: nat): nat {
    if IsLastChunk(c, index) then U64(c.size - Start(c, index)) else c.chunkSize
  }

  // ---------- the steps, as functions ----------

  function Truncated(content: Bytes, size: nat): Bytes {
    if size <= |content| then content[..size] else content + seq(size - |content|, _ => 0)
  }

  /** local.Driver.Put in append mode. */
  function Put(disk: Option<Bytes>, overwrite: bool, start: nat, body: Bytes, f: Faults): (Option<Bytes>, bool) {
    if (!overwrite && disk.Some?) || f.mkdir || f.open then (disk, false) else
      var content := if disk.Some? then disk.value else [];
      if f.stat || |content| < start || (|content| > start && f.truncate) then (Some(content), false)
      else if |content| > start && f.reopen then (Some(content[..start]), false)
      else (Some(content[..start] + if f.broken then body[..Min(f.copied, |body|)] else body), !f.broken)
  }

  function Cut(disk: Option<Bytes>, size: nat): Option<Bytes> {
    if disk.None? then None else Some(Truncated(disk.value, size))
  }

  /** File.UpdateSize on a row in hand: the table's row changes if it has the size in hand, the owner's storage by the
      difference to the size in hand.  Also gives the size in hand afterwards. */
  function UpdateSize(s: State, inHand: nat, value: nat, o: Transaction): (State, nat) {
    match o
    case RolledBack => (s, inHand)
    case CommitFailed => (s, value)
    case Committed =>
      (s.(rowSize := if s.rowSize == inHand then value else s.rowSize, storage := s.storage + value - inHand), value)
  }

  /** The hooks AfterUpload, and AfterValidateFailed if one of them fails. */
  function AfterUpload(c: Session, s: State, index: nat, length: nat, f: Faults): (State, bool) {
    var start := Start(c, index);
    var (sized, inHand) := UpdateSize(s, s.rowSize, U64(start + length), f.update);
    if f.update != Committed || (IsLastChunk(c, index) && f.pop) then
      (if f.undoTruncate || s.disk.None? then sized
       else UpdateSize(sized.(disk := Cut(s.disk, start)), inHand, start, f.undoUpdate).0, false)
    else if IsLastChunk(c, index) then (sized.(uploading := false, cached := false), true)
    else (sized, true)
  }

  function Handle(c: Session, s: State, r: Request): (State, Reply) {
    var start := Start(c, r.index);
    if !s.cached || !s.uploading then (s, SessionExpired)
    else if (c.chunkSize == 0 && r.index > 0) || s.rowSize < start then (s, InvalidChunkIndex)
    else if r.contentLength != Some(ExpectedLength(c, r.index)) then (s, InvalidContentLength)
    else if Remaining(c, s) < r.contentLength.value then (s, UploadFailed)
    else
      var (disk, ok) := Put(s.disk, r.index > 0, start, r.body, r.faults);
      if !ok then
        (s.(disk := if r.faults.canceled && !r.faults.cancelTruncate then Cut(disk, start) else disk), UploadFailed)
      else
        var (s', done) := AfterUpload(c, s.(disk := disk), r.index, r.contentLength.value, r.faults);
        (s', if done then Accepted else UploadFailed)
  }

  function Remaining(c: Session, s: State): int {
    Max(0, c.maxStorage - s.storage)
  }

  // ---------- the steps, as the code takes them ----------

  class Receiver {
    const session: Session
    var disk: Option<Bytes>
    var rowSize: nat
    var uploading: bool
    var cached: bool
    var storage: int

    constructor (session: Session, storage: int)
      ensures this.session == session && Now() == Fresh(storage)
    {
      this.session := session;
      disk, rowSize, uploading, cached, this.storage := None, 0, true, true, storage;
    }

    function Now(): State
      reads this
    {
      State(disk, rowSize, uploading, cached, storage)
    }

    method PutBody(overwrite: bool, start: nat, body: Bytes, f: Faults) returns (ok: bool)
      modifies this`disk
      ensures (disk, ok) == Put(old(disk), overwrite, start, body, f)
    {
      if !overwrite {
        if disk.Some? {
          return false;
        }
      }
      if f.mkdir || f.open {
        return false;
      }
      if disk.None? {
        disk := Some([]);
      }
      if f.stat {
        return false;
      }
      if |disk.value| < start {
        return false;
      } else if |disk.value| > start {
        var truncated := Truncate(start, f.truncate);
        if !truncated || f.reopen {
          return false;
        }
      }
      assert disk.value == disk.value[..start];
      disk := Some(disk.value + if f.broken then body[..Min(f.copied, |body|)] else body);
      return !f.broken;
    }

    method Truncate(size: nat, fails: bool) returns (ok: bool)
      modifies this`disk
      ensures ok == (!fails && old(disk).Some?) && disk == if ok then Cut(old(disk), size) else old(disk)
    {
      if fails || disk.None? {
        return false;
      }
      disk := Some(Truncated(disk.value, size));
      return true;
    }

    method ChangeSize(inHand: nat, value: nat, o: Transaction) returns (ok: bool, now: nat)
      modifies this`rowSize, this`storage
      ensures ok == (o == Committed) && (Now(), now) == UpdateSize(old(Now()), inHand, value, o)
    {
      if o == RolledBack {
        return false, inHand;
      }
      if o == Committed {
        if rowSize == inHand {
          rowSize := value;
        }
        if value > inHand {
          storage := storage + (value - inHand);
        } else {
          storage := storage - (inHand - value);
        }
      }
      return o == Committed, value;
    }

    method RunHooks(index: nat, length: nat, f: Faults) returns (ok: bool)
      modifies this
      ensures (Now(), ok) == AfterUpload(session, old(Now()), index, length, f)
    {
      var start := Start(session, index);
      var inHand;
      ok, inHand := ChangeSize(rowSize, U64(start + length), f.update);
      if ok && IsLastChunk(session, index) {
        if f.pop {
          ok := false;
        } else {
          uploading := false;
          cached := false;
        }
      }
      if !ok {
        var cut := Truncate(start, f.undoTruncate);
        if cut {
          var _, _ := ChangeSize(inHand, start, f.undoUpdate);
        }
      }
    }

    method LocalUpload(r: Request) returns (reply: Reply)
      modifies this
      ensures (Now(), reply) == Handle(session, old(Now()), r)
    {
      if !cached || !uploading {
        return SessionExpired;
      }
      var start := Start(session, r.index);
      if session.chunkSize == 0 && r.index > 0 {
        return InvalidChunkIndex;
      }
      if rowSize < start {
        return InvalidChunkIndex;
      }
      if r.contentLength != Some(ExpectedLength(session, r.index)) {
        return InvalidContentLength;
      }
      if Remaining(session, Now()) < r.contentLength.value {
        return UploadFailed;
      }
      var stored := PutBody(r.index > 0, start, r.body, r.faults);
      if !stored {
        if r.faults.canceled {
          var _ := Truncate(start, r.faults.cancelTruncate);
        }
        return UploadFailed;
      }
      var done := RunHooks(r.index, r.contentLength.value, r.faults);
      return if done then Accepted else UploadFailed;
    }
  }

  // ---------- what every run keeps ----------

  function Fresh(storage: int): State {
    State(None, 0, true, true, storage)
  }

  /** A request that asks for a place in the source and announces the right length carries the bytes that
      the source has there.  Any other request may carry anything. */
  ghost predicate Honest(c: Session, src: Bytes, r: Request) {
    var start := Start(c, r.index);
    start <= |src| && r.contentLength == Some(ExpectedLength(c, r.index)) ==>
      r.contentLength.value == |r.body| && start + |r.body| <= |src| && r.body == src[start..start + |r.body|]
  }

  ghost predicate Holds(c: Session, src: Bytes, s: State) {
    |src| == c.size < TWO_TO_THE_64 &&
    (s.disk.Some? ==> s.disk.value <= src) && s.rowSize <= |src| &&
    (s.uploading <==> s.cached) && (!s.uploading ==> s.disk == Some(src) && s.rowSize == |src|)
  }

  /** A last chunk ends with the source: its expected length does not wrap around. */
  lemma LastChunkEndsTheFile(c: Session, index: nat)
    requires IsLastChunk(c, index) && Start(c, index) <= c.size < TWO_TO_THE_64
    ensures Start(c, index) + ExpectedLength(c, index) == c.size
  {
  }

  lemma PutKeepsPrefix(src: Bytes, disk: Option<Bytes>, overwrite: bool, start: nat, body: Bytes, f: Faults)
    requires disk.Some? ==> disk.value <= src
    requires start + |body| <= |src| && body == src[start..start + |body|]
    ensures var (after, ok) := Put(disk, overwrite, start, body, f);
            (after.Some? ==> after.value <= src) && (ok ==> after == Some(src[..start + |body|]))
  {
    var content := if disk.Some? then disk.value else [];
    if start <= |content| {
      assert content[..start] == src[..start];
      assert src[..start] + body == src[..start + |body|];
      var k := Min(f.copied, |body|);
      if k >= 0 {
        assert src[..start] + body[..k] == src[..start + k];
      }
    }
  }

  lemma AfterUploadKeeps(c: Session, src: Bytes, s: State, index: nat, length: nat, f: Faults)
    requires Holds(c, src, s) && s.uploading && Start(c, index) + length <= |src|
    requires s.disk == Some(src[..Start(c, index) + length])
    requires IsLastChunk(c, index) ==> Start(c, index) + length == |src|
    ensures Holds(c, src, AfterUpload(c, s, index, length, f).0)
  {
    var start := Start(c, index);
    assert src[..start + length][..start] == src[..start];
    assert src[..|src|] == src;
  }

  /** The request passes every check before the upload. */
  predicate Reaches(c: Session, s: State, r: Request) {
    s.cached && s.uploading && (c.chunkSize == 0 ==> r.index == 0) && Start(c, r.index) <= s.rowSize &&
    r.contentLength == Some(ExpectedLength(c, r.index)) && ExpectedLength(c, r.index) <= Remaining(c, s)
  }

  /** The canceled request finds less on disk than it builds on, so truncating the file fills it with zeros, and
      the source has something else there. */
  ghost predicate FillsWrongly(c: Session, src: Bytes, s: State, r: Request)
    requires |src| == c.size
  {
    var start, had := Start(c, r.index), if s.disk.Some? then |s.disk.value| else 0;
    Reaches(c, s, r) && r.faults.canceled && !r.faults.cancelTruncate &&
    (s.disk.Some? || !(r.faults.mkdir || r.faults.open)) && exists k :: had <= k < start && k < |src| && src[k] != 0
  }

  lemma TruncatedIsAPrefix(content: Bytes, src: Bytes, size: nat)
    requires content <= src && size <= |src|
    ensures Truncated(content, size) <= src <==> forall k :: |content| <= k < size ==> src[k] == 0
  {
  }

  lemma CancelKeepsExactly(c: Session, src: Bytes, s: State, r: Request)
    requires Holds(c, src, s) && Honest(c, src, r) && Reaches(c, s, r)
    requires !Put(s.disk, r.index > 0, Start(c, r.index), r.body, r.faults).1
    ensures Holds(c, src, Handle(c, s, r).0) <==> !FillsWrongly(c, src, s, r)
    ensures FillsWrongly(c, src, s, r) ==> Handle(c, s, r).0.disk.Some? && !(Handle(c, s, r).0.disk.value <= src)
  {
    hide IsLastChunk, ExpectedLength, Truncated;
    var start, f := Start(c, r.index), r.faults;
    PutKeepsPrefix(src, s.disk, r.index > 0, start, r.body, f);
    var disk := Put(s.disk, r.index > 0, start, r.body, f).0;
    if disk.Some? {
      TruncatedIsAPrefix(disk.value, src, start);
      FailedPutLength(c, s.disk, r.index, r.body, f);
    }
  }

  /** A failing Put shortens no file below the start. */
  lemma FailedPutLength(c: Session, disk: Option<Bytes>, index: nat, body: Bytes, f: Faults)
    ensures var start, had := Start(c, index), if disk.Some? then |disk.value| else 0;
            var (after, ok) := Put(disk, index > 0, start, body, f);
            !ok && after.Some? ==> if had < start then |after.value| == had else |after.value| >= start
    ensures var (after, ok) := Put(disk, index > 0, Start(c, index), body, f);
            !ok && Start(c, index) > 0 ==> (after.Some? <==> disk.Some? || !(f.mkdir || f.open))
  {
  }

  /** One request keeps the file on disk a prefix of the source exactly if it is not a canceled one that fills up the
      file with wrong zeros. */
  lemma HandleKeepsExactly(c: Session, src: Bytes, s: State, r: Request)
    requires Holds(c, src, s) && Honest(c, src, r)
    ensures Holds(c, src, Handle(c, s, r).0) <==> !FillsWrongly(c, src, s, r)
    ensures FillsWrongly(c, src, s, r) ==> Handle(c, s, r).0.disk.Some? && !(Handle(c, s, r).0.disk.value <= src)
  {
    if Reaches(c, s, r) {
      var start := Start(c, r.index);
      PutKeepsPrefix(src, s.disk, r.index > 0, start, r.body, r.faults);
      var (disk, ok) := Put(s.disk, r.index > 0, start, r.body, r.faults);
      if !ok {
        CancelKeepsExactly(c, src, s, r);
      } else {
        GapFailsPut(c, s, r);
        hide Put, AfterUpload, IsLastChunk, ExpectedLength, Start;
        if IsLastChunk(c, r.index) {
          LastChunkEndsTheFile(c, r.index);
        }
        AfterUploadKeeps(c, src, s.(disk := disk), r.index, |r.body|, r.faults);
      }
    }
  }

  lemma GapFailsPut(c: Session, s: State, r: Request)
    requires Put(s.disk, r.index > 0, Start(c, r.index), r.body, r.faults).1
    ensures (if s.disk.Some? then |s.disk.value| else 0) >= Start(c, r.index)
  {
  }

  function Run(c: Session, s: State, rs: seq<Request>): State
    decreases rs
  {
    if rs == [] then s else Run(c, Handle(c, s, rs[0]).0, rs[1..])
  }

  /** The state after the first n requests. */
  function At(c: Session, s: State, rs: seq<Request>, n: nat): State
    requires n <= |rs|
  {
    Run(c, s, rs[..n])
  }

  lemma {:induction false} RunAppend(c: Session, s: State, rs: seq<Request>, r: Request)
    ensures Run(c, s, rs + [r]) == Handle(c, Run(c, s, rs), r).0
    decreases rs
  {
    if rs == [] {
      assert rs + [r] == [r] && [r][1..] == [];
    } else {
      assert (rs + [r])[0] == rs[0] && (rs + [r])[1..] == rs[1..] + [r];
      RunAppend(c, Handle(c, s, rs[0]).0, rs[1..], r);
    }
  }

  lemma AtNext(c: Session, s: State, rs: seq<Request>, n: nat)
    requires n < |rs|
    ensures At(c, s, rs, n + 1) == Handle(c, At(c, s, rs, n), rs[n]).0
  {
    assert rs[..n + 1] == rs[..n] + [rs[n]];
    RunAppend(c, s, rs[..n], rs[n]);
  }

  ghost predicate AllHonest(c: Session, src: Bytes, rs: seq<Request>) {
    forall i :: 0 <= i < |rs| ==> Honest(c, src, rs[i])
  }

  ghost predicate IsPrefix(src: Bytes, s: State) {
    s.disk.Some? ==> s.disk.value <= src
  }

  lemma {:induction false} RunsKeep(c: Session, src: Bytes, s: State, rs: seq<Request>, n: nat)
    requires Holds(c, src, s) && AllHonest(c, src, rs) && n <= |rs|
    requires forall m :: 0 <= m < n ==> !FillsWrongly(c, src, At(c, s, rs, m), rs[m]) || IsPrefix(src, At(c, s, rs, m + 1))
    ensures Holds(c, src, At(c, s, rs, n))
    ensures forall m :: 0 <= m < n ==> !FillsWrongly(c, src, At(c, s, rs, m), rs[m])
  {
    hide FillsWrongly, Holds, Handle, Honest;
    if n > 0 {
      RunsKeep(c, src, s, rs, n - 1);
      AtNext(c, s, rs, n - 1);
      assert Honest(c, src, rs[n - 1]);
      HandleKeepsExactly(c, src, At(c, s, rs, n - 1), rs[n - 1]);
    }
  }

  /** Over any sequence of chunks, sent in any order, repeated, rejected, broken at any point or canceled, the file on
      disk is always a prefix of the source exactly if no canceled request fills it up with wrong zeros. */
  lemma DiskIsAlwaysAPrefixExactly(c: Session, src: Bytes, storage: int, rs: seq<Request>)
    requires |src| == c.size < TWO_TO_THE_64 && AllHonest(c, src, rs)
    ensures (forall n :: 0 <= n <= |rs| ==> IsPrefix(src, At(c, Fresh(storage), rs, n))) <==>
            (forall n :: 0 <= n < |rs| ==> !FillsWrongly(c, src, At(c, Fresh(storage), rs, n), rs[n]))
  {
    var s := Fresh(storage);
    if forall n :: 0 <= n <= |rs| ==> IsPrefix(src, At(c, s, rs, n)) {
      RunsKeep(c, src, s, rs, |rs|);
    }
    if forall n :: 0 <= n < |rs| ==> !FillsWrongly(c, src, At(c, s, rs, n), rs[n]) {
      forall n | 0 <= n <= |rs| ensures IsPrefix(src, At(c, s, rs, n)) {
        RunsKeep(c, src, s, rs, n);
      }
    }
  }

  /** In such a run, once the placeholder has become a file it is the whole source, of the size that the row says. */
  lemma FinishedFileIsTheSource(c: Session, src: Bytes, storage: int, rs: seq<Request>)
    requires |src| == c.size < TWO_TO_THE_64 && AllHonest(c, src, rs)
    requires forall n :: 0 <= n < |rs| ==> !FillsWrongly(c, src, At(c, Fresh(storage), rs, n), rs[n])
    ensures var s := Run(c, Fresh(storage), rs);
            IsPrefix(src, s) && (!s.uploading ==> s.disk == Some(src) && s.rowSize == |src|)
  {
    assert rs[..|rs|] == rs;
    RunsKeep(c, src, Fresh(storage), rs, |rs|);
  }

  // ---------- the owner's storage ----------

  /** The size was not stored because the commit failed, but the row in hand has it: putting the old size back then
      charges a change that the table never made. */
  predicate ChargesTwice(c: Session, s: State, r: Request) {
    var start, f := Start(c, r.index), r.faults;
    Reaches(c, s, r) && Put(s.disk, r.index > 0, start, r.body, f).1 && f.update == CommitFailed &&
    !f.undoTruncate && f.undoUpdate == Committed &&
    U64(start + r.contentLength.value) != start && U64(start + r.contentLength.value) != s.rowSize
  }

  /** What the owner is charged apart from this row. */
  function Owed(s: State): int {
    s.storage - s.rowSize
  }

  /** A request changes the owner's storage by exactly what it changes the row by, unless it puts back a size that was
      never stored. */
  lemma StorageFollowsRowExactly(c: Session, s: State, r: Request)
    ensures Owed(Handle(c, s, r).0) == Owed(s) <==> !ChargesTwice(c, s, r)
  {
    hide IsLastChunk, ExpectedLength, Start, Put, AfterUpload;
    if Reaches(c, s, r) && Put(s.disk, r.index > 0, Start(c, r.index), r.body, r.faults).1 {
      PutGivesAFile(s.disk, r.index > 0, Start(c, r.index), r.body, r.faults);
      var disk := Put(s.disk, r.index > 0, Start(c, r.index), r.body, r.faults).0;
      HooksFollowRow(c, s.(disk := disk), r.index, r.contentLength.value, r.faults);
    }
  }

  lemma HooksFollowRow(c: Session, s: State, index: nat, length: nat, f: Faults)
    requires s.disk.Some?
    ensures var value := U64(Start(c, index) + length);
            Owed(AfterUpload(c, s, index, length, f).0) == Owed(s) <==>
            !(f.update == CommitFailed && !f.undoTruncate && f.undoUpdate == Committed &&
              value != Start(c, index) && value != s.rowSize)
  {
    hide IsLastChunk, Start, Truncated;
  }

  lemma PutGivesAFile(disk: Option<Bytes>, overwrite: bool, start: nat, body: Bytes, f: Faults)
    ensures Put(disk, overwrite, start, body, f).1 ==> Put(disk, overwrite, start, body, f).0.Some?
  {
  }

  lemma {:induction false} OwedUpTo(c: Session, s: State, rs: seq<Request>, n: nat)
    requires n <= |rs| && forall m :: 0 <= m < n ==> !ChargesTwice(c, At(c, s, rs, m), rs[m])
    ensures Owed(At(c, s, rs, n)) == Owed(s)
  {
    hide ChargesTwice, Handle;
    if n > 0 {
      OwedUpTo(c, s, rs, n - 1);
      AtNext(c, s, rs, n - 1);
      StorageFollowsRowExactly(c, At(c, s, rs, n - 1), rs[n - 1]);
    }
  }

  /** Over any sequence of requests the storage follows the row exactly if no request puts back a size that was never
      stored. */
  lemma StorageIsConservedExactly(c: Session, s: State, rs: seq<Request>)
    ensures (forall n :: 0 <= n <= |rs| ==> Owed(At(c, s, rs, n)) == Owed(s)) <==>
            (forall n :: 0 <= n < |rs| ==> !ChargesTwice(c, At(c, s, rs, n), rs[n]))
  {
    hide ChargesTwice, Handle;
    if forall n :: 0 <= n <= |rs| ==> Owed(At(c, s, rs, n)) == Owed(s) {
      forall n | 0 <= n < |rs| ensures !ChargesTwice(c, At(c, s, rs, n), rs[n]) {
        AtNext(c, s, rs, n);
        StorageFollowsRowExactly(c, At(c, s, rs, n), rs[n]);
      }
    }
    if forall n :: 0 <= n < |rs| ==> !ChargesTwice(c, At(c, s, rs, n), rs[n]) {
      forall n | 0 <= n <= |rs| ensures Owed(At(c, s, rs, n)) == Owed(s) {
        OwedUpTo(c, s, rs, n);
      }
    }
  }

  /** A request never lifts the storage above the quota, whatever it carries and whatever fails. */
  lemma RequestKeepsQuota(c: Session, s: State, r: Request)
    requires s.rowSize <= c.size < 0x8000_0000_0000_0000 && c.chunkSize < 0x8000_0000_0000_0000
    ensures var s' := Handle(c, s, r).0;
            s'.rowSize <= c.size && s'.storage <= Max(s.storage, c.maxStorage)
  {
    hide IsLastChunk, ExpectedLength, Start, Put, AfterUpload;
    if Reaches(c, s, r) {
      ChunkEndsInTheFile(c, r.index);
      var disk := Put(s.disk, r.index > 0, Start(c, r.index), r.body, r.faults).0;
      HooksKeepQuota(c, s.(disk := disk), r.index, r.contentLength.value, r.faults);
    }
  }

  lemma HooksKeepQuota(c: Session, s: State, index: nat, length: nat, f: Faults)
    requires Start(c, index) <= s.rowSize <= c.size < TWO_TO_THE_64 && Start(c, index) + length <= c.size
    requires length <= Remaining(c, s)
    ensures var s' := AfterUpload(c, s, index, length, f).0;
            s'.rowSize <= c.size && s'.storage <= Max(s.storage, c.maxStorage)
  {
    hide IsLastChunk, Start, Truncated;
  }

  lemma ChunkEndsInTheFile(c: Session, index: nat)
    requires Start(c, index) <= c.size < 0x8000_0000_0000_0000 && c.chunkSize < 0x8000_0000_0000_0000
    ensures Start(c, index) + ExpectedLength(c, index) <= c.size
  {
    assert (index + 1) * c.chunkSize == index * c.chunkSize + c.chunkSize;
    AddModulo(index * c.chunkSize, c.chunkSize);
  }

  lemma AddModulo(a: nat, b: nat)
    requires U64(a) + b < TWO_TO_THE_64
    ensures U64(a + b) == U64(a) + b
  {
  }

  lemma {:induction false} RunsKeepQuota(c: Session, s: State, rs: seq<Request>)
    requires s.rowSize <= c.size < 0x8000_0000_0000_0000 && c.chunkSize < 0x8000_0000_0000_0000
    ensures Run(c, s, rs).storage <= Max(s.storage, c.maxStorage)
    decreases rs
  {
    if rs != [] {
      RequestKeepsQuota(c, s, rs[0]);
      RunsKeepQuota(c, Handle(c, s, rs[0]).0, rs[1..]);
    }
  }

  // ---------- when a chunk is accepted ----------

  predicate NoFault(c: Session, s: State, r: Request) {
    var f := r.faults;
    !f.mkdir && !f.open && !f.stat && !f.broken && f.update == Committed && !(f.pop && IsLastChunk(c, r.index)) &&
    !(s.disk.Some? && |s.disk.value| > Start(c, r.index) && (f.truncate || f.reopen))
  }

  /** A chunk is accepted exactly when it passes the checks, nothing fails, the disk has everything before it,
      and - for the first chunk - the disk has nothing yet. */
  lemma AcceptedExactly(c: Session, s: State, r: Request)
    ensures Handle(c, s, r).1 == Accepted <==>
              Reaches(c, s, r) && NoFault(c, s, r) &&
              if s.disk.None? then Start(c, r.index) == 0 else r.index > 0 && Start(c, r.index) <= |s.disk.value|
  {
    hide IsLastChunk, ExpectedLength, Start, Truncated, U64;
  }

  /** An accepted chunk ends the disk and the row where the chunk ends, and is charged to the owner. */
  lemma AcceptedChunkIsStored(c: Session, src: Bytes, s: State, r: Request)
    requires Holds(c, src, s) && Honest(c, src, r) && Handle(c, s, r).1 == Accepted
    ensures var s' := Handle(c, s, r).0;
            var end := Start(c, r.index) + |r.body|;
            end <= |src| && s'.disk == Some(src[..end]) && s'.rowSize == end &&
            (s'.uploading <==> !IsLastChunk(c, r.index))
  {
    hide IsLastChunk, ExpectedLength, Start, Put, AfterUpload, Remaining;
    var start := Start(c, r.index);
    PutKeepsPrefix(src, s.disk, r.index > 0, start, r.body, r.faults);
    AfterUploadDone(c, s.(disk := Put(s.disk, r.index > 0, start, r.body, r.faults).0), r.index, |r.body|, r.faults);
  }

  lemma AfterUploadDone(c: Session, s: State, index: nat, length: nat, f: Faults)
    requires s.uploading && Start(c, index) + length < TWO_TO_THE_64
    ensures var (s', done) := AfterUpload(c, s, index, length, f);
            done ==> s'.disk == s.disk && s'.rowSize == Start(c, index) + length && (s'.uploading <==> !IsLastChunk(c, index))
  {
    hide IsLastChunk, Start;
  }

  /** There is a file, but the row says that nothing has arrived. */
  predicate Stuck(s: State) {
    s.disk.Some? && s.rowSize == 0
  }

  /** A first request that fails leaves the upload stuck exactly if the file was opened, and the hooks did not leave a new
      size in the row: they do so if they stored it, a later one failed, and the undoing failed as well. */
  lemma FirstChunkFailsExactly(c: Session, storage: int, r: Request)
    requires Reaches(c, Fresh(storage), r) && r.index == 0 && Handle(c, Fresh(storage), r).1 != Accepted
    ensures var f := r.faults;
            Stuck(Handle(c, Fresh(storage), r).0) <==>
            !f.mkdir && !f.open &&
            (f.stat || f.broken || f.update != Committed || U64(r.contentLength.value) == 0 ||
             (!f.undoTruncate && f.undoUpdate == Committed))
  {
    assert Start(c, 0) == 0;
    hide IsLastChunk, ExpectedLength, U64, Truncated;
  }

  /** The first chunk has no second try: once there is a file on disk while the row still has size zero, every request
      for offset zero with index zero is refused because the file exists, and every other one because it is ahead of
      the row - so no request is ever accepted. */
  lemma {:induction false} BrokenFirstChunkIsFinal(c: Session, s: State, rs: seq<Request>)
    requires Stuck(s)
    requires forall i :: 0 <= i < |rs| ==> rs[i].index == 0 || c.chunkSize == 0 || Start(c, rs[i].index) > 0
    ensures Stuck(Run(c, s, rs)) && Run(c, s, rs) == s.(disk := Run(c, s, rs).disk)
    ensures forall n :: 0 <= n < |rs| ==> Handle(c, At(c, s, rs, n), rs[n]).1 != Accepted
    decreases rs
  {
    if rs != [] {
      var next := Handle(c, s, rs[0]).0;
      assert Stuck(next) && next == s.(disk := next.disk);
      BrokenFirstChunkIsFinal(c, next, rs[1..]);
      forall n | 0 <= n < |rs| ensures Handle(c, At(c, s, rs, n), rs[n]).1 != Accepted {
        assert rs[..0] == [];
        if n > 0 {
          assert rs[..n][0] == rs[0] && rs[..n][1..] == rs[1..][..n - 1];
          assert At(c, s, rs, n) == At(c, next, rs[1..], n - 1);
        }
      }
    }
  }

  // ---------- two runs that fail ----------

  function Sent(index: nat, body: Bytes): Request {
    Request(index, Some(|body|), body, NO_FAULTS)
  }

  const THREE := Session(3, 1, 100)

  const CANCELED_RUN := [
    Sent(0, [1]), Sent(1, [2]),
    Sent(1, [2]).(faults := NO_FAULTS.(broken := true)),
    Sent(2, [3]).(faults := NO_FAULTS.(canceled := true)),
    Sent(2, [3])]

  /** Two chunks of one byte are accepted, the second is sent again and breaks, the third is canceled: the file is
      filled up with a zero, and the next try of the third chunk finishes it. */
  lemma CanceledChunkCorrupts()
    ensures AllHonest(THREE, [1, 2, 3], CANCELED_RUN)
    ensures Run(THREE, Fresh(0), CANCELED_RUN) == State(Some([1, 0, 3]), 3, false, false, 3)
  {
    ChunksArrive();
    SecondChunkBreaks();
    ThirdChunkArrives();
    CanceledRunIsHonest();
    hide Handle, AllHonest;
    StatesOfRun(THREE, [Fresh(0), State(Some([1]), 1, true, true, 1), State(Some([1, 2]), 2, true, true, 2),
                        State(Some([1]), 2, true, true, 2), State(Some([1, 0]), 2, true, true, 2),
                        State(Some([1, 0, 3]), 3, false, false, 3)], CANCELED_RUN);
  }

  lemma SizesOfThree()
    ensures Start(THREE, 0) == 0 && Start(THREE, 1) == 1 && Start(THREE, 2) == 2
    ensures !IsLastChunk(THREE, 0) && !IsLastChunk(THREE, 1) && IsLastChunk(THREE, 2)
    ensures forall i: nat :: i <= 2 ==> ExpectedLength(THREE, i) == 1
  {
  }

  lemma CanceledRunIsHonest()
    ensures AllHonest(THREE, [1, 2, 3], CANCELED_RUN)
  {
    SizesOfThree();
    hide Start, ExpectedLength;
  }

  lemma ChunksArrive()
    ensures Handle(THREE, Fresh(0), CANCELED_RUN[0]).0 == State(Some([1]), 1, true, true, 1)
    ensures Handle(THREE, State(Some([1]), 1, true, true, 1), CANCELED_RUN[1]).0 == State(Some([1, 2]), 2, true, true, 2)
  {
    FirstArrives();
    SecondArrives();
    hide Handle;
  }

  lemma FirstArrives()
    ensures Handle(THREE, Fresh(0), Sent(0, [1])).0 == State(Some([1]), 1, true, true, 1)
  {
    SizesOfThree();
    assert U64(1) == 1;
    hide Start, IsLastChunk, ExpectedLength, U64;
    var none: Bytes, one: Bytes := [], [1];
    assert Put(None, false, 0, one, NO_FAULTS) == (Some(one), true) by {
      assert none[..0] + one == one;
    }
    hide Put;
    assert AfterUpload(THREE, State(Some(one), 0, true, true, 0), 0, 1, NO_FAULTS) == (State(Some(one), 1, true, true, 1), true);
    assert Remaining(THREE, Fresh(0)) == 100;
    hide AfterUpload, Remaining;
  }

  lemma SecondArrives()
    ensures Handle(THREE, State(Some([1]), 1, true, true, 1), Sent(1, [2])).0 == State(Some([1, 2]), 2, true, true, 2)
  {
    SizesOfThree();
    assert U64(2) == 2;
    hide Start, IsLastChunk, ExpectedLength, U64;
    var one: Bytes := [1];
    assert Put(Some(one), true, 1, [2], NO_FAULTS) == (Some([1, 2]), true) by {
      assert one[..1] + [2] == [1, 2];
    }
    hide Put;
    assert AfterUpload(THREE, State(Some([1, 2]), 1, true, true, 1), 1, 1, NO_FAULTS) ==
           (State(Some([1, 2]), 2, true, true, 2), true);
    assert Remaining(THREE, State(Some(one), 1, true, true, 1)) == 99;
    hide AfterUpload, Remaining;
  }

  lemma SecondChunkBreaks()
    ensures Handle(THREE, State(Some([1, 2]), 2, true, true, 2), CANCELED_RUN[2]).0 == State(Some([1]), 2, true, true, 2)
    ensures Handle(THREE, State(Some([1]), 2, true, true, 2), CANCELED_RUN[3]).0 == State(Some([1, 0]), 2, true, true, 2)
  {
    SizesOfThree();
    hide Start, IsLastChunk, ExpectedLength;
    var one: Bytes := [1];
    assert [1, 2][..1] + [2][..0] == one && Truncated(one, 2) == [1, 0];
  }

  lemma ThirdChunkArrives()
    ensures Handle(THREE, State(Some([1, 0]), 2, true, true, 2), CANCELED_RUN[4]).0 == State(Some([1, 0, 3]), 3, false, false, 3)
  {
    SizesOfThree();
    hide Start, IsLastChunk, ExpectedLength;
    assert [1, 0][..2] + [3] == [1, 0, 3];
  }

  lemma {:induction false} StatesOfRun(c: Session, states: seq<State>, rs: seq<Request>)
    requires |states| == |rs| + 1 && forall i :: 0 <= i < |rs| ==> Handle(c, states[i], rs[i]).0 == states[i + 1]
    ensures Run(c, states[0], rs) == states[|rs|]
    decreases rs
  {
    if rs != [] {
      StatesOfRun(c, states[1..], rs[1..]);
    }
  }

  /** A commit that fails lets the owner's storage drop by a chunk that was never charged. */
  lemma FailedCommitChargesTwice()
    ensures var c, r := Session(2, 1, 100), Sent(0, [7]).(faults := NO_FAULTS.(update := CommitFailed));
            Handle(c, Fresh(10), r) == (State(Some([]), 0, true, true, 9), UploadFailed)
  {
  }

  // ---------- the sender's chunks fill the file ----------

  /** Sender and receiver agree on where each chunk begins, how long it is and which one is the last. */
  lemma SenderAndReceiverAgree(c: Session, i: nat)
    requires c.size < 0x8000_0000_0000_0000 && c.chunkSize < 0x8000_0000_0000_0000
    requires i < NewLayout(c.size, c.chunkSize).num
    ensures var l := NewLayout(c.size, c.chunkSize);
            Start(c, i) == l.Start(i) && ExpectedLength(c, i) == l.Length(i) && (IsLastChunk(c, i) <==> l.IsLast(i)) &&
            (c.chunkSize == 0 ==> i == 0)
  {
    var l := NewLayout(c.size, c.chunkSize);
    ChunksTile(c.size, c.chunkSize);
    ChunkEnd(l, i);
    assert TilesAt(l, i);
    assert !l.IsLast(i) ==> l.Length(i) == l.chunkSize;
    if !l.IsLast(i) {
      ChunkEnd(l, i + 1);
      assert TilesAt(l, i + 1);
    }
    if c.chunkSize == 0 {
      OneChunk(c.size);
      assert l.Start(i) == 0 by { assert i == 0; }
    } else {
      StartsWithoutWrapping(c, l, i);
      hide NewLayout, Tiles, Layout.Start, Layout.Length;
      assert IsLastChunk(c, i) <==> l.Start(i) + l.chunkSize >= c.size;
    }
  }

  lemma OneChunk(size: nat)
    ensures NewLayout(size, 0).num == 1
  {
  }

  lemma StartsWithoutWrapping(c: Session, l: Layout, i: nat)
    requires l.chunkSize == c.chunkSize < 0x8000_0000_0000_0000 && l.Start(i) < 0x8000_0000_0000_0000
    ensures Start(c, i) == l.Start(i)
    ensures U64((i + 1) * c.chunkSize) == l.Start(i + 1) == l.Start(i) + l.chunkSize
  {
  }

  /** What the sender transmits for a chunk of its layout, with nothing failing. */
  ghost function SentChunk(c: Session, src: Bytes, i: nat): Request
    requires i < NewLayout(|src|, c.chunkSize).num
  {
    ChunksTile(|src|, c.chunkSize);
    var body := ChunkOf(src, NewLayout(|src|, c.chunkSize), i);
    Request(i, Some(|body|), body, NO_FAULTS)
  }

  ghost function SentChunks(c: Session, src: Bytes, n: nat): (rs: seq<Request>)
    requires n <= NewLayout(|src|, c.chunkSize).num
    ensures |rs| == n && forall i :: 0 <= i < n ==> rs[i] == SentChunk(c, src, i)
  {
    if n == 0 then [] else SentChunks(c, src, n - 1) + [SentChunk(c, src, n - 1)]
  }

  /** The state after the first n chunks of an undisturbed upload. */
  ghost predicate After(c: Session, src: Bytes, storage: int, n: nat, s: State)
    requires n <= NewLayout(|src|, c.chunkSize).num
  {
    var l := NewLayout(|src|, c.chunkSize);
    if n == 0 then s == Fresh(storage)
    else if n == l.num then s == State(Some(src), |src|, false, false, storage + |src|)
    else l.Start(n) <= |src| && s == State(Some(src[..l.Start(n)]), l.Start(n), true, true, storage + l.Start(n))
  }

  lemma NextStart(l: Layout, n: nat)
    requires Tiles(l) && n < l.num
    ensures l.Start(0) == 0 && (n + 1 < l.num ==> l.Start(n + 1) == l.Start(n) + l.Length(n) <= l.size)
    ensures l.IsLast(n) <==> n + 1 == l.num
  {
    assert TilesAt(l, n);
    if n + 1 < l.num {
      ChunkEnd(l, n + 1);
    }
  }

  lemma ChunkArrives(c: Session, src: Bytes, storage: int, n: nat, s: State)
    requires |src| == c.size < 0x8000_0000_0000_0000 && c.chunkSize < 0x8000_0000_0000_0000
    requires n < NewLayout(|src|, c.chunkSize).num && After(c, src, storage, n, s)
    requires storage + |src| <= c.maxStorage
    ensures Handle(c, s, SentChunk(c, src, n)).1 == Accepted
    ensures After(c, src, storage, n + 1, Handle(c, s, SentChunk(c, src, n)).0)
  {
    var l, r := NewLayout(|src|, c.chunkSize), SentChunk(c, src, n);
    ChunksTile(|src|, c.chunkSize);
    ChunkEnd(l, n);
    NextStart(l, n);
    SenderAndReceiverAgree(c, n);
    hide NewLayout, IsLastChunk, ExpectedLength, Start, Tiles, Layout.Start, Layout.Length, Handle;
    assert src[..|src|] == src;
    AcceptedExactly(c, s, r);
    AcceptedChunkIsStored(c, src, s, r);
    HandleKeepsExactly(c, src, s, r);
    StorageFollowsRowExactly(c, s, r);
  }

  /** An undisturbed upload of the sender's chunks, in order and within the quota, is accepted chunk by chunk
      and turns the placeholder into the file. */
  lemma {:induction false} SenderFillsTheFile(c: Session, src: Bytes, storage: int, n: nat)
    requires |src| == c.size < 0x8000_0000_0000_0000 && c.chunkSize < 0x8000_0000_0000_0000
    requires n <= NewLayout(|src|, c.chunkSize).num && storage + |src| <= c.maxStorage
    ensures After(c, src, storage, n, Run(c, Fresh(storage), SentChunks(c, src, n)))
  {
    if n > 0 {
      SenderFillsTheFile(c, src, storage, n - 1);
      ChunkArrives(c, src, storage, n - 1, Run(c, Fresh(storage), SentChunks(c, src, n - 1)));
      RunAppend(c, Fresh(storage), SentChunks(c, src, n - 1), SentChunk(c, src, n - 1));
    }
  }
}
