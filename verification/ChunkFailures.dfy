/** What a chunk that is refused or that fails leaves behind, in lengths and sizes: the file on disk, the row and the
    storage after each kind of failure, and when the same chunk can be sent again. */
module ChunkFailures {
  import opened Common
  import opened ChunkGroup
  import opened ChunkReceiver

  ghost function OnDisk(s: State): nat {
    if s.disk.Some? then |s.disk.value| else 0
  }

  /** The checks in their order: session, index and row, length, quota.  A request that fails one of them changes
      nothing, and every other request is answered by what happens to its bytes. */
  lemma RefusedExactly(c: Session, s: State, r: Request)
    ensures var start := r.index * c.chunkSize % 0x1_0000_0000_0000_0000;
            var (s', reply) := Handle(c, s, r);
            var expired := !s.cached || !s.uploading;
            var ahead := (c.chunkSize == 0 && r.index > 0) || s.rowSize < start;
            var wrong := r.contentLength != Some(ExpectedLength(c, r.index));
            var tooMuch := ExpectedLength(c, r.index) > Max(0, c.maxStorage - s.storage);
            (reply == SessionExpired <==> expired) &&
            (reply == InvalidChunkIndex <==> !expired && ahead) &&
            (reply == InvalidContentLength <==> !expired && !ahead && wrong) &&
            (!expired && !ahead && !wrong && tooMuch ==> reply == UploadFailed) &&
            (expired || ahead || wrong || tooMuch ==> s' == s)
    ensures Reaches(c, s, r) <==>
              s.cached && s.uploading && !(c.chunkSize == 0 && r.index > 0) &&
              r.index * c.chunkSize % 0x1_0000_0000_0000_0000 <= s.rowSize &&
              r.contentLength == Some(ExpectedLength(c, r.index)) &&
              ExpectedLength(c, r.index) <= Max(0, c.maxStorage - s.storage)
  {
    hide ExpectedLength, Put, AfterUpload;
  }

  /** The bytes of the request are all stored. */
  ghost predicate Stores(c: Session, s: State, r: Request) {
    var start, f := Start(c, r.index), r.faults;
    (r.index > 0 || s.disk.None?) && start <= OnDisk(s) && !f.mkdir && !f.open && !f.stat && !f.broken &&
    !(OnDisk(s) > start && (f.truncate || f.reopen))
  }

  lemma StoresExactly(c: Session, src: Bytes, s: State, r: Request)
    requires Holds(c, src, s) && Honest(c, src, r) && Reaches(c, s, r)
    ensures var (disk, ok) := Put(s.disk, r.index > 0, Start(c, r.index), r.body, r.faults);
            (ok <==> Stores(c, s, r)) &&
            (ok ==> Start(c, r.index) + |r.body| <= |src| && disk == Some(src[..Start(c, r.index) + |r.body|]))
  {
    hide IsLastChunk, ExpectedLength, Start;
    PutKeepsPrefix(src, s.disk, r.index > 0, Start(c, r.index), r.body, r.faults);
  }

  /** A chunk whose bytes are stored but whose hooks fail - the size is not committed, or the last chunk cannot pop its
      placeholder - is cut off again where it starts, and the row is put back to there; each of the two stays away if
      it fails itself. */
  lemma FailedHooksUndo(c: Session, src: Bytes, s: State, r: Request)
    requires Holds(c, src, s) && Honest(c, src, r) && Reaches(c, s, r) && Stores(c, s, r)
    ensures var (s', reply) := Handle(c, s, r);
            var start, end, f := Start(c, r.index), Start(c, r.index) + |r.body|, r.faults;
            var undone := !f.undoTruncate && f.undoUpdate == Committed;
            end <= |src| &&
            (reply == Accepted <==> f.update == Committed && !(f.pop && IsLastChunk(c, r.index))) &&
            (reply != Accepted ==>
               reply == UploadFailed && s'.uploading && s'.cached &&
               s'.disk == Some(src[..if f.undoTruncate then end else start]) &&
               (f.update == Committed ==>
                  s'.rowSize == (if undone then start else end) &&
                  s'.storage == s.storage + s'.rowSize - s.rowSize) &&
               (f.update == RolledBack ==>
                  s'.rowSize == (if undone then start else s.rowSize) &&
                  s'.storage == s.storage + s'.rowSize - s.rowSize) &&
               (f.update == CommitFailed ==>
                  s'.rowSize == (if undone && s.rowSize == end then start else s.rowSize) &&
                  s'.storage == s.storage - if undone then |r.body| else 0))
  {
    var start := Start(c, r.index);
    StoresExactly(c, src, s, r);
    var disk := Put(s.disk, r.index > 0, start, r.body, r.faults).0;
    hide IsLastChunk, ExpectedLength, Start, Put, Stores, Holds, Honest;
    assert |src| < TWO_TO_THE_64 by { SizeFits(c, src, s); }
    HooksUndo(c, src, s.(disk := disk), r.index, |r.body|, r.faults);
  }

  lemma SizeFits(c: Session, src: Bytes, s: State)
    requires Holds(c, src, s)
    ensures |src| < TWO_TO_THE_64
  {
  }

  lemma HooksUndo(c: Session, src: Bytes, s: State, index: nat, length: nat, f: Faults)
    requires Start(c, index) + length <= |src| < TWO_TO_THE_64 && s.uploading && s.cached
    requires s.disk == Some(src[..Start(c, index) + length])
    ensures var (s', done) := AfterUpload(c, s, index, length, f);
            var start, end := Start(c, index), Start(c, index) + length;
            var undone := !f.undoTruncate && f.undoUpdate == Committed;
            (done <==> f.update == Committed && !(f.pop && IsLastChunk(c, index))) &&
            (!done ==>
               s'.uploading && s'.cached && s'.disk == Some(src[..if f.undoTruncate then end else start]) &&
               (f.update == Committed ==>
                  s'.rowSize == (if undone then start else end) && s'.storage == s.storage + s'.rowSize - s.rowSize) &&
               (f.update == RolledBack ==>
                  s'.rowSize == (if undone then start else s.rowSize) && s'.storage == s.storage + s'.rowSize - s.rowSize) &&
               (f.update == CommitFailed ==>
                  s'.rowSize == (if undone && s.rowSize == end then start else s.rowSize) &&
                  s'.storage == s.storage - if undone then length else 0))
  {
    hide IsLastChunk, Start;
    var start := Start(c, index);
    assert src[..start + length][..start] == src[..start];
    assert U64(start + length) == start + length;
  }

  /** The retry law: a chunk other than the first that failed in its hooks is accepted when it is sent again with nothing
      failing, as long as the quota allows it; then disk and row are where they would have been. */
  lemma RetryAfterHooks(c: Session, src: Bytes, s: State, r: Request)
    requires Holds(c, src, s) && Honest(c, src, r) && Reaches(c, s, r) && Stores(c, s, r) && r.index > 0
    requires Handle(c, s, r).1 != Accepted
    ensures var s' := Handle(c, s, r).0;
            var (s'', reply) := Handle(c, s', r.(faults := NO_FAULTS));
            (reply == Accepted <==> |r.body| <= c.maxStorage - s'.storage || r.body == []) &&
            (reply == Accepted ==>
               s''.disk == Some(src[..Start(c, r.index) + |r.body|]) && s''.rowSize == Start(c, r.index) + |r.body|)
  {
    var s', again := Handle(c, s, r).0, r.(faults := NO_FAULTS);
    FailedHooksUndo(c, src, s, r);
    HandleKeepsExactly(c, src, s, r);
    NoGapWhenStored(c, src, s, r);
    AcceptedExactly(c, s', again);
    assert ExpectedLength(c, r.index) == |r.body|;
    if Handle(c, s', again).1 == Accepted {
      AcceptedChunkIsStored(c, src, s', again);
    }
    hide Handle, ExpectedLength, IsLastChunk, Start, Holds, Honest, Stores;
  }

  lemma NoGapWhenStored(c: Session, src: Bytes, s: State, r: Request)
    requires Holds(c, src, s) && Stores(c, s, r)
    ensures !FillsWrongly(c, src, s, r)
  {
  }

  /** How much of the source the file has after a chunk whose bytes could not all be stored. */
  ghost function LeftOnDisk(c: Session, s: State, r: Request): nat {
    var start, had, f := Start(c, r.index), OnDisk(s), r.faults;
    if (r.index == 0 && s.disk.Some?) || f.mkdir || f.open || f.stat || had < start || (had > start && f.truncate) then had
    else if had > start && f.reopen then start
    else start + Min(f.copied, |r.body|)
  }

  /** So many bytes: those of the source as far as they were there, and zeros after these. */
  ghost predicate PrefixOrZeros(src: Bytes, had: nat, size: nat, content: Bytes)
    requires had <= |src|
  {
    |content| == size && forall k :: 0 <= k < size ==> content[k] == if k < had then src[k] else 0
  }

  /** A chunk that fails before its hooks leaves row, session and storage alone.  The file keeps what it had, is cut off
      where the chunk starts, or has the part of the chunk that was copied; if the request was canceled, it is then
      exactly as long as the start of the chunk. */
  lemma FailedPutLeaves(c: Session, src: Bytes, s: State, r: Request)
    requires Holds(c, src, s) && Honest(c, src, r) && Reaches(c, s, r) && !Stores(c, s, r)
    ensures var (s', reply) := Handle(c, s, r);
            var f := r.faults;
            reply == UploadFailed && s' == s.(disk := s'.disk) &&
            (s'.disk.Some? <==> s.disk.Some? || !(f.mkdir || f.open)) &&
            (s'.disk.Some? ==>
               LeftOnDisk(c, s, r) <= |src| &&
               if f.canceled && !f.cancelTruncate then PrefixOrZeros(src, LeftOnDisk(c, s, r), Start(c, r.index), s'.disk.value)
               else s'.disk.value == src[..LeftOnDisk(c, s, r)])
  {
    StoresExactly(c, src, s, r);
    hide IsLastChunk, ExpectedLength, Start;
    PutLeaves(c, src, s, r);
  }

  lemma PutLeaves(c: Session, src: Bytes, s: State, r: Request)
    requires Start(c, r.index) + |r.body| <= |src| && r.body == src[Start(c, r.index)..Start(c, r.index) + |r.body|]
    requires (s.disk.Some? ==> s.disk.value <= src) && !Stores(c, s, r)
    ensures var disk := Put(s.disk, r.index > 0, Start(c, r.index), r.body, r.faults).0;
            (disk.Some? <==> s.disk.Some? || !(r.faults.mkdir || r.faults.open)) &&
            (disk.Some? ==> LeftOnDisk(c, s, r) <= |src| && disk.value == src[..LeftOnDisk(c, s, r)])
  {
    hide Start;
    var start := Start(c, r.index);
    var k := Min(r.faults.copied, |r.body|);
    assert src[..start] + r.body[..k] == src[..start + k];
    if s.disk.Some? {
      assert s.disk.value == src[..|s.disk.value|];
      if |s.disk.value| >= start {
        assert s.disk.value[..start] == src[..start];
      }
    } else {
      var none: Bytes := [];
      assert none == src[..0] && none[..0] == none;
    }
  }

  /** After such a failure the same chunk, sent again with nothing failing, is accepted exactly if the file has everything
      before it and - for the first chunk - there is no file. */
  lemma RetryAfterPut(c: Session, src: Bytes, s: State, r: Request)
    requires Holds(c, src, s) && Honest(c, src, r) && Reaches(c, s, r) && !Stores(c, s, r)
    ensures var (s', f) := (Handle(c, s, r).0, r.faults);
            Handle(c, s', r.(faults := NO_FAULTS)).1 == Accepted <==>
              if r.index == 0 then s.disk.None? && (f.mkdir || f.open)
              else OnDisk(s) >= Start(c, r.index) || (f.canceled && !f.cancelTruncate && s'.disk.Some?)
  {
    FailedPutLeaves(c, src, s, r);
    AcceptedExactly(c, Handle(c, s, r).0, r.(faults := NO_FAULTS));
    assert r.index == 0 ==> Start(c, r.index) == 0;
    hide Handle, IsLastChunk, ExpectedLength, Start;
  }
}
