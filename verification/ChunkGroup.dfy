/** The sending side of a chunked upload: how a file is cut into chunks, and how a chunk is retried from the
    seekable source or from a temporary copy. */
module ChunkGroup {
  import opened Common

  // ---------- the chunks of a file ----------

  datatype Layout = Layout(size: nat, chunkSize: nat, num: nat) {
    function Start(index: nat): nat {
      index * chunkSize
    }

    function Length(index: nat): int {
      if index == num - 1 then size - (num - 1) * chunkSize else chunkSize
    }

    predicate IsLast(index: nat) {
      index == num - 1
    }
  }

  /** NewChunkGroup; a chunk size of zero means one chunk. */
  function NewLayout(size: nat, chunkSize: nat): Layout {
    var c := if chunkSize == 0 then size else chunkSize;
    if size == 0 then Layout(0, c, 1)
    else Layout(size, c, size / c + if size % c != 0 then 1 else 0)
  }

  ghost predicate Tiles(l: Layout) {
    l.num >= 1 && forall i: nat :: i < l.num ==> TilesAt(l, i)
  }

  ghost predicate TilesAt(l: Layout, i: nat) {
    0 <= l.Length(i) <= l.chunkSize && (l.size > 0 ==> l.Length(i) > 0) &&
    l.Start(i) + l.Length(i) == if l.IsLast(i) then l.size else l.Start(i + 1)
  }

  /** The chunks follow one another without gap or overlap, begin at 0 and end with the file. */
  lemma ChunksTile(size: nat, chunkSize: nat)
    ensures Tiles(NewLayout(size, chunkSize))
  {
    var l := NewLayout(size, chunkSize);
    var c := l.chunkSize;
    if size > 0 {
      LastChunk(size, c, l.num);
    }
    forall i: nat | i < l.num ensures TilesAt(l, i) {
      Distribute(c, i);
    }
  }

  /** The number of chunks is the size divided by the chunk size, rounded up. */
  lemma LastChunk(size: nat, c: nat, num: int)
    requires c > 0 && size > 0 && num == size / c + if size % c != 0 then 1 else 0
    ensures num >= 1 && 0 < size - (num - 1) * c <= c
  {
    var q := size / c;
    assert size == q * c + size % c;
    Distribute(c, num - 1);
  }

  lemma Distribute(c: int, n: int)
    ensures (n + 1) * c == n * c + c && c * (n + 1) == c * n + c
  {
  }

  /** Every byte is in exactly one chunk. */
  lemma EveryByteInOneChunk(size: nat, chunkSize: nat, b: nat)
    requires b < size
    ensures var l := NewLayout(size, chunkSize);
            exists i: nat :: i < l.num && InChunk(l, i, b) &&
              forall j: nat :: j < l.num && InChunk(l, j, b) ==> j == i
  {
    var l := NewLayout(size, chunkSize);
    ChunksTile(size, chunkSize);
    var i := 0;
    while l.Start(i) + l.Length(i) <= b
      invariant i < l.num && l.Start(i) <= b
      decreases l.num - i
    {
      assert TilesAt(l, i);
      i := i + 1;
    }
    assert InChunk(l, i, b);
    forall j: nat | j < l.num && InChunk(l, j, b) ensures j == i {
      assert TilesAt(l, i) && TilesAt(l, j);
      if j < i {
        StartsAscend(l, j + 1, i);
      } else if i < j {
        StartsAscend(l, i + 1, j);
      }
    }
  }

  ghost predicate InChunk(l: Layout, i: nat, b: nat) {
    l.Start(i) <= b < l.Start(i) + l.Length(i)
  }

  lemma StartsAscend(l: Layout, i: nat, j: nat)
    requires i <= j
    ensures l.Start(i) <= l.Start(j)
  {
    assert l.Start(j) == l.Start(i) + (j - i) * l.chunkSize;
  }

  ghost function ChunkOf(data: Bytes, l: Layout, i: nat): Bytes
    requires Tiles(l) && |data| == l.size && i < l.num
  {
    ChunkEnd(l, i);
    data[l.Start(i)..l.Start(i) + l.Length(i)]
  }

  lemma ChunkEnd(l: Layout, i: nat)
    requires Tiles(l) && i < l.num
    ensures 0 <= l.Start(i) <= l.Start(i) + l.Length(i) <= l.size
  {
    hide Layout.Start, Layout.Length;
    var last: nat := l.num - 1;
    assert TilesAt(l, i) && TilesAt(l, last);
    if !l.IsLast(i) {
      StartsAscend(l, i + 1, last);
    }
  }

  // ---------- retrying ----------

  class Backoff {
    const max: int
    var tried: nat

    constructor (max: int)
      ensures this.max == max && tried == 0
    {
      this.max, tried := max, 0;
    }

    method Next() returns (again: bool)
      modifies this
      ensures tried == old(tried) + 1 && again == (tried <= max)
    {
      tried := tried + 1;
      again := tried <= max;
    }

    method Reset()
      modifies this
      ensures tried == 0
    {
      tried := 0;
    }
  }

  /** The file to send: a stream with a position. */
  class Source {
    const data: Bytes
    const seekable: bool
    var pos: nat

    constructor (data: Bytes, seekable: bool)
      ensures this.data == data && this.seekable == seekable && pos == 0
    {
      this.data, this.seekable, pos := data, seekable, 0;
    }

    /** Reads up to n bytes. */
    method Read(n: nat) returns (bytes: Bytes)
      requires pos <= |data|
      modifies `pos
      ensures pos == Min(old(pos) + n, |data|) && bytes == data[old(pos)..pos]
    {
      var end := Min(pos + n, |data|);
      bytes := data[pos..end];
      pos := end;
    }
  }

  datatype Outcome = Done | Failed | Canceled

  /** What the processor does on one attempt: it reads so many bytes, then returns.  `seekFails` is the
      outcome of seeking back after it. */
  datatype Attempt = Attempt(read: nat, outcome: Outcome, seekFails: bool)

  type Processor = nat -> Attempt

  /** A processor that returns without error has read its whole chunk. */
  ghost predicate ReadsAll(p: Processor, length: int) {
    forall n: nat :: p(n).outcome.Done? ==> p(n).read >= length
  }

  /** What decides about retries: whether the source can seek, whether it is copied, whether unread bytes are drained,
      the length of the chunk, and the limit of the backoff. */
  datatype Setting = Setting(seekable: bool, buffers: bool, drains: bool, length: int, max: int)

  /** After this attempt the chunk can be offered again: the source seeks back, or there is a whole copy - from an
      earlier attempt or, of the bytes that were read or drained, from this one. */
  predicate CanRepeat(g: Setting, a: Attempt, copied: bool) {
    if g.seekable then !a.seekFails else g.buffers && (copied || g.drains || a.read >= g.length)
  }

  /** The attempts from number n on succeed. */
  predicate SucceedsFrom(g: Setting, p: Processor, n: nat, tried: int, copied: bool)
    decreases Max(0, g.max - tried)
  {
    p(n).outcome.Done? ||
    (p(n).outcome.Failed? && CanRepeat(g, p(n), copied) && tried + 1 <= g.max && SucceedsFrom(g, p, n + 1, tried + 1, true))
  }

  /** The first k attempts fail without being canceled and can be repeated, and the next one is done. */
  predicate DoneAfter(g: Setting, p: Processor, k: nat) {
    p(k).outcome.Done? && forall j: nat :: j < k ==> p(j).outcome.Failed? && CanRepeat(g, p(j), j > 0)
  }

  lemma {:induction false} SuccessIsOneOf(g: Setting, p: Processor, n: nat)
    requires forall j: nat :: j < n ==> p(j).outcome.Failed? && CanRepeat(g, p(j), j > 0)
    ensures SucceedsFrom(g, p, n, n, n > 0) <==> exists k :: n <= k <= Max(n, g.max) && DoneAfter(g, p, k)
    decreases Max(0, g.max - n)
  {
    if p(n).outcome.Done? {
      assert DoneAfter(g, p, n);
    } else if p(n).outcome.Failed? && CanRepeat(g, p(n), n > 0) && n + 1 <= g.max {
      SuccessIsOneOf(g, p, n + 1);
    }
  }

  /** A chunk is sent exactly if one of the first Max+1 attempts is done and all before it can be repeated. */
  lemma SucceedsExactly(g: Setting, p: Processor)
    ensures SucceedsFrom(g, p, 0, 0, false) <==> exists k :: 0 <= k <= Max(0, g.max) && DoneAfter(g, p, k)
  {
    SuccessIsOneOf(g, p, 0);
  }

  /** The same in terms of the attempts: a source that can seek must seek back after each failure, and of one that cannot
      the first failure must leave a whole copy, of which the later ones live. */
  lemma RetriesExactly(g: Setting, p: Processor)
    ensures SucceedsFrom(g, p, 0, 0, false) <==>
              exists k: nat :: k <= Max(0, g.max) && p(k).outcome == Done && (forall j: nat :: j < k ==> p(j).outcome == Failed) &&
                (g.seekable ==> forall j: nat :: j < k ==> !p(j).seekFails) &&
                (!g.seekable && k > 0 ==> g.buffers && (g.drains || p(0).read >= g.length))
  {
    SucceedsExactly(g, p);
    forall k: nat ensures DoneAfter(g, p, k) <==>
                          p(k).outcome == Done && (forall j: nat :: j < k ==> p(j).outcome == Failed) &&
                          (g.seekable ==> forall j: nat :: j < k ==> !p(j).seekFails) &&
                          (!g.seekable && k > 0 ==> g.buffers && (g.drains || p(0).read >= g.length))
    {
      DoneAfterExactly(g, p, k);
    }
  }

  lemma DoneAfterExactly(g: Setting, p: Processor, k: nat)
    ensures DoneAfter(g, p, k) <==>
              p(k).outcome == Done && (forall j: nat :: j < k ==> p(j).outcome == Failed) &&
              (g.seekable ==> forall j: nat :: j < k ==> !p(j).seekFails) &&
              (!g.seekable && k > 0 ==> g.buffers && (g.drains || p(0).read >= g.length))
  {
    if k > 0 && DoneAfter(g, p, k) {
      assert CanRepeat(g, p(0), false);
    }
  }

  class ChunkGroup {
    const layout: Layout
    const file: Source
    const backoff: Backoff
    const enableRetryBuffer: bool
    const drains: bool
    var currentIndex: int
    var bufferTemp: Option<Bytes>

    /** `drains` is the negation of the setting reset_after_upload_failed. */
    constructor (file: Source, chunkSize: nat, backoff: Backoff, useBuffer: bool, drains: bool)
      requires file.pos == 0
      ensures Valid() && currentIndex == -1 && bufferTemp.None?
      ensures this.file == file && this.backoff == backoff && layout == NewLayout(|file.data|, chunkSize)
    {
      layout := NewLayout(|file.data|, chunkSize);
      this.file, this.backoff, enableRetryBuffer, this.drains := file, backoff, useBuffer, drains;
      currentIndex, bufferTemp := -1, None;
      new;
      ChunksTile(|file.data|, chunkSize);
    }

    ghost predicate Valid()
      reads this
    {
      Tiles(layout) && |file.data| == layout.size && -1 <= currentIndex <= layout.num
    }

    /** The current chunk can still be read from its start: from the source, or from the copy. */
    ghost predicate Ready()
      reads this, file
    {
      Valid() && 0 <= currentIndex < layout.num &&
      if bufferTemp.None? then file.pos == layout.Start(currentIndex)
      else !file.seekable && enableRetryBuffer && bufferTemp.value == Chunk() &&
           file.pos == layout.Start(currentIndex) + layout.Length(currentIndex)
    }

    ghost function Chunk(): Bytes
      requires Valid() && 0 <= currentIndex < layout.num
      reads this
    {
      ChunkOf(file.data, layout, currentIndex)
    }

    ghost function Now(): Setting
      requires 0 <= currentIndex
      reads this
    {
      Setting(file.seekable, enableRetryBuffer, drains, layout.Length(currentIndex), backoff.max)
    }

    method Next() returns (more: bool)
      requires Valid() && currentIndex < layout.num
      modifies this`currentIndex, backoff
      ensures Valid() && currentIndex == old(currentIndex) + 1 && backoff.tried == 0
      ensures more <==> currentIndex < layout.num
    {
      currentIndex := currentIndex + 1;
      backoff.Reset();
      more := currentIndex < layout.num;
    }

    predicate TempAvailable()
      requires 0 <= currentIndex
      reads this
    {
      bufferTemp.Some? && |bufferTemp.value| == layout.Length(currentIndex)
    }

    /** One attempt: the processor reads from the copy if that is whole, else from the source, which is then
        copied when the source cannot seek; what it leaves unread is drained if it fails. */
    method Offer(a: Attempt) returns (sent: Bytes)
      requires Ready()
      modifies this`bufferTemp, file`pos
      ensures Valid() && layout.Start(currentIndex) <= file.pos <= |file.data|
      ensures bufferTemp.Some? ==> !file.seekable && enableRetryBuffer
      ensures a.outcome.Done? && a.read >= layout.Length(currentIndex) ==>
                sent == Chunk() && file.pos == layout.Start(currentIndex) + layout.Length(currentIndex)
      ensures !file.seekable && TempAvailable() ==> Ready()
      ensures !file.seekable && !a.outcome.Done? ==> (TempAvailable() <==> old(Rereadable(a)))
    {
      hide Layout.Start, Layout.Length, Tiles;
      ChunkEnd(layout, currentIndex);
      var length := layout.Length(currentIndex);
      var tee := false;
      if enableRetryBuffer && bufferTemp.None? && !file.seekable {
        bufferTemp, tee := Some([]), true;
      }
      if TempAvailable() {
        return bufferTemp.value[..Min(a.read, length)];
      }
      sent := file.Read(Min(a.read, length));
      var copied := sent;
      if !a.outcome.Done? && enableRetryBuffer && drains {
        var rest := file.Read(length - |sent|);
        copied := sent + rest;
      }
      if tee {
        bufferTemp := Some(copied);
      }
    }

    /** A source that cannot seek can be read again if a copy was made, and the copy is whole: it was so
        before, or the processor read everything, or the rest was drained. */
    ghost predicate Rereadable(a: Attempt)
      requires Valid() && 0 <= currentIndex < layout.num
      reads this
    {
      enableRetryBuffer && (bufferTemp.Some? || drains || a.read >= layout.Length(currentIndex))
    }

    /** The attempts at the current chunk: it fails only when cancelled, when the chunk cannot be read again,
        or when the backoff is used up.  `n` counts the attempts before. */
    method Process(p: Processor, n: nat) returns (ok: bool, sent: Bytes, attempts: nat)
      requires Ready() && ReadsAll(p, layout.Length(currentIndex))
      modifies this`bufferTemp, file`pos, backoff
      ensures Valid() && bufferTemp.None?
      ensures ok ==> sent == Chunk() && file.pos == layout.Start(currentIndex) + layout.Length(currentIndex)
      ensures ok <==> SucceedsFrom(Now(), p, n, old(backoff.tried), old(bufferTemp.Some?))
      ensures 1 <= attempts && (ok <==> p(n + attempts - 1).outcome.Done?)
      ensures forall k: nat :: n <= k < n + attempts - 1 ==> p(k).outcome.Failed?
      ensures attempts <= 1 + Max(0, backoff.max - old(backoff.tried))
      ensures attempts > 1 ==> file.seekable || enableRetryBuffer
      ensures !ok ==>
                (p(n + attempts - 1).outcome.Canceled? || backoff.tried > backoff.max ||
                 if file.seekable then p(n + attempts - 1).seekFails else attempts == 1 && !old(Rereadable(p(n))))
      decreases Max(0, backoff.max - backoff.tried)
    {
      hide Layout.Start, Layout.Length, Tiles, ChunkOf;
      var a := p(n);
      attempts := 1;
      sent := Offer(a);
      if a.outcome.Done? {
        bufferTemp := None;
        return true, sent, 1;
      }
      if !a.outcome.Canceled? && (file.seekable || TempAvailable()) {
        var again := backoff.Next();
        if again && !(file.seekable && a.seekFails) {
          if file.seekable {
            file.pos := layout.Start(currentIndex);
          }
          var more;
          ok, sent, more := Process(p, n + 1);
          attempts := 1 + more;
          return;
        }
      }
      bufferTemp := None;
      ok := false;
    }
  }

  ghost function SettingOf(g: ChunkGroup, i: nat): Setting {
    Setting(g.file.seekable, g.enableRetryBuffer, g.drains, g.layout.Length(i), g.backoff.max)
  }

  /** The loop of the drivers: every chunk in turn, until one fails. */
  method SendAll(g: ChunkGroup, processors: nat -> Processor) returns (ok: bool, sent: Bytes)
    requires g.Valid() && g.currentIndex == -1 && g.bufferTemp.None? && g.file.pos == 0
    requires forall i: nat :: i < g.layout.num ==> ReadsAll(processors(i), g.layout.Length(i))
    modifies g, g.file, g.backoff
    ensures ok <==> forall i: nat :: i < g.layout.num ==> SucceedsFrom(SettingOf(g, i), processors(i), 0, 0, false)
    ensures ok ==> sent == g.file.data
    ensures sent <= g.file.data
  {
    sent := [];
    var more := g.Next();
    while more
      invariant g.Valid() && 0 <= g.currentIndex <= g.layout.num && (more <==> g.currentIndex < g.layout.num)
      invariant g.bufferTemp.None? && (more ==> g.backoff.tried == 0)
      invariant forall i: nat :: i < g.currentIndex ==> SucceedsFrom(SettingOf(g, i), processors(i), 0, 0, false)
      invariant more ==> g.file.pos == g.layout.Start(g.currentIndex) <= |g.file.data|
      invariant sent == g.file.data[..if more then g.layout.Start(g.currentIndex) else |g.file.data|]
      decreases g.layout.num - g.currentIndex
    {
      ghost var i := g.currentIndex;
      ChunkEnd(g.layout, i);
      assert TilesAt(g.layout, i);
      var done, bytes, _ := g.Process(processors(g.currentIndex), 0);
      if !done {
        return false, sent;
      }
      sent := sent + bytes;
      more := g.Next();
    }
    ok := true;
  }
}
