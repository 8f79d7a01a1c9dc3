/** struct aesd_dev as a value, and how it stands for a log of commits in driver-owned memory. */
module DeviceState {
  import opened Common
  import opened Sequences
  import opened RingIndex
  import opened KernelHeap
  import opened CircularBuffer
  import opened DeviceLog
  import opened DeviceFile

  /** From the n-th on, each entry's block is allocated and holds just the bytes of its commit. */
  ghost predicate Stores(blocks: map<Ptr, seq<byte>>, es: seq<BufferEntry>, commits: seq<seq<byte>>, n: nat) {
    && |es| == |commits|
    && forall i :: n <= i < |es| ==>
         es[i].buffptr in blocks && blocks[es[i].buffptr] == commits[i] && es[i].size == |commits[i]|
  }

  /** No two entries share a buffer, and none has NULL or the pending one. */
  ghost predicate Apart(es: seq<BufferEntry>, pending: Ptr) {
    && (forall i :: 0 <= i < |es| ==> es[i].buffptr != NULL && es[i].buffptr != pending)
    && (forall i, j :: 0 <= i < j < |es| ==> es[i].buffptr != es[j].buffptr)
  }

  ghost predicate PointsTo(es: seq<BufferEntry>, n: nat, p: Ptr) {
    exists i :: n <= i < |es| && es[i].buffptr == p
  }

  /** There is no block but those of the entries from the n-th on and the pending one. */
  ghost predicate Accounted(blocks: map<Ptr, seq<byte>>, es: seq<BufferEntry>, n: nat, pending: Ptr) {
    forall p :: p in blocks ==> p == pending || PointsTo(es, n, p)
  }

  /** The buffers of the first n entries have been freed. */
  ghost predicate Gone(freed: seq<Ptr>, es: seq<BufferEntry>, n: nat) {
    forall i :: 0 <= i < n && i < |es| ==> es[i].buffptr in freed
  }

  /** The pending buffer, if any, starts with the pending bytes. */
  ghost predicate Holds(blocks: map<Ptr, seq<byte>>, p: Ptr, size: nat, pending: seq<byte>) {
    if p == NULL then size == 0 && pending == []
    else p in blocks && size <= |blocks[p]| && blocks[p][..size] == pending
  }

  /**
   * Driver memory after some entries were added of which the first n are evicted: every other one
   * owns one block, with the bytes of its commit; p owns one more or is NULL; there is no other
   * block. The buffers of the evicted entries are freed, and no two entries ever had the same one.
   */
  ghost predicate Memory(heap: Heap, es: seq<BufferEntry>, commits: seq<seq<byte>>, n: nat,
                         p: Ptr, size: nat, pending: seq<byte>) {
    && heap.Valid()
    && Stores(heap.blocks, es, commits, n)
    && Apart(es, p)
    && Accounted(heap.blocks, es, n, p)
    && Gone(heap.freed, es, n)
    && Holds(heap.blocks, p, size, pending)
  }

  // ----- krealloc ----------------------------------------------------------------------------

  /** The new block's address is the old one or one never used before. */
  lemma ReallocApart(h: Heap, es: seq<BufferEntry>, n: nat, p: Ptr, m: nat, how: Placement)
    requires h.Valid() && Apart(es, p) && (p == NULL || p in h.blocks) && !how.Fails?
    requires Gone(h.freed, es, n)
    requires forall i :: n <= i < |es| ==> es[i].buffptr in h.blocks
    ensures Apart(es, h.Krealloc(p, m, how).1)
    ensures Gone(h.Krealloc(p, m, how).0.freed, es, n)
  {
  }

  lemma ReallocHolds(h: Heap, es: seq<BufferEntry>, n: nat, p: Ptr, size: nat, pending: seq<byte>,
                     m: nat, how: Placement)
    requires h.Valid() && Accounted(h.blocks, es, n, p) && Holds(h.blocks, p, size, pending)
    requires size <= m && !how.Fails?
    ensures
      var (h', p') := h.Krealloc(p, m, how);
      p' != NULL && Accounted(h'.blocks, es, n, p') && Holds(h'.blocks, p', size, pending) && |h'.blocks[p']| == m
  {
  }

  lemma MemoryRealloc(h: Heap, es: seq<BufferEntry>, commits: seq<seq<byte>>, n: nat,
                      p: Ptr, size: nat, pending: seq<byte>, m: nat, how: Placement)
    requires Memory(h, es, commits, n, p, size, pending) && size <= m && !how.Fails?
    ensures
      var (h', p') := h.Krealloc(p, m, how);
      Memory(h', es, commits, n, p', size, pending) && p' != NULL && |h'.blocks[p']| == m
  {
    ReallocApart(h, es, n, p, m, how);
    ReallocHolds(h, es, n, p, size, pending, m, how);
  }

  // ----- Copying in --------------------------------------------------------------------------

  lemma StoreHolds(h: Heap, p: Ptr, size: nat, pending: seq<byte>, bytes: seq<byte>)
    requires p != NULL && Holds(h.blocks, p, size, pending) && size + |bytes| <= |h.blocks[p]|
    ensures
      var b := h.Store(p, size, bytes).blocks[p];
      |b| == |h.blocks[p]| && b[..size] == pending && b[..size + |bytes|] == pending + bytes
  {
  }

  /** Bytes written behind the pending ones change nothing pending or committed. */
  lemma MemoryStore(h: Heap, es: seq<BufferEntry>, commits: seq<seq<byte>>, n: nat,
                    p: Ptr, size: nat, pending: seq<byte>, bytes: seq<byte>)
    requires Memory(h, es, commits, n, p, size, pending)
    requires p != NULL && size + |bytes| <= |h.blocks[p]|
    ensures Memory(h.Store(p, size, bytes), es, commits, n, p, size, pending)
  {
    StoreHolds(h, p, size, pending, bytes);
  }

  // ----- Committing and evicting ---------------------------------------------------------------

  /** The pending block becomes the newest entry's. */
  lemma MemoryCommit(h: Heap, es: seq<BufferEntry>, commits: seq<seq<byte>>, n: nat,
                     p: Ptr, size: nat, pending: seq<byte>, all: seq<byte>)
    requires Memory(h, es, commits, n, p, size, pending) && n <= |es|
    requires p != NULL && h.blocks[p] == all
    ensures Memory(h, es + [BufferEntry(p, |all|)], commits + [all], n, NULL, 0, [])
  {
    CommitAccounted(h.blocks, es, n, BufferEntry(p, |all|));
  }

  lemma CommitAccounted(blocks: map<Ptr, seq<byte>>, es: seq<BufferEntry>, n: nat, e: BufferEntry)
    requires Accounted(blocks, es, n, e.buffptr) && n <= |es|
    ensures Accounted(blocks, es + [e], n, NULL)
  {
    var es' := es + [e];
    assert es'[|es|].buffptr == e.buffptr;
    forall q | q in blocks
      ensures PointsTo(es', n, q)
    {
      if q != e.buffptr {
        var i :| n <= i < |es| && es[i].buffptr == q;
        assert es'[i].buffptr == q;
      }
    }
  }

  /** The oldest live entry's block is freed with it. */
  lemma MemoryEvict(h: Heap, es: seq<BufferEntry>, commits: seq<seq<byte>>, n: nat,
                    p: Ptr, size: nat, pending: seq<byte>)
    requires Memory(h, es, commits, n, p, size, pending) && n < |es|
    ensures es[n].buffptr != NULL && es[n].buffptr in h.blocks
    ensures Memory(h.Kfree(es[n].buffptr), es, commits, n + 1, p, size, pending)
  {
    EvictAccounted(h.blocks, es, n, p);
  }

  lemma EvictAccounted(blocks: map<Ptr, seq<byte>>, es: seq<BufferEntry>, n: nat, p: Ptr)
    requires Accounted(blocks, es, n, p) && n < |es|
    ensures Accounted(blocks - {es[n].buffptr}, es, n + 1, p)
  {
    forall q | q in blocks - {es[n].buffptr} && q != p
      ensures PointsTo(es, n + 1, q)
    {
      var i :| n <= i < |es| && es[i].buffptr == q;
    }
  }

  // ----- Freeing all slots ---------------------------------------------------------------------

  /** The slots' non-NULL buffers are allocated and distinct, and with pending they are all there is. */
  ghost predicate SlotsOwn(blocks: map<Ptr, seq<byte>>, slots: seq<BufferEntry>, pending: Ptr) {
    && (forall k :: 0 <= k < |slots| && slots[k].buffptr != NULL ==>
          slots[k].buffptr in blocks && slots[k].buffptr != pending)
    && (forall j, k :: 0 <= j < k < |slots| && slots[j].buffptr != NULL ==> slots[j].buffptr != slots[k].buffptr)
    && Accounted(blocks, slots, 0, pending)
    && (pending != NULL ==> pending in blocks)
  }

  lemma SlotsDistinct(ring: RingState, es: seq<BufferEntry>, j: nat, k: nat, p: Ptr)
    requires ring.After(es) && Apart(es, p)
    requires j < k < |ring.slots| && ring.slots[j].buffptr != NULL
    ensures ring.slots[j].buffptr != ring.slots[k].buffptr
  {
    assert ring.Age(j) != ring.Age(k);
  }

  /** The live entries are all in the slots. */
  lemma EntryInSlot(ring: RingState, es: seq<BufferEntry>, i: nat)
    requires ring.After(es) && ring.Evicted(es) <= i < |es|
    ensures PointsTo(ring.slots, 0, es[i].buffptr)
  {
    var k := Wrap(ring.outOffs + (i - ring.Evicted(es)), |ring.slots|);
    assert ring.Age(k) == i - ring.Evicted(es);
    assert ring.slots[k] == es[i];
  }

  lemma SlotsAccounted(ring: RingState, blocks: map<Ptr, seq<byte>>, es: seq<BufferEntry>, p: Ptr)
    requires ring.After(es) && Accounted(blocks, es, ring.Evicted(es), p)
    ensures Accounted(blocks, ring.slots, 0, p)
  {
    forall q | q in blocks && q != p
      ensures PointsTo(ring.slots, 0, q)
    {
      var i :| ring.Evicted(es) <= i < |es| && es[i].buffptr == q;
      EntryInSlot(ring, es, i);
    }
  }

  lemma EntriesOwnSlots(ring: RingState, heap: Heap, es: seq<BufferEntry>, commits: seq<seq<byte>>, p: Ptr)
    requires ring.After(es) && Stores(heap.blocks, es, commits, ring.Evicted(es))
    requires Apart(es, p) && Accounted(heap.blocks, es, ring.Evicted(es), p)
    requires p != NULL ==> p in heap.blocks
    ensures SlotsOwn(heap.blocks, ring.slots, p)
  {
    SlotsAccounted(ring, heap.blocks, es, p);
    forall j, k | 0 <= j < k < |ring.slots| && ring.slots[j].buffptr != NULL
      ensures ring.slots[j].buffptr != ring.slots[k].buffptr
    {
      SlotsDistinct(ring, es, j, k, p);
    }
  }

  /** heap is start after the first n slots' buffers have been freed. */
  ghost predicate FreedUpTo(start: Heap, heap: Heap, slots: seq<BufferEntry>, n: nat)
    requires n <= |slots|
  {
    && heap.Valid()
    && (forall p :: p in heap.blocks <==> p in start.blocks && !PointsTo(slots[..n], 0, p))
    && (forall p :: p in start.freed || (p in start.blocks && p !in heap.blocks) ==> p in heap.freed)
  }

  lemma PointsToOneMore(slots: seq<BufferEntry>, n: nat, q: Ptr)
    requires n < |slots|
    ensures PointsTo(slots[..n + 1], 0, q) <==> PointsTo(slots[..n], 0, q) || q == slots[n].buffptr
  {
    if PointsTo(slots[..n], 0, q) {
      var i :| 0 <= i < n && slots[..n][i].buffptr == q;
      assert slots[..n + 1][i].buffptr == q;
    }
    if q == slots[n].buffptr { assert slots[..n + 1][n].buffptr == q; }
  }

  /** Freeing the next slot's buffer, NULL or not, is allowed and frees it alone. */
  lemma FreeNext(start: Heap, heap: Heap, slots: seq<BufferEntry>, n: nat, pending: Ptr)
    requires n < |slots| && NULL !in start.blocks
    requires SlotsOwn(start.blocks, slots, pending) && FreedUpTo(start, heap, slots, n)
    ensures slots[n].buffptr == NULL || slots[n].buffptr in heap.blocks
    ensures FreedUpTo(start, heap.Kfree(slots[n].buffptr), slots, n + 1)
  {
    forall q
      ensures PointsTo(slots[..n + 1], 0, q) <==> PointsTo(slots[..n], 0, q) || q == slots[n].buffptr
    {
      PointsToOneMore(slots, n, q);
    }
  }

  /** The sizes of the last cap entries are the lengths of the last cap commits. */
  lemma StoredSizes(blocks: map<Ptr, seq<byte>>, es: seq<BufferEntry>, commits: seq<seq<byte>>, cap: nat)
    requires Stores(blocks, es, commits, if |es| <= cap then 0 else |es| - cap)
    ensures Sizes(Last(es, cap)) == Lengths(Last(commits, cap))
  {
  }

  // ----- The device ------------------------------------------------------------------------------

  datatype Dev = Dev(ring: RingState, pWriteBuffer: Ptr, writeBufferSize: nat, heap: Heap) {

    /** The device after the given additions to its ring stands for the log. */
    ghost predicate StandsFor(added: seq<BufferEntry>, log: Log) {
      && ring.After(added)
      && |added| == |log.commits|
      && log.Disciplined()
      && MemoryOf(added, log)
    }

    ghost predicate MemoryOf(added: seq<BufferEntry>, log: Log) {
      Memory(heap, added, log.commits, ring.Evicted(added), pWriteBuffer, writeBufferSize, log.pending)
    }

    /** krealloc of the pending buffer in aesd_write; when it fails the buffer is freed and its address kept. */
    ghost function Reallocated(n: nat, how: Placement): Dev
      requires pWriteBuffer == NULL || pWriteBuffer in heap.blocks
    {
      if how.Fails? then Dev(ring, pWriteBuffer, writeBufferSize, heap.Kfree(pWriteBuffer))
      else
        var (h, p) := heap.Krealloc(pWriteBuffer, n, how);
        Dev(ring, p, writeBufferSize, h)
    }

    /** There is a pending buffer with room for n bytes behind the pending ones. */
    ghost predicate HasRoom(n: nat) {
      pWriteBuffer != NULL && pWriteBuffer in heap.blocks && |heap.blocks[pWriteBuffer]| == writeBufferSize + n
    }

    /** krealloc keeps ring, commits and pending bytes, or fails; then they survive exactly if nothing was pending. */
    lemma ReallocatedKeeps(added: seq<BufferEntry>, log: Log, n: nat, how: Placement)
      requires StandsFor(added, log)
      ensures
        var d := Reallocated(writeBufferSize + n, how);
        && (d.StandsFor(added, log) <==> !(how.Fails? && pWriteBuffer != NULL))
        && (!how.Fails? ==> d.HasRoom(n))
    {
      var m := writeBufferSize + n;
      if !how.Fails? {
        MemoryRealloc(heap, added, log.commits, ring.Evicted(added), pWriteBuffer, writeBufferSize, log.pending,
                      m, how);
      }
    }

    /** Writing behind the pending bytes changes none of them. */
    lemma StoreKeeps(added: seq<BufferEntry>, log: Log, bytes: seq<byte>)
      requires StandsFor(added, log)
      requires pWriteBuffer != NULL && writeBufferSize + |bytes| <= |heap.blocks[pWriteBuffer]|
      ensures
        var h := heap.Store(pWriteBuffer, writeBufferSize, bytes);
        && Dev(ring, pWriteBuffer, writeBufferSize, h).StandsFor(added, log)
        && |h.blocks[pWriteBuffer]| == |heap.blocks[pWriteBuffer]|
        && h.blocks[pWriteBuffer][..writeBufferSize + |bytes|] == log.pending + bytes
    {
      StoreHolds(heap, pWriteBuffer, writeBufferSize, log.pending, bytes);
      MemoryStore(heap, added, log.commits, ring.Evicted(added), pWriteBuffer, writeBufferSize, log.pending, bytes);
    }

    /** A write without a newline so far only lengthens what is pending. */
    lemma PendingGrows(added: seq<BufferEntry>, log: Log, bytes: seq<byte>)
      requires StandsFor(added, log) && pWriteBuffer != NULL
      requires heap.blocks[pWriteBuffer] == log.pending + bytes
      requires NL !in log.pending + bytes
      ensures this.(writeBufferSize := writeBufferSize + |bytes|).StandsFor(added, log.Append(bytes))
    {
      var size := writeBufferSize + |bytes|;
      assert heap.blocks[pWriteBuffer][..size] == log.pending + bytes;
    }

    ghost predicate CanCommit() {
      ring.InBounds() && (ring.full ==> ring.slots[ring.outOffs].buffptr in heap.blocks)
    }

    /** What aesd_write does once the pending buffer contains a newline. */
    ghost function Commit(): Dev
      requires CanCommit()
    {
      var h := if ring.full then heap.Kfree(ring.slots[ring.outOffs].buffptr) else heap;
      Dev(ring.Add(BufferEntry(pWriteBuffer, writeBufferSize)), NULL, 0, h)
    }

    /** In a full ring the slot about to be overwritten is the oldest entry's, so a commit frees just that one. */
    lemma OldestSlot(added: seq<BufferEntry>)
      requires ring.After(added) && ring.full
      ensures ring.inOffs == ring.outOffs
      ensures |ring.slots| <= |added|
      ensures ring.slots[ring.outOffs] == added[|added| - |ring.slots|]
    {
      assert ring.Age(ring.outOffs) == 0;
    }

    /** In d the slot at inOffs holds e, and every other slot what it held. */
    ghost predicate SlotOverwritten(d: Dev, e: BufferEntry)
      requires ring.InBounds()
    {
      d.ring.slots == ring.slots[ring.inOffs := e]
    }

    /** p was the buffer of the slot at inOffs; d's memory lacks it and nothing else. */
    ghost predicate SlotFreed(d: Dev, p: Ptr)
      requires ring.InBounds()
    {
      && p == ring.slots[ring.inOffs].buffptr
      && p in heap.blocks && d.heap.blocks == heap.blocks - {p}
      && d.heap.freed == heap.freed + [p]
    }

    /** A commit overwrites one slot; in a full ring it is the oldest entry's, and just its buffer is freed. */
    lemma CommitShape(added: seq<BufferEntry>)
      requires ring.After(added) && CanCommit() && NULL !in heap.blocks
      ensures SlotOverwritten(Commit(), BufferEntry(pWriteBuffer, writeBufferSize))
      ensures ring.full ==> |ring.slots| <= |added| && SlotFreed(Commit(), added[|added| - |ring.slots|].buffptr)
      ensures !ring.full ==> Commit().heap == heap
    {
      if ring.full { OldestSlot(added); }
    }

    /** The memory side of a commit, with the oldest entry freed first if the ring is full. */
    lemma CommitMemory(added: seq<BufferEntry>, log: Log, size: nat, all: seq<byte>)
      requires ring.After(added) && |added| == |log.commits|
      requires this.(writeBufferSize := size).MemoryOf(added, log)
      requires pWriteBuffer != NULL && writeBufferSize == |all| && heap.blocks[pWriteBuffer] == all
      ensures CanCommit()
      ensures Commit().MemoryOf(added + [BufferEntry(pWriteBuffer, |all|)], Log(log.commits + [all], []))
    {
      var n := ring.Evicted(added);
      if ring.full {
        OldestSlot(added);
        MemoryEvict(heap, added, log.commits, n, pWriteBuffer, size, log.pending);
        MemoryCommit(heap.Kfree(added[n].buffptr), added, log.commits, n + 1, pWriteBuffer, size, log.pending, all);
      } else {
        MemoryCommit(heap, added, log.commits, n, pWriteBuffer, size, log.pending, all);
      }
    }

    /** Freeing the oldest entry before overwriting it leaves a device that stands for one more commit. */
    lemma CommitKeeps(added: seq<BufferEntry>, log: Log, size: nat, all: seq<byte>)
      requires this.(writeBufferSize := size).StandsFor(added, log)
      requires pWriteBuffer != NULL && writeBufferSize == |all| && NL in all && heap.blocks[pWriteBuffer] == all
      ensures CanCommit()
      ensures Commit().StandsFor(added + [BufferEntry(pWriteBuffer, |all|)], Log(log.commits + [all], []))
    {
      CommitMemory(added, log, size, all);
      ring.AddKeepsClosedForm(added, BufferEntry(pWriteBuffer, |all|));
    }

    /** The ring's sizes are the lengths of the live entries, and none is empty. */
    lemma SizesAreLengths(added: seq<BufferEntry>, log: Log)
      requires StandsFor(added, log)
      ensures ring.Consistent() && ring.SparesEmpty()
      ensures Sizes(ring.View()) == Lengths(log.Live(|ring.slots|))
      ensures ring.Count() == 0 <==> log.commits == []
      ensures 0 < ring.Count() ==> ring.View()[0].size > 0
      ensures ring.full <==> |ring.slots| <= |log.commits|
    {
      ring.AfterIsConsistent(added);
      StoredSizes(heap.blocks, added, log.commits, |ring.slots|);
      var files := log.Live(|ring.slots|);
      if files != [] {
        assert files[0] in log.commits;
      }
    }

    /** What the ioctl works out on the slots is the target in the flat file. */
    lemma SeekIsTarget(added: seq<BufferEntry>, log: Log, cmd: nat, off: nat)
      requires StandsFor(added, log)
      ensures ring.SparesEmpty()
      ensures ring.SeekOffset(cmd, off) == IoctlTarget(Lengths(log.Live(|ring.slots|)), |ring.slots|, cmd, off)
    {
      SizesAreLengths(added, log);
    }

    /** The size sums are those of the live entries; from outOffs, inOffs is Count() slots on, or none when full. */
    lemma SumsAreLengths(added: seq<BufferEntry>, log: Log, c: nat)
      requires StandsFor(added, log) && c <= ring.Count()
      ensures |log.Live(|ring.slots|)| == ring.Count()
      ensures ring.SizeSum(c) == WrapInt(Sum(Lengths(log.Live(|ring.slots|)), c))
      ensures ring.full <==> ring.Count() == |ring.slots|
      ensures ring.inOffs == Wrap(ring.outOffs + (if ring.full then 0 else ring.Count()), |ring.slots|)
    {
      SizesAreLengths(added, log);
    }

    /** The live buffers are in the slots, each once, and all other slots are zeroed. */
    lemma SlotsOwnBlocks(added: seq<BufferEntry>, log: Log)
      requires StandsFor(added, log)
      ensures SlotsOwn(heap.blocks, ring.slots, pWriteBuffer)
    {
      EntriesOwnSlots(ring, heap, added, log.commits, pWriteBuffer);
    }

    lemma AddedIsFreed(added: seq<BufferEntry>, log: Log, h: Heap, i: nat)
      requires StandsFor(added, log)
      requires FreedUpTo(heap, h, ring.slots, |ring.slots|)
      requires i < |added|
      ensures added[i].buffptr in h.freed
    {
      if ring.Evicted(added) <= i {
        EntryInSlot(ring, added, i);
        assert ring.slots[..|ring.slots|] == ring.slots;
      }
    }

    /** No two commits ever shared a buffer, live or freed. */
    lemma BuffersDiffer(added: seq<BufferEntry>, log: Log)
      requires StandsFor(added, log)
      ensures forall i, j :: 0 <= i < j < |added| ==> added[i].buffptr != added[j].buffptr
    {
    }

    lemma OnlyPendingLeft(added: seq<BufferEntry>, log: Log, h: Heap)
      requires StandsFor(added, log)
      requires FreedUpTo(heap, h, ring.slots, |ring.slots|)
      ensures h.blocks.Keys == if pWriteBuffer == NULL then {} else {pWriteBuffer}
    {
      SlotsOwnBlocks(added, log);
      assert ring.slots[..|ring.slots|] == ring.slots;
    }

    /** A lookup that answers NULL means there is nothing to read. */
    lemma NoAnswerMeans(added: seq<BufferEntry>, log: Log, off: nat, count: nat)
      requires StandsFor(added, log) && ring.Answers(None, off)
      ensures log.commits != [] && ReadAt(log.Live(|ring.slots|), off, count) == []
    {
      NoAnswerIsPastEnd(added, log, off);
      ReadPastEnd(log.Live(|ring.slots|), off, count);
    }

    /** A lookup that answers an entry leads to the read of the live entries, except on an empty device. */
    lemma AnswerMeans(added: seq<BufferEntry>, log: Log, off: nat, count: nat, slot: nat, b: nat)
      requires StandsFor(added, log) && ring.Answers(Some((slot, b)), off) && off <= SIZE_MAX
      requires |log.File(|ring.slots|)| <= SIZE_MAX
      ensures
        CopyOut(heap.blocks, ring.slots[slot], b, count) ==
        if log.commits == [] && 0 < off && 0 < count then None
        else Some(ReadAt(log.Live(|ring.slots|), off, count))
    {
      if log.commits == [] {
        EmptyAnswer(added, log, off, slot, b);
      } else {
        LiveAnswer(added, log, off, slot, b);
        CopyOutIsRead(heap.blocks, ring.slots[slot], log.Live(|ring.slots|), ring.Age(slot), off, b, count);
      }
    }

    /** What aesd_read hands to its user copy for a lookup's answer; None when that is not all in one buffer. */
    ghost function Fetched(r: Option<(nat, nat)>, count: nat): Option<seq<byte>>
      requires r.Some? ==> r.value.0 < |ring.slots|
    {
      match r
      case None => Some([])
      case Some((slot, b)) => CopyOut(heap.blocks, ring.slots[slot], b, count)
    }

    /** Any answer the lookup may give leads to the read of the live entries, except on an empty device. */
    lemma FetchedIsRead(added: seq<BufferEntry>, log: Log, off: nat, count: nat)
      requires StandsFor(added, log)
      requires off <= SIZE_MAX && |log.File(|ring.slots|)| <= SIZE_MAX
      ensures ring.Consistent() && Total(Sizes(ring.View())) <= SIZE_MAX
      ensures forall r | ring.Answers(r, off) ::
        Fetched(r, count) ==
        if log.commits == [] && 0 < off && 0 < count then None else Some(ReadAt(log.Live(|ring.slots|), off, count))
    {
      SizesAreLengths(added, log);
      FlattenTotal(log.Live(|ring.slots|));
      forall r | ring.Answers(r, off)
        ensures Fetched(r, count) ==
          if log.commits == [] && 0 < off && 0 < count then None else Some(ReadAt(log.Live(|ring.slots|), off, count))
      {
        match r
        case None => NoAnswerMeans(added, log, off, count);
        case Some((slot, b)) => AnswerMeans(added, log, off, count, slot, b);
      }
    }

    lemma EmptyAnswer(added: seq<BufferEntry>, log: Log, off: nat, slot: nat, b: nat)
      requires StandsFor(added, log) && log.commits == []
      requires ring.Answers(Some((slot, b)), off)
      ensures b == off && ring.slots[slot] == ZEROED && NULL !in heap.blocks
    {
      SizesAreLengths(added, log);
    }

    lemma LiveAnswer(added: seq<BufferEntry>, log: Log, off: nat, slot: nat, b: nat)
      requires StandsFor(added, log) && log.commits != []
      requires ring.Answers(Some((slot, b)), off)
      ensures slot < |ring.slots|
      ensures
        var live, i, e := log.Live(|ring.slots|), ring.Age(slot), ring.slots[slot];
        && At(Lengths(live), off, i, b)
        && e.buffptr in heap.blocks && heap.blocks[e.buffptr] == live[i] && e.size == |live[i]|
    {
      AnswerIsInFile(added, log, off, slot, b);
      SlotEntry(added, log, slot);
    }

    lemma AnswerIsInFile(added: seq<BufferEntry>, log: Log, off: nat, slot: nat, b: nat)
      requires StandsFor(added, log) && log.commits != []
      requires ring.Answers(Some((slot, b)), off)
      ensures slot < |ring.slots| && ring.Age(slot) < ring.Count()
      ensures At(Lengths(log.Live(|ring.slots|)), off, ring.Age(slot), b)
    {
      SizesAreLengths(added, log);
      ring.AnswerIsLive(slot, b, off);
    }

    /** r names a byte in driver memory that is the file's byte at off, or NULL past the file's end. */
    ghost predicate IsFlatIndex(r: Option<(nat, nat)>, off: nat, file: seq<byte>) {
      match r
      case None => |file| <= off
      case Some((slot, b)) =>
        && off < |file| && slot < |ring.slots|
        && var p := ring.slots[slot].buffptr;
        && p in heap.blocks && b < |heap.blocks[p]| && heap.blocks[p][b] == file[off]
    }

    lemma LiveAnswerIsFlat(added: seq<BufferEntry>, log: Log, off: nat, slot: nat, b: nat)
      requires StandsFor(added, log) && log.commits != []
      requires ring.Answers(Some((slot, b)), off)
      ensures IsFlatIndex(Some((slot, b)), off, log.File(|ring.slots|))
    {
      LiveAnswer(added, log, off, slot, b);
      FlattenAt(log.Live(|ring.slots|), off, ring.Age(slot), b);
    }

    /** An answer of NULL means past the file's end, and on an empty device there is none. */
    lemma NoAnswerIsPastEnd(added: seq<BufferEntry>, log: Log, off: nat)
      requires StandsFor(added, log) && ring.Answers(None, off)
      ensures log.commits != [] && |log.File(|ring.slots|)| <= off
    {
      SizesAreLengths(added, log);
      FlattenTotal(log.Live(|ring.slots|));
    }

    /** The lookup is indexing of the flat file, exactly when anything has been committed. */
    lemma LookupIsFlatIndex(added: seq<BufferEntry>, log: Log, off: nat, r: Option<(nat, nat)>)
      requires StandsFor(added, log) && ring.Answers(r, off)
      ensures IsFlatIndex(r, off, log.File(|ring.slots|)) <==> log.commits != []
    {
      match r
      case None => NoAnswerIsPastEnd(added, log, off);
      case Some((slot, b)) =>
        if log.commits == [] {
          EmptyAnswer(added, log, off, slot, b);
        } else {
          LiveAnswerIsFlat(added, log, off, slot, b);
        }
    }

    /** The block and the size of a slot in the window are its live entry's. */
    lemma SlotEntry(added: seq<BufferEntry>, log: Log, slot: nat)
      requires StandsFor(added, log) && slot < |ring.slots| && ring.Age(slot) < ring.Count()
      ensures ring.Age(slot) < |log.Live(|ring.slots|)|
      ensures
        var e, file := ring.slots[slot], log.Live(|ring.slots|)[ring.Age(slot)];
        e.buffptr in heap.blocks && heap.blocks[e.buffptr] == file && e.size == |file|
    {
      assert ring.Evicted(added) + ring.Age(slot) < |added|;
    }
  }

  /** No entry is longer than the file. */
  lemma EntrySmall(live: seq<seq<byte>>, i: nat)
    requires i < |live|
    ensures |live[i]| <= |Flatten(live)|
  {
    FlattenCut(live, i);
  }

  /**
   * The copy in aesd_read: at most count bytes of the entry from offset on, as far as its size says;
   * None when they do not all lie in the entry's block.
   */
  function CopyOut(blocks: map<Ptr, seq<byte>>, entry: BufferEntry, offset: nat, count: nat): Option<seq<byte>> {
    var bytesAvailable := WrapSize(entry.size - offset);
    var bytesToCopy := if bytesAvailable > count then count else bytesAvailable;
    if bytesToCopy == 0 then Some([])
    else if entry.buffptr in blocks && offset + bytesToCopy <= |blocks[entry.buffptr]| then
      Some(blocks[entry.buffptr][offset..offset + bytesToCopy])
    else None
  }

  /** Copying out of the right entry is reading the flat file. */
  lemma CopyOutIsRead(blocks: map<Ptr, seq<byte>>, e: BufferEntry, live: seq<seq<byte>>, i: nat,
                      off: nat, b: nat, count: nat)
    requires At(Lengths(live), off, i, b) && |Flatten(live)| <= SIZE_MAX
    requires e.buffptr in blocks && blocks[e.buffptr] == live[i] && e.size == |live[i]|
    ensures CopyOut(blocks, e, b, count) == Some(ReadAt(live, off, count))
  {
    ReadWithinEntry(live, off, count, i, b);
    EntrySmall(live, i);
  }
}
