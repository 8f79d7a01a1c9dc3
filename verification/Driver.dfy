/** The file operations of main.c over struct aesd_dev. */
module Driver {
  import opened Common
  import opened Sequences
  import opened KernelHeap
  import opened CircularBuffer
  import opened DeviceLog
  import opened DeviceFile
  import opened DeviceState
  import opened FileOperations

  /** struct file: one open handle. */
  class File {
    var fPos: int

    constructor ()
      ensures fPos == 0
    {
      fPos := 0;
    }
  }

  class AesdDev {
    const circularBuffer: Ring
    var pWriteBuffer: Ptr
    var writeBufferSize: nat
    var heap: Heap

    /** The commits and the pending bytes of every successful write so far. */
    ghost var log: Log

    ghost function State(): Dev
      reads this, circularBuffer, circularBuffer.entry
    {
      Dev(circularBuffer.State(), pWriteBuffer, writeBufferSize, heap)
    }

    ghost predicate Valid()
      reads this, circularBuffer, circularBuffer.entry
    {
      circularBuffer.cap == circularBuffer.entry.Length && State().StandsFor(circularBuffer.added, log)
    }

    /** The live entries as a reader sees them. */
    ghost function Live(): seq<seq<byte>>
      reads this
    {
      log.Live(circularBuffer.cap)
    }

    /** aesd_init_module. */
    constructor (cap: nat)
      requires 1 <= cap
      ensures Valid() && fresh(circularBuffer) && fresh(circularBuffer.entry)
      ensures circularBuffer.cap == cap && log == EMPTY
      ensures pWriteBuffer == NULL && heap.blocks == map[] && heap.freed == []
    {
      circularBuffer := new Ring(cap);
      pWriteBuffer, writeBufferSize := NULL, 0;
      heap := Heap(map[], [], 1);
      log := EMPTY;
    }

    /** The statements of the commit: free the oldest entry of a full ring, add the pending buffer, forget it. */
    method MovePending()
      requires State().CanCommit() && circularBuffer.Valid()
      modifies this`heap, this`pWriteBuffer, this`writeBufferSize, circularBuffer, circularBuffer.entry
      ensures State() == old(State()).Commit()
      ensures circularBuffer.added == old(circularBuffer.added) + [BufferEntry(old(pWriteBuffer), old(writeBufferSize))]
    {
      if circularBuffer.full {
        heap := heap.Kfree(circularBuffer.entry[circularBuffer.outOffs].buffptr);
      }
      circularBuffer.AddEntry(BufferEntry(pWriteBuffer, writeBufferSize));
      writeBufferSize, pWriteBuffer := 0, NULL;
    }

    /**
     * The commit in aesd_write: the pending buffer, holding all, becomes the newest entry, in the slot
     * at inOffs and no other. If the ring is full, that slot's buffer, which is the oldest live
     * entry's, is freed, and no other block is.
     */
    method CommitPending(ghost size: nat, ghost all: seq<byte>)
      requires circularBuffer.cap == circularBuffer.entry.Length
      requires State().(writeBufferSize := size).StandsFor(circularBuffer.added, log)
      requires pWriteBuffer != NULL && writeBufferSize == |all| && NL in all
      requires heap.blocks[pWriteBuffer] == all
      modifies this, circularBuffer, circularBuffer.entry
      ensures Valid()
      ensures log == Log(old(log.commits) + [all], []) && pWriteBuffer == NULL
      ensures old(State()).SlotOverwritten(State(), BufferEntry(old(pWriteBuffer), |all|))
      ensures old(circularBuffer.full) ==>
        old(State()).SlotFreed(State(), old(circularBuffer.added[|circularBuffer.added| - circularBuffer.cap].buffptr))
      ensures !old(circularBuffer.full) ==> heap == old(heap)
    {
      State().CommitKeeps(circularBuffer.added, log, size, all);
      State().CommitShape(circularBuffer.added);
      MovePending();
      log := Log(log.commits + [all], []);
    }

    /** The krealloc statements of aesd_write. */
    method ReallocPending(n: nat, how: Placement) returns (ok: bool)
      requires heap.Valid() && (pWriteBuffer == NULL || pWriteBuffer in heap.blocks)
      modifies this`heap, this`pWriteBuffer
      ensures ok <==> !how.Fails?
      ensures State() == old(State()).Reallocated(n, how)
    {
      var (h, tmp) := heap.Krealloc(pWriteBuffer, n, how);
      ok := tmp != NULL;
      if !ok {
        heap := heap.Kfree(pWriteBuffer);
      } else {
        heap, pWriteBuffer := h, tmp;
      }
    }

    /** krealloc in aesd_write: room for n more bytes. On failure the buffer is freed but its address kept. */
    method MakeRoom(n: nat, how: Placement) returns (ok: bool)
      requires Valid()
      modifies this`heap, this`pWriteBuffer
      ensures ok <==> !how.Fails?
      ensures Valid() <==> ok || old(pWriteBuffer) == NULL
      ensures ok ==> State().HasRoom(n)
      ensures !ok ==> pWriteBuffer == old(pWriteBuffer)
    {
      ghost var before := State();
      before.ReallocatedKeeps(circularBuffer.added, log, n, how);
      ok := ReallocPending(writeBufferSize + n, how);
      ghost var after := State();
      assert after == before.Reallocated(before.writeBufferSize + n, how);
    }

    /** copy_from_user in aesd_write: the bytes go behind the pending ones. */
    method CopyIn(bytes: seq<byte>)
      requires Valid()
      requires pWriteBuffer != NULL && writeBufferSize + |bytes| <= |heap.blocks[pWriteBuffer]|
      modifies this`heap
      ensures Valid()
      ensures old(|heap.blocks[pWriteBuffer]|) == writeBufferSize + |bytes| ==>
        heap.blocks[pWriteBuffer] == log.pending + bytes
    {
      State().StoreKeeps(circularBuffer.added, log, bytes);
      heap := heap.Store(pWriteBuffer, writeBufferSize, bytes);
    }

    /** The end of aesd_write: the copied bytes become pending, and all of it an entry if it contains a newline. */
    method Absorb(ghost bytes: seq<byte>, count: nat)
      requires Valid() && count == |bytes|
      requires pWriteBuffer != NULL && heap.blocks[pWriteBuffer] == log.pending + bytes
      modifies this, circularBuffer, circularBuffer.entry
      ensures Valid()
      ensures log == old(log).Append(bytes)
      ensures pWriteBuffer == NULL <==> NL in old(log.pending) + bytes
    {
      ghost var before := State();
      writeBufferSize := writeBufferSize + count;
      if NL in heap.blocks[pWriteBuffer][..writeBufferSize] {
        CommitPending(before.writeBufferSize, log.pending + bytes);
      } else {
        before.PendingGrows(circularBuffer.added, log, bytes);
        log := log.Append(bytes);
      }
    }

    /** aesd_write. */
    method Write(buf: seq<byte>, env: Env) returns (r: Result<nat>)
      requires Valid()
      requires env.uncopied <= |buf|
      modifies this, circularBuffer, circularBuffer.entry
      ensures r == WriteOutcome(buf, env)
      ensures log == if r.Ok? then old(log).Append(buf) else old(log)
      ensures |log.Stream()| == |old(log).Stream()| + (if r.Ok? then r.value else 0)
      ensures r == Err(ERESTARTSYS) <==> env.interrupted
      ensures r == Err(ENOMEM) <==> !env.interrupted && env.placement.Fails?
      ensures r == Err(EFAULT) <==> !env.interrupted && !env.placement.Fails? && env.uncopied > 0
      ensures Valid() <==> !(r == Err(ENOMEM) && old(pWriteBuffer) != NULL)
      ensures r == Err(ERESTARTSYS) || r == Err(ENOMEM) ==> pWriteBuffer == old(pWriteBuffer)
      ensures r == Err(EFAULT) ==> pWriteBuffer != NULL
      ensures r.Ok? ==> (pWriteBuffer == NULL <==> NL in old(log.pending) + buf)
    {
      if env.interrupted {
        return Err(ERESTARTSYS);
      }
      var ok := MakeRoom(|buf|, env.placement);
      if !ok {
        return Err(ENOMEM);
      }
      var copied := buf[..|buf| - env.uncopied];
      CopyIn(copied);
      if env.uncopied > 0 {
        return Err(EFAULT);
      }
      assert copied == buf;
      Absorb(buf, |buf|);
      AppendConserves(old(log), buf);
      return Ok(|buf|);
    }

    /** The lookup and the copy of aesd_read; None when the copy leaves the entry's buffer. */
    method Fetch(fPos: nat, count: nat) returns (r: Option<seq<byte>>)
      requires Valid()
      requires fPos <= SIZE_MAX && |log.File(circularBuffer.cap)| <= SIZE_MAX
      ensures r == if log.commits == [] && 0 < fPos && 0 < count then None else Some(ReadAt(Live(), fPos, count))
    {
      State().FetchedIsRead(circularBuffer.added, log, fPos, count);
      var found := circularBuffer.FindEntryOffsetForFpos(fPos);
      match found
      case None =>
        r := Some([]);
      case Some((slot, offset)) =>
        r := CopyOut(heap.blocks, circularBuffer.entry[slot], offset, count);
    }

    /** aesd_read. */
    method Read(filp: File, count: nat, env: Env) returns (r: CallResult)
      requires Valid()
      requires 0 <= filp.fPos <= SIZE_MAX && |log.File(circularBuffer.cap)| <= SIZE_MAX
      modifies filp
      ensures Valid()
      ensures r == ReadOutcome(log, circularBuffer.cap, old(filp.fPos), count, env)
      ensures filp.fPos == old(filp.fPos) + r.Moved()
      ensures r == Returned(Err(ERESTARTSYS), []) <==> env.interrupted
      ensures r.Returned? && r.ret.Ok? ==> r.ret.value == |r.bytes| == filp.fPos - old(filp.fPos)
    {
      if env.interrupted {
        return Returned(Err(ERESTARTSYS), []);
      }
      var copied := Fetch(filp.fPos, count);
      if copied.None? {
        return OutsideBuffer;
      }
      if env.uncopied > 0 {
        return Returned(Ok(0), []);
      }
      filp.fPos := filp.fPos + |copied.value|;
      return Returned(Ok(|copied.value|), copied.value);
    }

    /** The file size as SEEK_END computes it. */
    method FileSize() returns (fileSize: int)
      requires Valid()
      ensures fileSize == EndSum(Lengths(Live()), circularBuffer.cap <= |log.commits|)
    {
      ghost var dev := State();
      ghost var c := if dev.ring.full then 0 else dev.ring.Count();
      dev.SumsAreLengths(circularBuffer.added, log, c);
      fileSize := circularBuffer.SumSizes(circularBuffer.inOffs, c);
    }

    /**
     * SEEK_END knows the file size exactly while the ring is not full and the file fits an int; the
     * sizes of all slots always give it.
     */
    lemma SeekEndExact()
      requires Valid()
      ensures
        var size := |log.File(circularBuffer.cap)|;
        EndSum(Lengths(Live()), circularBuffer.cap <= |log.commits|) == size
        <==> |log.commits| < circularBuffer.cap && size <= INT_MAX
      ensures Total(Sizes(circularBuffer.State().slots)) == |log.File(circularBuffer.cap)|
    {
      circularBuffer.State().AllSlotsSum(circularBuffer.added);
      State().SizesAreLengths(circularBuffer.added, log);
      FlattenTotal(Live());
      EndSumExact(Lengths(Live()), circularBuffer.full);
    }

    /** aesd_llseek. */
    method Llseek(filp: File, off: int, whence: int, interrupted: bool) returns (r: Result<nat>)
      requires Valid()
      modifies filp
      ensures Valid()
      ensures r == LlseekOutcome(log, circularBuffer.cap, old(filp.fPos), off, whence, interrupted)
      ensures filp.fPos == if r.Ok? then r.value else old(filp.fPos)
    {
      ghost var outcome := LlseekOutcome(log, circularBuffer.cap, filp.fPos, off, whence, interrupted);
      var newpos: int;
      if whence == 0 {
        newpos := off;
      } else if whence == 1 {
        newpos := WrapLoff(filp.fPos + off);
      } else if whence == 2 {
        if interrupted {
          return Err(ERESTARTSYS);
        }
        var fileSize := FileSize();
        newpos := WrapLoff(WrapInt(fileSize - 1) + off);
      } else {
        return Err(EINVAL);
      }
      assert outcome == if newpos < 0 then Err(EINVAL) else Ok(newpos);
      if newpos < 0 {
        return Err(EINVAL);
      }
      filp.fPos := newpos;
      return Ok(newpos);
    }

    /** The part of aesd_ioctl under the mutex: what to add to the position, or None for EINVAL. */
    method SeekTo(writeCmd: nat, writeCmdOffset: nat) returns (target: Option<int>)
      requires Valid()
      ensures target == IoctlTarget(Lengths(Live()), circularBuffer.cap, writeCmd, writeCmdOffset)
    {
      State().SeekIsTarget(circularBuffer.added, log, writeCmd, writeCmdOffset);
      target := circularBuffer.SeekOffset(writeCmd, writeCmdOffset);
    }

    /** aesd_ioctl. */
    method Ioctl(filp: File, isSeekTo: bool, writeCmd: nat, writeCmdOffset: nat, env: Env) returns (r: Result<nat>)
      requires Valid()
      modifies filp
      ensures Valid()
      ensures
        var outcome := IoctlOutcome(log, circularBuffer.cap, isSeekTo, writeCmd, writeCmdOffset, env);
        && r == (if outcome.Ok? then Ok(0) else Err(outcome.errno))
        && filp.fPos == IoctlPosition(old(filp.fPos), outcome)
      ensures !isSeekTo ==> r == Err(EINVAL)
      ensures r == Err(EFAULT) <==> isSeekTo && env.uncopied > 0
      ensures r == Err(ERESTARTSYS) <==> isSeekTo && env.uncopied == 0 && env.interrupted
    {
      if !isSeekTo {
        return Err(EINVAL);
      }
      if env.uncopied > 0 {
        return Err(EFAULT);
      }
      if env.interrupted {
        return Err(ERESTARTSYS);
      }
      var target := SeekTo(writeCmd, writeCmdOffset);
      if target.None? {
        return Err(EINVAL);
      }
      filp.fPos := WrapLoff(filp.fPos + target.value);
      return Ok(0);
    }

    /**
     * aesd_cleanup_module: every buffer ever committed has been freed once, and what can be left
     * over is the pending buffer.
     */
    method Cleanup()
      requires Valid()
      modifies this`heap
      ensures heap.Valid()
      ensures heap.blocks.Keys == if pWriteBuffer == NULL then {} else {pWriteBuffer}
      ensures forall i :: 0 <= i < |circularBuffer.added| ==> circularBuffer.added[i].buffptr in heap.freed
      ensures forall i, j :: 0 <= i < j < |circularBuffer.added| ==>
        circularBuffer.added[i].buffptr != circularBuffer.added[j].buffptr
    {
      ghost var dev, added := State(), circularBuffer.added;
      dev.SlotsOwnBlocks(added, log);
      heap := FreeSlots(circularBuffer.entry, heap, pWriteBuffer);
      dev.OnlyPendingLeft(added, log, heap);
      dev.BuffersDiffer(added, log);
      forall i | 0 <= i < |added|
        ensures added[i].buffptr in heap.freed
      {
        dev.AddedIsFreed(added, log, heap, i);
      }
    }
  }

  /** The module's device, of the size the header fixes. */
  method InitModule() returns (dev: AesdDev)
    ensures dev.Valid() && dev.log == EMPTY && dev.circularBuffer.cap == 10
  {
    dev := new AesdDev(MAX_WRITE_OPERATIONS_SUPPORTED);
  }

  /** AESD_CIRCULAR_BUFFER_FOREACH over all slots, live or not, freeing each slot's buffer. */
  method FreeSlots(entry: array<BufferEntry>, heap: Heap, ghost pending: Ptr) returns (h: Heap)
    requires heap.Valid() && SlotsOwn(heap.blocks, entry[..], pending)
    ensures FreedUpTo(heap, h, entry[..], entry.Length)
  {
    ghost var slots := entry[..];
    h := heap;
    var index := 0;
    while index < entry.Length
      invariant index <= entry.Length
      invariant FreedUpTo(heap, h, slots, index)
    {
      FreeNext(heap, h, slots, index, pending);
      h := h.Kfree(entry[index].buffptr);
      index := index + 1;
    }
  }
}
