/** Arithmetic of indices that wrap round a ring. */
module RingIndex {

  /** x % cap for x below 2 * cap, without the division. */
  function Wrap(x: nat, cap: nat): (r: nat)
    requires x < 2 * cap
    ensures r < cap
  {
    if x < cap then x else x - cap
  }

  lemma ModUnique(x: nat, q: nat, r: nat, cap: nat)
    requires r < cap && x == q * cap + r
    ensures x % cap == r
  {
    var q' := x / cap;
    if q < q' {
      MulGap(q, q', cap);
    } else if q' < q {
      MulGap(q', q, cap);
    }
  }

  lemma MulGap(a: nat, b: nat, cap: nat)
    requires a < b
    ensures b * cap >= a * cap + cap
  {
    assert b * cap == (b - a - 1) * cap + a * cap + cap;
  }

  lemma WrapIsMod(x: nat, cap: nat)
    requires x < 2 * cap
    ensures x % cap == Wrap(x, cap)
  {
    ModUnique(x, if x < cap then 0 else 1, Wrap(x, cap), cap);
  }

  /** Where the n-th step round the ring ends, counting from slot 0. */
  function InIndex(n: nat, cap: nat): (r: nat)
    requires 1 <= cap
    ensures r < cap
    ensures n < cap ==> r == n
  {
    if n == 0 then 0 else Wrap(InIndex(n - 1, cap) + 1, cap)
  }

  lemma {:induction false} InIndexIsMod(n: nat, cap: nat)
    requires 1 <= cap
    ensures InIndex(n, cap) == n % cap
  {
    if n == 0 {
      WrapIsMod(0, cap);
    } else {
      InIndexIsMod(n - 1, cap);
      ModStep(n - 1, cap);
    }
  }

  /** Going round in two parts. */
  lemma {:induction false} InIndexAdd(n: nat, j: nat, cap: nat)
    requires 1 <= cap && j <= cap
    ensures InIndex(n + j, cap) == Wrap(InIndex(n, cap) + j, cap)
  {
    if j == 0 {
    } else {
      InIndexAdd(n, j - 1, cap);
    }
  }

  /** The slot n after offs, going round the end. */
  function Advance(offs: nat, n: nat, cap: nat): (r: nat)
    requires offs < cap && n <= cap
  {
    Wrap(offs + n, cap)
  }

  /** The slot after offs, going round the end. */
  function Next(offs: nat, cap: nat): (r: nat)
    requires offs < cap
  {
    Wrap(offs + 1, cap)
  }

  /** Both are the source's remainders. */
  lemma StepsAreRemainders(offs: nat, n: nat, cap: nat)
    requires offs < cap && n <= cap
    ensures Advance(offs, n, cap) == (n + offs) % cap
    ensures Next(offs, cap) == (offs + 1) % cap
  {
    WrapIsMod(offs + n, cap);
    WrapIsMod(offs + 1, cap);
  }

  lemma ModStep(n: nat, cap: nat)
    requires 1 <= cap
    ensures (n + 1) % cap == Wrap(n % cap + 1, cap)
  {
    var q, r := n / cap, n % cap;
    if r + 1 == cap {
      assert n + 1 == (q + 1) * cap;
      ModUnique(n + 1, q + 1, 0, cap);
    } else {
      ModUnique(n + 1, q, r + 1, cap);
    }
  }
}

/** The ring of aesd-circular-buffer.c. */
module CircularBuffer {
  import opened Common
  import opened Sequences
  import opened RingIndex
  import opened KernelHeap
  import opened DeviceFile

  /** AESDCHAR_MAX_WRITE_OPERATIONS_SUPPORTED; every result below holds for any capacity. */
  const MAX_WRITE_OPERATIONS_SUPPORTED: nat := 10

  datatype BufferEntry = BufferEntry(buffptr: Ptr, size: nat)

  const ZEROED := BufferEntry(NULL, 0)

  function Sizes(es: seq<BufferEntry>): (ns: seq<nat>)
    ensures |ns| == |es|
    ensures forall i :: 0 <= i < |es| ==> ns[i] == es[i].size
  {
    seq(|es|, i requires 0 <= i < |es| => es[i].size)
  }

  /** The fields of struct aesd_circular_buffer. */
  datatype RingState = RingState(slots: seq<BufferEntry>, inOffs: nat, outOffs: nat, full: bool) {

    ghost predicate InBounds() {
      inOffs < |slots| && outOffs < |slots|
    }

    /** The number of live entries, told from the offsets and the full flag alone. */
    ghost function Count(): (c: nat)
      requires InBounds()
      ensures c <= |slots|
    {
      if full then |slots| else if outOffs <= inOffs then inOffs - outOffs else inOffs + |slots| - outOffs
    }

    /** The live entries read from outOffs onwards, oldest first. */
    ghost function View(): (v: seq<BufferEntry>)
      requires InBounds()
      ensures |v| == Count()
      ensures forall i {:trigger v[i]} :: 0 <= i < Count() ==> v[i] == slots[Wrap(outOffs + i, |slots|)]
    {
      seq(Count(), i requires 0 <= i < Count() => slots[Wrap(outOffs + i, |slots|)])
    }

    /** How many slots after outOffs a slot lies. */
    ghost function Age(slot: nat): (i: nat)
      requires InBounds() && slot < |slots|
      ensures i < |slots| && slot == Wrap(outOffs + i, |slots|)
    {
      if outOffs <= slot then slot - outOffs else slot + |slots| - outOffs
    }

    /** A lookup answer with its slot replaced by the entry's place in the view. */
    ghost function InView(r: Option<(nat, nat)>): Option<(nat, nat)>
      requires InBounds() && (r.Some? ==> r.value.0 < |slots|)
    {
      match r
      case None => None
      case Some((slot, b)) => Some((Age(slot), b))
    }

    /** What the lookup relies on; far less than After. */
    ghost predicate Consistent() {
      && InBounds()
      && (full ==> inOffs == outOffs)
      && (Count() == 0 ==> slots[outOffs].size == 0)
    }

    /** How many of the entries added are no longer live. */
    ghost function Evicted(added: seq<BufferEntry>): (n: nat)
      ensures n <= |added|
    {
      if |added| <= |slots| then 0 else |added| - |slots|
    }

    /** The i-th live entry, or a zeroed one when there are not as many. */
    ghost function Aged(added: seq<BufferEntry>, i: nat): BufferEntry {
      if Evicted(added) + i < |added| then added[Evicted(added) + i] else ZEROED
    }

    /** The closed form of the ring after init and the given additions. */
    ghost predicate After(added: seq<BufferEntry>) {
      && InBounds()
      && inOffs == InIndex(|added|, |slots|)
      && full == (|slots| <= |added|)
      && outOffs == (if full then inOffs else 0)
      && SlotsAre(added)
    }

    /** Each slot holds the live entry of its age, or is still zeroed. */
    ghost predicate SlotsAre(added: seq<BufferEntry>)
      requires InBounds()
    {
      forall k :: 0 <= k < |slots| ==> slots[k] == Aged(added, Age(k))
    }

    lemma ViewAt(added: seq<BufferEntry>, i: nat)
      requires After(added) && i < Count()
      ensures Evicted(added) + i < |added| && slots[Wrap(outOffs + i, |slots|)] == added[Evicted(added) + i]
    {
      assert Age(Wrap(outOffs + i, |slots|)) == i;
    }

    /** The window is the last additions, as many as there is room for. */
    lemma ViewIsLast(added: seq<BufferEntry>)
      requires After(added)
      ensures Count() == |added| - Evicted(added)
      ensures View() == Last(added, |slots|)
    {
      forall i | 0 <= i < Count()
        ensures View()[i] == added[Evicted(added) + i]
      {
        ViewAt(added, i);
      }
    }

    /** The sum of the sizes of the first k live entries, as a 32-bit int. */
    ghost function SizeSum(k: nat): int
      requires InBounds() && k <= Count()
    {
      WrapInt(Sum(Sizes(View()), k))
    }

    /** Slots outside the window have size 0; the seek ioctl has no other way to tell them. */
    ghost predicate SparesEmpty() {
      InBounds() && forall slot :: 0 <= slot < |slots| && Count() <= Age(slot) ==> slots[slot].size == 0
    }

    /** The entry whose start a command names; command |slots| comes round to the first. */
    ghost function CommandIndex(cmd: nat): nat {
      if cmd == |slots| then 0 else cmd
    }

    /** The slot a command names is its entry's, or one of size 0. */
    lemma CommandSlot(cmd: nat)
      requires SparesEmpty() && cmd <= |slots|
      ensures
        var slot, c := Wrap(outOffs + cmd, |slots|), CommandIndex(cmd);
        && c < |slots| && slot == Wrap(outOffs + c, |slots|)
        && slots[slot].size == (if c < Count() then Sizes(View())[c] else 0)
    {
    }

    /** What the ioctl adds to the file position, if it accepts. */
    ghost function SeekOffset(cmd: nat, off: nat): Option<int>
      requires SparesEmpty()
    {
      IoctlTarget(Sizes(View()), |slots|, cmd, off)
    }

    /** The ioctl's test on the slot a command names decides; the sizes before it give the target. */
    lemma SeekOffsetBySlot(cmd: nat, off: nat)
      requires SparesEmpty()
      ensures cmd > |slots| ==> SeekOffset(cmd, off) == None
      ensures cmd <= |slots| ==>
        var slot, c := Wrap(outOffs + cmd, |slots|), CommandIndex(cmd);
        if off < WrapU32(WrapInt(slots[slot].size)) then
          && c <= Count() && c < |slots| && slot == Wrap(outOffs + c, |slots|)
          && SeekOffset(cmd, off) == Some(WrapInt(SizeSum(c) + off))
        else SeekOffset(cmd, off) == None
    {
      if cmd <= |slots| {
        CommandSlot(cmd);
        WrapU32OfInt(slots[Wrap(outOffs + cmd, |slots|)].size);
        if CommandIndex(cmd) < Count() {
          WrapIntAdd(Sum(Sizes(View()), CommandIndex(cmd)), off);
        }
      }
    }

    /**
     * The lookup undoes the seek: from position 0, it answers the command's slot and the offset in it,
     * exactly when the sought position fits an int.
     */
    lemma SeekThenFind(cmd: nat, off: nat, p: nat, r: Option<(nat, nat)>)
      requires SparesEmpty() && cmd < |slots|
      requires 0 < Count() && View()[0].size > 0
      requires SeekOffset(cmd, off) == Some(p) && Answers(r, p)
      ensures r == Some((Wrap(outOffs + cmd, |slots|), off)) <==> Sum(Sizes(View()), cmd) + off <= INT_MAX
    {
      var sizes := Sizes(View());
      var slot := Wrap(outOffs + cmd, |slots|);
      WrapU32AtMost(sizes[cmd]);
      assert Age(slot) == cmd;
      if Sum(sizes, cmd) + off <= INT_MAX {
        AtInRange(sizes, p, cmd, off);
        AtUnique(sizes, p, cmd, off, Age(r.value.0), r.value.1);
      }
    }

    /** One step of a summing loop at the k-th slot, which has not reached the c-th. */
    lemma SumStep(k: nat, c: nat)
      requires InBounds() && k < c <= Count() && c < |slots|
      ensures
        var slot := Wrap(outOffs + k, |slots|);
        && slot != Wrap(outOffs + c, |slots|)
        && Next(slot, |slots|) == Wrap(outOffs + k + 1, |slots|)
        && SizeSum(k + 1) == WrapInt(SizeSum(k) + slots[slot].size)
    {
      WrapIntAdd(Sum(Sizes(View()), k), View()[k].size);
    }

    /** The state aesd_circular_buffer_add_entry leaves. */
    ghost function Add(e: BufferEntry): RingState
      requires InBounds()
    {
      var inOffs' := Next(inOffs, |slots|);
      var outOffs' := if full then Next(outOffs, |slots|) else outOffs;
      RingState(slots[inOffs := e], inOffs', outOffs', inOffs' == outOffs')
    }

    lemma AddKeepsClosedForm(added: seq<BufferEntry>, e: BufferEntry)
      requires After(added)
      ensures Add(e).After(added + [e])
    {
      forall k | 0 <= k < |slots|
        ensures Add(e).slots[k] == Add(e).Aged(added + [e], Add(e).Age(k))
      {
        AddedSlot(added, e, k);
      }
    }

    /** An addition makes every other live entry one younger in a full ring, and moves none otherwise. */
    lemma AddedSlot(added: seq<BufferEntry>, e: BufferEntry, k: nat)
      requires After(added) && k < |slots|
      ensures Add(e).slots[k] == Add(e).Aged(added + [e], Add(e).Age(k))
    {
    }

    /** The m-th addition, while live, sits at slot m modulo the capacity. */
    lemma LiveSlot(added: seq<BufferEntry>, m: nat)
      requires After(added)
      requires m < |added| <= m + |slots|
      ensures slots[m % |slots|] == added[m]
    {
      InIndexIsMod(m, |slots|);
      InIndexAdd(m, |added| - m, |slots|);
      assert Age(m % |slots|) == m - Evicted(added);
    }

    lemma FullView()
      requires InBounds() && full
      ensures View() == slots[outOffs..] + slots[..outOffs]
    {
    }

    lemma PartView(added: seq<BufferEntry>)
      requires After(added) && !full
      ensures slots == View() + slots[Count()..]
      ensures forall k :: Count() <= k < |slots| ==> slots[k] == ZEROED
    {
    }

    /** Summing all slots in slot order, as SEEK_END should, gives the file size, full or not. */
    lemma AllSlotsSum(added: seq<BufferEntry>)
      requires After(added)
      ensures Total(Sizes(slots)) == Total(Sizes(View()))
    {
      if full {
        FullView();
        RotatedSum(slots[..outOffs], slots[outOffs..]);
        assert slots == slots[..outOffs] + slots[outOffs..];
      } else {
        PartView(added);
        PaddedSum(View(), slots[Count()..]);
      }
    }

    lemma AfterIsConsistent(added: seq<BufferEntry>)
      requires After(added)
      ensures Consistent() && SparesEmpty()
      ensures Count() == |added| - Evicted(added) && View() == Last(added, |slots|)
    {
      ViewIsLast(added);
    }

    /** The scan is at the k-th slot after outOffs, past size bytes, and has not reached off. */
    ghost predicate Scanning(k: nat, offset: nat, size: nat, off: nat) {
      && Consistent()
      && k < |slots| && offset == Wrap(outOffs + k, |slots|)
      && Scanned(Sizes(View()), k, size, off)
    }

    /** r is what the lookup may answer for off. */
    ghost predicate Answers(r: Option<(nat, nat)>, off: nat) {
      && InBounds()
      && (r.Some? ==> r.value.0 < |slots|)
      && LookupResult(Sizes(View()), off, InView(r))
    }

    /** An answer on a ring whose oldest live entry has bytes is a live entry that covers the offset. */
    lemma AnswerIsLive(slot: nat, b: nat, off: nat)
      requires Answers(Some((slot, b)), off) && 0 < Count() && View()[0].size > 0
      ensures slot < |slots| && Age(slot) < Count() && At(Sizes(View()), off, Age(slot), b)
    {
    }

    /** What the scan finds at its k-th slot. */
    lemma ScanSlot(k: nat, offset: nat, size: nat, off: nat)
      requires Scanning(k, offset, size, off)
      ensures slots[offset].size == if k < Count() then Sizes(View())[k] else 0
      ensures Count() == 0 ==> k == 0
      ensures size + slots[offset].size <= Total(Sizes(View()))
    {
      if k < Count() { SumMonotone(Sizes(View()), k + 1, Count()); }
    }

    lemma ScanStops(k: nat, offset: nat, size: nat, off: nat)
      requires Scanning(k, offset, size, off)
      requires size + slots[offset].size == 0 || off < size + slots[offset].size
      ensures Answers(Some((offset, off - size)), off)
    {
      ScanSlot(k, offset, size, off);
      ScanHit(Sizes(View()), k, size, slots[offset].size, off);
    }

    lemma ScanGoesOn(k: nat, offset: nat, size: nat, off: nat)
      requires Scanning(k, offset, size, off)
      requires 0 < size + slots[offset].size <= off
      ensures
        if Next(offset, |slots|) == inOffs then Answers(None, off)
        else Scanning(k + 1, Next(offset, |slots|), size + slots[offset].size, off)
    {
      ScanSlot(k, offset, size, off);
      ScanMiss(Sizes(View()), k, size, slots[offset].size, off);
    }

    /** The scan is at some slot, past size bytes, and has not reached off. */
    ghost predicate Scans(offset: nat, size: nat, off: nat) {
      Consistent() && offset < |slots| && exists k :: Scanning(k, offset, size, off)
    }

    lemma ScanStarts(off: nat)
      requires Consistent()
      ensures Scans(outOffs, 0, off)
    {
      assert Scanning(0, outOffs, 0, off);
    }

    /** In size_t arithmetic a round of the scan adds without wrapping, and stops as ScanStops or goes on. */
    lemma ScanRound(offset: nat, size: nat, off: nat)
      requires Scans(offset, size, off)
      requires off <= SIZE_MAX && Total(Sizes(View())) <= SIZE_MAX
      ensures
        var passed, next := size + slots[offset].size, Next(offset, |slots|);
        && passed <= SIZE_MAX
        && (off <= WrapSize(passed - 1) <==> passed == 0 || off < passed)
        && if off <= WrapSize(passed - 1) then size <= off && Answers(Some((offset, off - size)), off)
           else if next == inOffs then Answers(None, off)
           else Scans(next, passed, off) && Age(offset) < Age(next)
    {
      var k :| Scanning(k, offset, size, off);
      ScanSlot(k, offset, size, off);
      if size + slots[offset].size == 0 || off < size + slots[offset].size {
        ScanStops(k, offset, size, off);
      } else {
        ScanGoesOn(k, offset, size, off);
      }
    }
  }

  lemma RotatedSum(head: seq<BufferEntry>, tail: seq<BufferEntry>)
    ensures Total(Sizes(head + tail)) == Total(Sizes(tail + head))
  {
    TotalOfConcat(Sizes(head), Sizes(tail));
    TotalOfConcat(Sizes(tail), Sizes(head));
    assert Sizes(head + tail) == Sizes(head) + Sizes(tail);
    assert Sizes(tail + head) == Sizes(tail) + Sizes(head);
  }

  lemma PaddedSum(view: seq<BufferEntry>, spare: seq<BufferEntry>)
    requires forall k :: 0 <= k < |spare| ==> spare[k] == ZEROED
    ensures Total(Sizes(view + spare)) == Total(Sizes(view))
  {
    TotalOfConcat(Sizes(view), Sizes(spare));
    SumOfZeros(Sizes(spare), |spare|);
    assert Sizes(view + spare) == Sizes(view) + Sizes(spare);
  }

  /** The struct after memset, with room for cap entries. */
  function Zero(cap: nat): RingState {
    RingState(seq(cap, _ => ZEROED), 0, 0, false)
  }

  ghost function AddAll(cap: nat, es: seq<BufferEntry>): (r: RingState)
    requires 1 <= cap
    ensures r.InBounds() && |r.slots| == cap
  {
    if es == [] then Zero(cap) else AddAll(cap, es[..|es| - 1]).Add(es[|es| - 1])
  }

  /** After any additions the offsets, the flag and every slot are a closed form of what was added. */
  lemma {:induction false} RingClosedForm(cap: nat, es: seq<BufferEntry>)
    requires 1 <= cap
    ensures
      var r := AddAll(cap, es);
      && r.inOffs == |es| % cap
      && (r.full <==> cap <= |es|)
      && r.outOffs == (if r.full then r.inOffs else 0)
      && r.View() == Last(es, cap)
      && (forall m :: 0 <= m < |es| && |es| <= m + cap ==> r.slots[m % cap] == es[m])
      && (forall k :: |es| <= k < cap ==> r.slots[k] == ZEROED)
  {
    var r := AddAll(cap, es);
    AddAllAfter(cap, es);
    r.ViewIsLast(es);
    InIndexIsMod(|es|, cap);
    forall m | 0 <= m < |es| && |es| <= m + cap
      ensures r.slots[m % cap] == es[m]
    {
      r.LiveSlot(es, m);
    }
  }

  lemma {:induction false} AddAllAfter(cap: nat, es: seq<BufferEntry>)
    requires 1 <= cap
    ensures AddAll(cap, es).After(es)
  {
    if es == [] {
    } else {
      var init, e := es[..|es| - 1], es[|es| - 1];
      AddAllAfter(cap, init);
      AddAll(cap, init).AddKeepsClosedForm(init, e);
      assert init + [e] == es;
    }
  }

  /** r names the live entry, counted from the oldest, and the byte within it that lies at off; None past the end. */
  ghost predicate Locates(sizes: seq<nat>, off: nat, r: Option<(nat, nat)>) {
    match r
    case None => Total(sizes) <= off
    case Some((i, b)) => At(sizes, off, i, b)
  }

  /**
   * What the lookup answers: the right place when the oldest live entry has bytes. Without live
   * entries, or with an empty oldest one, `current_string_size - 1` wraps and the first slot is
   * answered, which is never right.
   */
  ghost predicate LookupResult(sizes: seq<nat>, off: nat, r: Option<(nat, nat)>) {
    var sound := sizes != [] && sizes[0] > 0;
    && (Locates(sizes, off, r) <==> sound)
    && (!sound ==> r == Some((0, off)))
  }

  /** The scan has passed k entries, holding size bytes in all, without reaching off. */
  ghost predicate Scanned(sizes: seq<nat>, k: nat, size: nat, off: nat) {
    && k <= |sizes|
    && (k == 0 || (k < |sizes| && sizes[0] > 0))
    && Sum(sizes, k) == size <= off
  }

  /** Stopping at an entry that covers off, or at an empty first slot. */
  lemma ScanHit(sizes: seq<nat>, k: nat, size: nat, here: nat, off: nat)
    requires Scanned(sizes, k, size, off)
    requires here == if k < |sizes| then sizes[k] else 0
    requires size + here == 0 || off < size + here
    ensures LookupResult(sizes, off, Some((k, off - size)))
  {
    if 0 < k { SumMonotone(sizes, 1, k); }
  }

  /** Going on past an entry that ends at or before off. */
  lemma ScanMiss(sizes: seq<nat>, k: nat, size: nat, here: nat, off: nat)
    requires Scanned(sizes, k, size, off)
    requires here == if k < |sizes| then sizes[k] else 0
    requires 0 < size + here <= off
    ensures k < |sizes|
    ensures if k + 1 == |sizes| then LookupResult(sizes, off, None) else Scanned(sizes, k + 1, size + here, off)
  {
    if 0 < k { SumMonotone(sizes, 1, k); }
  }

  class Ring {
    const cap: nat
    const entry: array<BufferEntry>
    var inOffs: nat
    var outOffs: nat
    var full: bool

    /** Every entry added since init, oldest first. */
    ghost var added: seq<BufferEntry>

    ghost function State(): RingState
      reads this, entry
    {
      RingState(entry[..], inOffs, outOffs, full)
    }

    ghost predicate Valid()
      reads this, entry
    {
      cap == entry.Length && State().After(added)
    }

    /** The struct zeroed by aesd_circular_buffer_init. */
    constructor (cap: nat)
      requires 1 <= cap
      ensures Valid() && fresh(entry)
      ensures this.cap == cap && added == []
    {
      this.cap := cap;
      entry := new BufferEntry[cap](_ => ZEROED);
      inOffs, outOffs, full := 0, 0, false;
      added := [];
    }

    method AddEntry(e: BufferEntry)
      requires Valid()
      modifies this`inOffs, this`outOffs, this`full, this`added, entry
      ensures Valid()
      ensures added == old(added) + [e]
      ensures State() == old(State()).Add(e)
    {
      ghost var before := State();
      before.AddKeepsClosedForm(added, e);

      entry[inOffs] := e;
      if full {
        outOffs := Next(outOffs, cap);
      }
      inOffs := Next(inOffs, cap);
      full := inOffs == outOffs;

      added := added + [e];
      assert State() == before.Add(e);
    }

    /** aesd_circular_buffer_find_entry_offset_for_fpos: the slot and the byte within it, or None for NULL. */
    method FindEntryOffsetForFpos(charOffset: nat) returns (r: Option<(nat, nat)>)
      requires State().Consistent()
      requires charOffset <= SIZE_MAX && Total(Sizes(State().View())) <= SIZE_MAX
      ensures State().Answers(r, charOffset)
    {
      ghost var st := State();
      var currentStringSize: nat := 0;
      var offset := outOffs;
      st.ScanStarts(charOffset);
      while true
        invariant State() == st && |st.slots| == entry.Length
        invariant st.Scans(offset, currentStringSize, charOffset)
        decreases |st.slots| - st.Age(offset)
      {
        st.ScanRound(offset, currentStringSize, charOffset);
        ghost var before := currentStringSize;
        currentStringSize := WrapSize(currentStringSize + entry[offset].size);
        if charOffset <= WrapSize(currentStringSize - 1) {
          r := Some((offset, WrapSize(charOffset - (currentStringSize - entry[offset].size))));
          assert r == Some((offset, charOffset - before));
          assert st.Answers(r, charOffset);
          return;
        }
        offset := Next(offset, entry.Length);
        if offset == inOffs {
          assert st.Answers(None, charOffset);
          return None;
        }
      }
    }

    /**
     * The loops of aesd_llseek and aesd_ioctl: from outOffs up to, not including, the slot stop,
     * which is the c-th from there.
     */
    method SumSizes(stop: nat, ghost c: nat) returns (sum: int)
      requires State().InBounds()
      requires c <= State().Count() && c < entry.Length && stop == Wrap(outOffs + c, entry.Length)
      ensures sum == State().SizeSum(c)
    {
      ghost var st, k: nat := State(), 0;
      sum := 0;
      var idx := outOffs;
      while idx != stop
        invariant k <= c && idx == Wrap(st.outOffs + k, |st.slots|)
        invariant sum == st.SizeSum(k)
        decreases c - k
      {
        st.SumStep(k, c);
        sum := WrapInt(sum + entry[idx].size);
        idx := Next(idx, entry.Length);
        k := k + 1;
      }
      if k < c { st.SumStep(k, c); }
    }

    /** The slot arithmetic of the ioctl: what to add to the file position, or None for EINVAL. */
    method SeekOffset(writeCmd: nat, writeCmdOffset: nat) returns (r: Option<int>)
      requires State().SparesEmpty()
      ensures r == State().SeekOffset(writeCmd, writeCmdOffset)
    {
      ghost var st := State();
      st.SeekOffsetBySlot(writeCmd, writeCmdOffset);
      if writeCmd > entry.Length {
        return None;
      }
      var cmdIdx := Advance(outOffs, writeCmd, entry.Length);
      var cmdSize := WrapInt(entry[cmdIdx].size);
      if writeCmdOffset < WrapU32(cmdSize) {
        var before := SumSizes(cmdIdx, st.CommandIndex(writeCmd));
        r := Some(WrapInt(before + writeCmdOffset));
        assert r == st.SeekOffset(writeCmd, writeCmdOffset);
        return;
      }
      return None;
    }
  }
}
