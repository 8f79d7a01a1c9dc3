/** The live entries as one flat file: positional reads, and seeks by command and offset. */
module DeviceFile {
  import opened Common
  import opened Sequences

  /** What one successful read delivers: the rest of the entry at fPos, at most count bytes. */
  function ReadAt(live: seq<seq<byte>>, fPos: nat, count: nat): (bytes: seq<byte>)
    ensures |bytes| <= count
  {
    if live == [] then []
    else if fPos < |live[0]| then
      if |live[0]| - fPos > count then live[0][fPos..fPos + count] else live[0][fPos..]
    else ReadAt(live[1..], fPos - |live[0]|, count)
  }

  /** A read past the end delivers nothing. */
  lemma {:induction false} ReadPastEnd(live: seq<seq<byte>>, fPos: nat, count: nat)
    requires |Flatten(live)| <= fPos
    ensures ReadAt(live, fPos, count) == []
  {
    if live == [] {
    } else {
      ReadPastEnd(live[1..], fPos - |live[0]|, count);
    }
  }

  /** Any other read delivers bytes of exactly one entry, from the position on. */
  lemma {:induction false} ReadWithinEntry(live: seq<seq<byte>>, fPos: nat, count: nat, i: nat, b: nat)
    requires At(Lengths(live), fPos, i, b)
    ensures ReadAt(live, fPos, count) == live[i][b..b + Min(count, |live[i]| - b)]
    decreases i
  {
    if i == 0 {
    } else {
      var ns := Lengths(live);
      assert Sum(ns, 1) == Sum(ns, 0) + ns[0];
      SumMonotone(ns, 1, i);
      SumTail(ns, i);
      assert Lengths(live[1..]) == ns[1..];
      ReadWithinEntry(live[1..], fPos - |live[0]|, count, i - 1, b);
    }
  }

  /** One read delivers the bytes of the flat file at fPos, and some whenever it can. */
  lemma ReadIsSlice(live: seq<seq<byte>>, fPos: nat, count: nat)
    ensures
      var bytes := ReadAt(live, fPos, count);
      && (bytes == [] <==> count == 0 || |Flatten(live)| <= fPos)
      && (bytes != [] ==> fPos + |bytes| <= |Flatten(live)| && bytes == Flatten(live)[fPos..fPos + |bytes|])
  {
    if |Flatten(live)| <= fPos {
      ReadPastEnd(live, fPos, count);
    } else {
      FlattenTotal(live);
      var i, b := AtExistsBelow(Lengths(live), fPos, |live|);
      ReadWithinEntry(live, fPos, count, i, b);
      FlattenAt(live, fPos, i, b);
      FlattenCut(live, i);
    }
  }

  // ----- Reading to the end of the file -------------------------------------------------------

  /** The deliveries of successive reads from fPos on an unchanged device. */
  function ReadMany(live: seq<seq<byte>>, fPos: nat, counts: seq<nat>): (ds: seq<seq<byte>>)
    ensures |ds| == |counts|
    decreases |counts|
  {
    if counts == [] then [] else
      var bytes := ReadAt(live, fPos, counts[0]);
      [bytes] + ReadMany(live, fPos + |bytes|, counts[1..])
  }

  /** What is left of the file from a position that may lie past its end. */
  function Rest(live: seq<seq<byte>>, fPos: nat): seq<byte> {
    Flatten(live)[Min(fPos, |Flatten(live)|)..]
  }

  /**
   * Reads with positive counts deliver the file from fPos on, without gap or repetition, and one
   * that returns 0 has the whole rest delivered before it.
   */
  lemma {:induction false} ReadToEof(live: seq<seq<byte>>, fPos: nat, counts: seq<nat>)
    requires forall i :: 0 <= i < |counts| ==> counts[i] > 0
    ensures
      var rest, ds := Rest(live, fPos), ReadMany(live, fPos, counts);
      && Flatten(ds) <= rest
      && (forall i :: 0 <= i < |ds| && ds[i] == [] ==> Flatten(ds) == rest)
    decreases |counts|
  {
    if counts == [] {
    } else {
      var bytes, ds := ReadAt(live, fPos, counts[0]), ReadMany(live, fPos, counts);
      assert ds[1..] == ReadMany(live, fPos + |bytes|, counts[1..]);
      ReadStep(live, fPos, counts[0]);
      if bytes == [] {
        ReadsAtEof(live, fPos, counts);
      } else {
        ReadToEof(live, fPos + |bytes|, counts[1..]);
        PieceInFront(bytes, ds[1..], Rest(live, fPos + |bytes|));
      }
    }
  }

  /** A non-empty piece in front of pieces of the rest. */
  lemma PieceInFront(bytes: seq<byte>, ds: seq<seq<byte>>, rest: seq<byte>)
    requires Flatten(ds) <= rest && bytes != []
    ensures Flatten([bytes] + ds) == bytes + Flatten(ds) <= bytes + rest
    ensures Flatten([bytes] + ds) == bytes + rest <==> Flatten(ds) == rest
    ensures forall i :: 0 <= i < |[bytes] + ds| && ([bytes] + ds)[i] == [] ==> 1 <= i && ds[i - 1] == []
  {
    FlattenCons(bytes, ds);
    assert (bytes + rest)[|bytes|..] == rest && (bytes + Flatten(ds))[|bytes|..] == Flatten(ds);
  }

  /** A read with a positive count takes its bytes off the front of the rest. */
  lemma ReadStep(live: seq<seq<byte>>, fPos: nat, count: nat)
    requires count > 0
    ensures
      var bytes := ReadAt(live, fPos, count);
      && Rest(live, fPos) == bytes + Rest(live, fPos + |bytes|)
      && (bytes == [] <==> Rest(live, fPos) == [])
      && (bytes == [] <==> |Flatten(live)| <= fPos)
  {
    ReadIsSlice(live, fPos, count);
  }

  /** A read that returns 0 comes at the latest after as many reads as there are bytes left. */
  lemma {:induction false} ReadsReachEof(live: seq<seq<byte>>, fPos: nat, counts: seq<nat>)
    requires forall i :: 0 <= i < |counts| ==> counts[i] > 0
    requires |Rest(live, fPos)| < |counts|
    ensures ReadMany(live, fPos, counts)[|counts| - 1] == []
    decreases |counts|
  {
    var bytes := ReadAt(live, fPos, counts[0]);
    ReadStep(live, fPos, counts[0]);
    if bytes == [] {
      ReadsAtEof(live, fPos, counts);
    } else {
      ReadsReachEof(live, fPos + |bytes|, counts[1..]);
    }
  }

  lemma {:induction false} ReadsAtEof(live: seq<seq<byte>>, fPos: nat, counts: seq<nat>)
    requires |Flatten(live)| <= fPos
    ensures Flatten(ReadMany(live, fPos, counts)) == []
    ensures forall i :: 0 <= i < |counts| ==> ReadMany(live, fPos, counts)[i] == []
    decreases |counts|
  {
    if counts == [] {
    } else {
      ReadIsSlice(live, fPos, counts[0]);
      ReadsAtEof(live, fPos, counts[1..]);
    }
  }

  // ----- Seeking ------------------------------------------------------------------------------

  /**
   * The flat position AESDCHAR_IOCSEEKTO adds to the file position, or None for EINVAL. The bound
   * is `write_cmd > cap`, so command cap comes through and lands where command 0 does.
   */
  function SeekTarget(sizes: seq<nat>, cap: nat, cmd: nat, off: nat): Option<nat> {
    if cmd < |sizes| && off < sizes[cmd] then Some(Sum(sizes, cmd) + off)
    else if cmd == cap && sizes != [] && off < sizes[0] then Some(off)
    else None
  }

  /** A seek to byte o of command c goes where the lookup finds byte o of entry c, and is refused otherwise. */
  lemma SeekThenLookup(sizes: seq<nat>, cap: nat, c: nat, o: nat, p: nat)
    requires c < cap
    ensures SeekTarget(sizes, cap, c, o) == Some(p) <==> At(sizes, p, c, o)
  {
  }

  /** The accepted pairs below cap number the bytes of the file, each once. */
  lemma SeeksNumberTheFile(sizes: seq<nat>, cap: nat, p: nat)
    requires |sizes| <= cap
    ensures p < Total(sizes) <==> exists c: nat, o: nat :: c < cap && SeekTarget(sizes, cap, c, o) == Some(p)
    ensures forall c: nat, o: nat, c': nat, o': nat ::
      c < cap && c' < cap && SeekTarget(sizes, cap, c, o) == Some(p) && SeekTarget(sizes, cap, c', o') == Some(p)
      ==> c == c' && o == o'
  {
    if p < Total(sizes) {
      var c, o := AtExistsBelow(sizes, p, |sizes|);
      assert c < cap && SeekTarget(sizes, cap, c, o) == Some(p);
    }
    forall c: nat, o: nat | c < cap && SeekTarget(sizes, cap, c, o) == Some(p)
      ensures p < Total(sizes)
    {
      AtInRange(sizes, p, c, o);
    }
    forall c: nat, o: nat, c': nat, o': nat |
      c < cap && c' < cap && SeekTarget(sizes, cap, c, o) == Some(p) && SeekTarget(sizes, cap, c', o') == Some(p)
      ensures c == c' && o == o'
    {
      AtUnique(sizes, p, c, o, c', o');
    }
  }

  /** A read after a seek to byte o of command c delivers that entry from byte o on, and no other bytes. */
  lemma SeekThenRead(live: seq<seq<byte>>, cap: nat, c: nat, o: nat, p: nat, count: nat)
    requires c < cap && SeekTarget(Lengths(live), cap, c, o) == Some(p)
    ensures c < |live| && o < |live[c]|
    ensures ReadAt(live, p, count) == live[c][o..o + Min(count, |live[c]| - o)]
  {
    SeekThenLookup(Lengths(live), cap, c, o, p);
    ReadWithinEntry(live, p, count, c, o);
  }

  /** What the ioctl adds to the file position when sizes and sums go through 32-bit ints. */
  function IoctlTarget(sizes: seq<nat>, cap: nat, cmd: nat, off: nat): Option<int> {
    var c := if cmd == cap then 0 else cmd;
    if cmd <= cap && c < |sizes| && off < WrapU32(sizes[c]) then Some(WrapInt(Sum(sizes, c) + off)) else None
  }

  /** The ioctl's target is the sought position exactly when neither the entry's size nor the position wraps. */
  lemma IoctlIsSeek(sizes: seq<nat>, cap: nat, cmd: nat, off: nat)
    requires |sizes| <= cap
    ensures
      var seek := SeekTarget(sizes, cap, cmd, off);
      IoctlTarget(sizes, cap, cmd, off) == seek
      <==> (seek.Some? ==> off < WrapU32(sizes[if cmd == cap then 0 else cmd]) && seek.value <= INT_MAX)
  {
    var c := if cmd == cap then 0 else cmd;
    if c < |sizes| { WrapU32AtMost(sizes[c]); }
  }

  lemma WrapU32AtMost(x: nat)
    ensures WrapU32(x) <= x
  {
  }

  lemma WrapIntAtMost(x: nat)
    ensures WrapInt(x) <= x
  {
  }

  /** Even a wrapped target never lies past the end of the file. */
  lemma TargetInFile(sizes: seq<nat>, cap: nat, cmd: nat, off: nat)
    ensures
      var target := IoctlTarget(sizes, cap, cmd, off);
      target.Some? ==> target.value <= Total(sizes)
  {
    var c := if cmd == cap then 0 else cmd;
    if cmd <= cap && c < |sizes| && off < WrapU32(sizes[c]) {
      WrapU32AtMost(sizes[c]);
      WrapIntAtMost(Sum(sizes, c) + off);
      SumMonotone(sizes, c + 1, |sizes|);
    }
  }

  /** Where SEEK_END counts from: the loop over the live entries is not entered when the ring is full. */
  function EndSum(sizes: seq<nat>, full: bool): int {
    WrapInt(if full then 0 else Total(sizes))
  }

  /** That count is the file size exactly when the ring is not full and the file fits an int. */
  lemma EndSumExact(sizes: seq<nat>, full: bool)
    requires full ==> sizes != [] && sizes[0] > 0
    ensures EndSum(sizes, full) == Total(sizes) <==> !full && Total(sizes) <= INT_MAX
  {
    if full { SumMonotone(sizes, 1, |sizes|); }
  }
}
