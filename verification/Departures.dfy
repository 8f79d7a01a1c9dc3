/**
 * One input each on which the code does not do what its interface suggests. The member named in
 * each comment says for every input when it does.
 */
module Departures {
  import opened Common
  import opened Sequences
  import opened KernelHeap
  import opened CircularBuffer
  import opened DeviceLog
  import opened DeviceFile
  import opened FileOperations
  import opened Driver
  import opened Receive
  import opened ThreadList

  /** Looking up position 0 of an empty ring answers its first slot instead of NULL. CircularBuffer.LookupResult. */
  lemma EmptyRingAnswers(r: Option<(nat, nat)>)
    requires Zero(10).Answers(r, 0)
    ensures r == Some((0, 0)) && Total(Sizes(Zero(10).View())) == 0
  {
    var ring := Zero(10);
    assert ring.View() == [];
    assert Sizes(ring.View()) == [];
    assert ring.InView(r) == Some((0, 0));
  }

  const SMOOTH := Env(false, InPlace, 0)

  /** One byte read at position 1 of an empty device is outside any buffer. Driver.AesdDev.Read. */
  lemma EmptyDeviceRead()
    ensures ReadOutcome(EMPTY, 10, 1, 1, SMOOTH) == OutsideBuffer
    ensures |EMPTY.File(10)| <= 1
  {
  }

  /** A failing copy returns 0 at the start of a file with a byte. FileOperations.ReadReturnsZero. */
  lemma FailedCopyReadsZero()
    ensures ReadOutcome(Log([[NL]], []), 10, 0, 1, Env(false, InPlace, 1)) == Returned(Ok(0), [])
    ensures |Log([[NL]], []).File(10)| == 1
  {
    FlattenTotal([[NL]]);
    assert Sum([1], 1) == Sum([1], 0) + 1;
    assert Lengths([[NL]]) == [1];
  }

  /**
   * SEEK_END on ten one-byte entries is refused at offset 0 and goes to the first byte at offset 1.
   * FileOperations.SeekEndLands.
   */
  lemma FullRingHasNoEnd()
    ensures
      var log := Log(seq(10, _ => [NL]), []);
      && LlseekOutcome(log, 10, 0, 0, 2, false) == Err(EINVAL)
      && LlseekOutcome(log, 10, 0, 1, 2, false) == Ok(0)
  {
  }

  /** A seek to byte 0 of the entry behind one of 2^31 bytes ends below 0. DeviceFile.IoctlIsSeek. */
  lemma SeekGoesNegative()
    ensures IoctlTarget([0x8000_0000, 1], 10, 1, 0) == Some(-(INT_MAX + 1))
  {
    assert Sum([0x8000_0000, 1], 1) == Sum([0x8000_0000, 1], 0) + 0x8000_0000;
  }

  /** From position -1, SEEK_CUR by the least offset goes to the greatest position. FileOperations.SeekMoves. */
  lemma SeekCurWraps()
    ensures LlseekOutcome(EMPTY, 10, -1, -(LOFF_MAX + 1), 1, false) == Ok(LOFF_MAX)
  {
  }

  /** Command 10 of a ten-slot ring with one entry is accepted as command 0. FileOperations.IoctlAcceptance. */
  lemma CommandTenIsAccepted()
    ensures IoctlOutcome(Log([[NL]], []), 10, true, 10, 0, SMOOTH) == Ok(0)
  {
    assert Log([[NL]], []).Live(10) == [[NL]];
  }

  /** An entry of 2^32 bytes has size 0 for the ioctl, which refuses its first byte. DeviceFile.IoctlIsSeek. */
  lemma LongEntryIsRefused()
    ensures SeekTarget([0x1_0000_0000], 10, 0, 0) == Some(0) && IoctlTarget([0x1_0000_0000], 10, 0, 0) == None
  {
  }

  /** From position 1, seeking byte 1 of command 0 ends at position 2. FileOperations.IoctlIsAbsolute. */
  lemma SeekIsRelative()
    ensures
      var r := IoctlOutcome(Log([[65, NL]], []), 10, true, 0, 1, SMOOTH);
      r == Ok(1) && IoctlPosition(1, r) == 2
  {
    assert Log([[65, NL]], []).Live(10) == [[65, NL]];
  }

  /** A krealloc that fails on a pending byte breaks the device. Driver.AesdDev.Write. */
  method ReallocFails() returns (dev: AesdDev)
    ensures !dev.Valid() && dev.log == Log([], [65])
  {
    dev := new AesdDev(10);
    var first := dev.Write([65], SMOOTH);
    assert dev.log == EMPTY.Append([65]) && [] + [65] == [65];
    var second := dev.Write([66], Env(false, Fails, 0));
  }

  /** Cleanup with a pending byte leaves its block. Driver.AesdDev.Cleanup. */
  method CleanupLeavesBlock() returns (dev: AesdDev)
    ensures dev.pWriteBuffer != NULL && dev.heap.blocks.Keys == {dev.pWriteBuffer}
  {
    dev := new AesdDev(10);
    var written := dev.Write([65], SMOOTH);
    dev.Cleanup();
  }

  /** A pass over one node whose thread is complete reads it after freeing it. ThreadList.List.ReapPass. */
  method PassReadsFreedNode() returns (ghost readsFreed: bool)
    ensures readsFreed
  {
    var list := new List();
    list.InsertHead(1);
    assert list.nodes[0].tid in {1};
    readsFreed := list.ReapPass({1});
  }

  /** A write with a byte behind its newline commits both, so the entry is no line. DeviceLog.LinesIffTidy. */
  lemma UntidyWrite()
    ensures AppendAll(EMPTY, [[NL, 65]]) == Log([[NL, 65]], [])
    ensures Lines(Flatten([[NL, 65]])) == Log([[NL]], [65])
  {
    assert [] + [NL, 65] == [NL, 65];
    assert AppendAll(EMPTY, [[NL, 65]]) == AppendAll(EMPTY.Append([NL, 65]), []);
    FlattenCons([NL, 65], []);
    assert Flatten([[NL, 65]]) == [NL] + [65];
    LinesCons([NL], [65]);
  }

  /** Two newline chunks on one connection write the first one twice. Receive.WrittenOnceIffOneWriter. */
  lemma SecondNewlineRepeats(sought: seq<(nat, nat)>)
    requires |sought| == 3
    ensures Written([[NL], [NL]], 2, sought) == [[NL], [NL, NL]]
  {
    var chunks: seq<seq<byte>> := [[NL], [NL]];
    assert CStr([NL]) == [NL] + CStr([]) == [NL];
    assert Text(chunks, 1) == Text(chunks, 0) + [NL] == [NL];
    assert Text(chunks, 2) == [NL] + [NL] == [NL, NL];
    WrittenStep(chunks, 0, sought);
    WrittenStep(chunks, 1, sought);
    assert [] + [[NL]] == [[NL]] && [[NL]] + [[NL, NL]] == [[NL], [NL, NL]];
  }

  /** A command is not written, and nothing after it; what came before it has been. Receive.NothingAfterCommand. */
  lemma CommandStopsWriting(sought: seq<(nat, nat)>)
    requires |sought| == 3
    ensures
      var chunks := [[NL], COMMAND + [NL], [NL]];
      |Requests(chunks, 3, sought)| == 3 && Written(chunks, 3, sought) == [[NL]]
  {
    var chunks := [[NL], COMMAND + [NL], [NL]];
    WholeString([NL]);
    WholeString(COMMAND + [NL]);
    assert Text(chunks, 1) == Text(chunks, 0) + [NL] == [NL];
    var text := Text(chunks, 2);
    assert text == [NL] + (COMMAND + [NL]);
    assert text[1..1 + |COMMAND|] == COMMAND;
    assert CommandAt(text, 1);
    NothingAfterCommand(chunks, 2, 2);
    WrittenStep(chunks, 0, sought);
    WrittenStep(chunks, 1, sought);
    WrittenStep(chunks, 2, sought);
  }

  lemma WholeString(s: seq<byte>)
    requires NUL !in s
    ensures CStr(s) == s
  {
    CStrWhole(s);
  }

  /** What follows a NUL in a chunk is received and counted but never written. Receive.TextIsComplete. */
  lemma NulCutsChunk(sought: seq<(nat, nat)>)
    requires |sought| == 3
    ensures
      var chunks: seq<seq<byte>> := [[65, NUL, NL]];
      Text(chunks, 1) == [65] && Received(chunks, 1) == 3 && Requests(chunks, 1, sought) == []
  {
    var c: seq<byte> := [65, NUL, NL];
    assert c[1..][0] == NUL;
    assert CStr(c) == [65] + CStr(c[1..]) == [65];
    assert Text([c], 1) == Text([c], 0) + [65];
  }
}
