/** Scripts of calls on one device through several handles: every execution is a run of the model. */
module Sessions {
  import opened Common
  import opened Sequences
  import opened KernelHeap
  import opened DeviceLog
  import opened DeviceFile
  import opened FileOperations
  import opened Driver
  import opened Readers

  datatype Call =
    | Write(buf: seq<byte>, env: Env)
    | Read(count: nat, env: Env)
    | Llseek(off: int, whence: int, env: Env)
    | Ioctl(isSeekTo: bool, cmd: nat, cmdOff: nat, env: Env)
  {
    /** A copy fails for no more bytes than there are, and an offset is a loff_t. */
    predicate Possible() {
      (Write? ==> env.uncopied <= |buf|) && (Llseek? ==> -(LOFF_MAX + 1) <= off <= LOFF_MAX)
    }

    /** A write that finds no memory. */
    predicate LacksMemory() {
      Write? && WriteOutcome(buf, env) == Err(ENOMEM)
    }

    function Written(): nat {
      if Write? then |buf| else 0
    }
  }

  type Script = seq<(Handle, Call)>

  /** What a call through h is in a run. */
  ghost function EventOf(cap: nat, s: Sys, h: Handle, c: Call): Event
    requires h in s.fPos
  {
    match c
    case Write(buf, env) =>
      if WriteOutcome(buf, env).Ok? then Wrote(buf) else Refused
    case Read(count, env) =>
      if env.interrupted || env.uncopied > 0 then Refused else DidRead(h, count)
    case Llseek(off, whence, env) =>
      var r := LlseekOutcome(s.log, cap, s.fPos[h], off, whence, env.interrupted);
      if r.Ok? then Moved(h, r.value) else Refused
    case Ioctl(isSeekTo, cmd, cmdOff, env) =>
      var r := IoctlOutcome(s.log, cap, isSeekTo, cmd, cmdOff, env);
      if r.Ok? then Moved(h, IoctlPosition(s.fPos[h], r)) else Refused
  }

  /** What a call gives its caller; a read at a negative position does not get past the kernel. */
  ghost function ReplyOf(cap: nat, s: Sys, h: Handle, c: Call): CallResult
    requires h in s.fPos
  {
    match c
    case Write(buf, env) => Returned(WriteOutcome(buf, env), [])
    case Read(count, env) =>
      if s.fPos[h] < 0 then Returned(Err(EINVAL), []) else ReadOutcome(s.log, cap, s.fPos[h], count, env)
    case Llseek(off, whence, env) =>
      Returned(LlseekOutcome(s.log, cap, s.fPos[h], off, whence, env.interrupted), [])
    case Ioctl(isSeekTo, cmd, cmdOff, env) =>
      var r := IoctlOutcome(s.log, cap, isSeekTo, cmd, cmdOff, env);
      Returned(if r.Ok? then Ok(0) else Err(r.errno), [])
  }

  ghost predicate InRange(fPos: int) {
    -(LOFF_MAX + 1) <= fPos <= SIZE_MAX
  }

  /** s has the device's log and the position of handle h's file. */
  ghost predicate Agrees(s: Sys, log: Log, h: Handle, fPos: int) {
    s.log == log && h in s.fPos && s.fPos[h] == fPos && InRange(fPos)
  }

  /** What the code of aesd_read does to log and position is what the run's step does. */
  lemma ReadAgrees(cap: nat, s: Sys, h: Handle, count: nat, env: Env, log: Log, fPos: nat)
    requires Agrees(s, log, h, fPos) && |log.File(cap)| <= SIZE_MAX
    ensures
      var e, r := EventOf(cap, s, h, Read(count, env)), ReadOutcome(log, cap, fPos, count, env);
      Agrees(Step(cap, s, e), log, h, fPos + r.Moved())
  {
    ReadIsSlice(log.Live(cap), fPos, count);
  }

  method DoRead(dev: AesdDev, filp: File, count: nat, env: Env, ghost s: Sys, ghost h: Handle)
      returns (r: CallResult)
    requires dev.Valid() && Agrees(s, dev.log, h, filp.fPos)
    requires |dev.log.File(dev.circularBuffer.cap)| <= SIZE_MAX
    modifies filp
    ensures dev.Valid()
    ensures
      var cap, c := dev.circularBuffer.cap, Read(count, env);
      && Agrees(Step(cap, s, EventOf(cap, s, h, c)), dev.log, h, filp.fPos)
      && r == ReplyOf(cap, s, h, c)
  {
    if filp.fPos < 0 {
      return Returned(Err(EINVAL), []);
    }
    ReadAgrees(dev.circularBuffer.cap, s, h, count, env, dev.log, filp.fPos);
    r := dev.Read(filp, count, env);
  }

  method DoLlseek(dev: AesdDev, filp: File, off: int, whence: int, env: Env, ghost s: Sys, ghost h: Handle)
      returns (r: CallResult)
    requires dev.Valid() && Agrees(s, dev.log, h, filp.fPos)
    requires Llseek(off, whence, env).Possible()
    modifies filp
    ensures dev.Valid()
    ensures
      var cap, c := dev.circularBuffer.cap, Llseek(off, whence, env);
      && Agrees(Step(cap, s, EventOf(cap, s, h, c)), dev.log, h, filp.fPos)
      && r == ReplyOf(cap, s, h, c)
  {
    var ret := dev.Llseek(filp, off, whence, env.interrupted);
    r := Returned(ret, []);
  }

  method DoIoctl(dev: AesdDev, filp: File, isSeekTo: bool, cmd: nat, cmdOff: nat, env: Env,
                 ghost s: Sys, ghost h: Handle)
      returns (r: CallResult)
    requires dev.Valid() && Agrees(s, dev.log, h, filp.fPos)
    modifies filp
    ensures dev.Valid()
    ensures
      var cap, c := dev.circularBuffer.cap, Ioctl(isSeekTo, cmd, cmdOff, env);
      && Agrees(Step(cap, s, EventOf(cap, s, h, c)), dev.log, h, filp.fPos)
      && r == ReplyOf(cap, s, h, c)
  {
    var ret := dev.Ioctl(filp, isSeekTo, cmd, cmdOff, env);
    r := Returned(ret, []);
  }

  /** alive tells whether the device is still usable. */
  method DoWrite(dev: AesdDev, buf: seq<byte>, env: Env, ghost s: Sys, ghost h: Handle, ghost fPos: int)
      returns (r: CallResult, alive: bool)
    requires dev.Valid() && Agrees(s, dev.log, h, fPos)
    requires Write(buf, env).Possible()
    modifies dev, dev.circularBuffer, dev.circularBuffer.entry
    ensures alive <==> dev.Valid()
    ensures alive <==> !(WriteOutcome(buf, env) == Err(ENOMEM) && old(dev.pWriteBuffer) != NULL)
    ensures
      var cap, c := dev.circularBuffer.cap, Write(buf, env);
      && Agrees(Step(cap, s, EventOf(cap, s, h, c)), dev.log, h, fPos)
      && r == ReplyOf(cap, s, h, c)
  {
    var hadBuffer := dev.pWriteBuffer != NULL;
    var ret := dev.Write(buf, env);
    r, alive := Returned(ret, []), !(ret == Err(ENOMEM) && hadBuffer);
  }

  /**
   * The seek command end to end: from position 0, one ioctl and one read on the device deliver the
   * named entry from the named byte on.
   */
  method SeekAndRead(dev: AesdDev, filp: File, cmd: nat, off: nat, count: nat, env: Env) returns (r: CallResult)
    requires dev.Valid() && filp.fPos == 0
    requires !env.interrupted && env.uncopied == 0
    requires |dev.log.File(dev.circularBuffer.cap)| <= SIZE_MAX
    requires cmd < |dev.Live()| && off < WrapU32(|dev.Live()[cmd]|)
    requires |Flatten(dev.Live()[..cmd])| + off <= INT_MAX
    modifies filp
    ensures dev.Valid()
    ensures DeliversFrom(dev.Live()[cmd], off, count, r)
    ensures filp.fPos == |Flatten(dev.Live()[..cmd])| + off + r.Moved()
  {
    ghost var p := |Flatten(dev.Live()[..cmd])| + off;
    IoctlThenRead(dev.log, dev.circularBuffer.cap, cmd, off, count, env);
    var ok := dev.Ioctl(filp, true, cmd, off, env);
    assert filp.fPos == p <= SIZE_MAX;
    r := dev.Read(filp, count, env);
  }

  // ----- Scripts --------------------------------------------------------------------------------

  /** s has the device's log and the position of every file. */
  ghost predicate Mirrors(s: Sys, log: Log, files: seq<File>)
    reads files
  {
    s.log == log && forall h :: 0 <= h < |files| ==> Agrees(s, log, h, files[h].fPos)
  }

  ghost predicate Distinct(files: seq<File>) {
    forall i, j :: 0 <= i < j < |files| ==> files[i] != files[j]
  }

  ghost predicate Possible(script: Script, n: nat) {
    forall i :: 0 <= i < |script| ==> script[i].0 < n && script[i].1.Possible()
  }

  function BytesWritten(script: Script): nat {
    if script == [] then 0 else script[0].1.Written() + BytesWritten(script[1..])
  }

  /** The events are those of the calls, one by one, as far as they go. */
  ghost predicate EventsOf(cap: nat, s: Sys, script: Script, es: seq<Event>)
    decreases |es|
  {
    es == [] ||
    (&& script != [] && script[0].0 in s.fPos
     && es[0] == EventOf(cap, s, script[0].0, script[0].1)
     && EventsOf(cap, Step(cap, s, es[0]), script[1..], es[1..]))
  }

  /** What the calls of a script give their callers, as far as its events go. */
  ghost function Replies(cap: nat, s: Sys, script: Script, es: seq<Event>): (rs: seq<CallResult>)
    requires EventsOf(cap, s, script, es)
    ensures |rs| == |es| <= |script|
    decreases |es|
  {
    if es == [] then []
    else
      [ReplyOf(cap, s, script[0].0, script[0].1)] + Replies(cap, Step(cap, s, es[0]), script[1..], es[1..])
  }

  /** The file is no longer than all that was ever written. */
  lemma FileFits(log: Log, cap: nat)
    ensures |log.File(cap)| <= |log.Stream()|
  {
    StreamSplits(log, cap);
  }

  /** A call on one file leaves the others where they are. */
  lemma OthersAgree(cap: nat, s: Sys, h: Handle, c: Call, h': Handle, fPos: int, log: Log)
    requires h in s.fPos && h' != h && Agrees(s, s.log, h', fPos)
    requires log == Step(cap, s, EventOf(cap, s, h, c)).log
    ensures Agrees(Step(cap, s, EventOf(cap, s, h, c)), log, h', fPos)
  {
  }

  lemma StreamGrows(cap: nat, s: Sys, h: Handle, c: Call)
    requires h in s.fPos
    ensures |Step(cap, s, EventOf(cap, s, h, c)).log.Stream()| <= |s.log.Stream()| + c.Written()
  {
    if c.Write? { AppendConserves(s.log, c.buf); }
  }

  /** One call of a script. */
  method Perform(dev: AesdDev, files: seq<File>, h: Handle, c: Call, ghost s: Sys)
      returns (r: CallResult, alive: bool)
    requires dev.Valid() && Mirrors(s, dev.log, files) && Distinct(files)
    requires h < |files| && c.Possible()
    requires |dev.log.Stream()| <= SIZE_MAX
    modifies dev, dev.circularBuffer, dev.circularBuffer.entry, files[h]
    ensures alive <==> dev.Valid()
    ensures !alive ==> c.LacksMemory()
    ensures
      var cap := dev.circularBuffer.cap;
      Mirrors(Step(cap, s, EventOf(cap, s, h, c)), dev.log, files) && r == ReplyOf(cap, s, h, c)
  {
    ghost var cap := dev.circularBuffer.cap;
    ghost var e := EventOf(cap, s, h, c);
    FileFits(dev.log, cap);
    alive := true;
    match c
    case Write(buf, env) => r, alive := DoWrite(dev, buf, env, s, h, files[h].fPos);
    case Read(count, env) => r := DoRead(dev, files[h], count, env, s, h);
    case Llseek(off, whence, env) => r := DoLlseek(dev, files[h], off, whence, env, s, h);
    case Ioctl(isSeekTo, cmd, cmdOff, env) => r := DoIoctl(dev, files[h], isSeekTo, cmd, cmdOff, env, s, h);
    assert r == ReplyOf(cap, s, h, c);
    assert Agrees(Step(cap, s, e), dev.log, h, files[h].fPos);
    forall h' | 0 <= h' < |files| && h' != h
      ensures Agrees(Step(cap, s, e), dev.log, h', files[h'].fPos)
    {
      OthersAgree(cap, s, h, c, h', files[h'].fPos, dev.log);
    }
  }

  /**
   * A script of calls, up to the first one that leaves the device unusable: the replies, the final
   * log and the final positions are those of the run of the calls' events.
   */
  method Execute(dev: AesdDev, files: seq<File>, script: Script, ghost s: Sys)
      returns (replies: seq<CallResult>, alive: bool, ghost es: seq<Event>)
    requires dev.Valid() && Mirrors(s, dev.log, files) && Distinct(files) && Possible(script, |files|)
    requires |dev.log.Stream()| + BytesWritten(script) <= SIZE_MAX
    modifies dev, dev.circularBuffer, dev.circularBuffer.entry, files
    ensures alive <==> dev.Valid()
    ensures if alive then |es| == |script| else 0 < |es| <= |script| && script[|es| - 1].1.LacksMemory()
    ensures
      var cap := dev.circularBuffer.cap;
      && EventsOf(cap, s, script, es)
      && Mirrors(Run(cap, s, es), dev.log, files)
      && replies == Replies(cap, s, script, es)
    decreases |script|
  {
    if script == [] {
      return [], true, [];
    }
    ghost var cap := dev.circularBuffer.cap;
    var (h, c) := script[0];
    assert Agrees(s, dev.log, h, files[h].fPos);
    ghost var e := EventOf(cap, s, h, c);
    StreamGrows(cap, s, h, c);
    var r;
    r, alive := Perform(dev, files, h, c, s);
    if !alive {
      return [r], false, [e];
    }
    ghost var later;
    replies, alive, later := Execute(dev, files, script[1..], Step(cap, s, e));
    replies, es := [r] + replies, [e] + later;
  }

  // ----- A reader in a script ---------------------------------------------------------------------

  /** The handle is neither moved by llseek nor by ioctl. */
  ghost predicate NeverSeeks(script: Script, h: Handle) {
    forall i :: 0 <= i < |script| && script[i].0 == h ==> !script[i].1.Llseek? && !script[i].1.Ioctl?
  }

  lemma {:induction false} NeverSeeksOnlyReads(cap: nat, s: Sys, script: Script, es: seq<Event>, h: Handle)
    requires EventsOf(cap, s, script, es) && NeverSeeks(script, h)
    ensures OnlyReads(es, h)
    decreases |es|
  {
    if es == [] {
    } else {
      NeverSeeksOnlyReads(cap, Step(cap, s, es[0]), script[1..], es[1..], h);
    }
  }

  /** The bytes that the calls of one handle got, without the empty ones. */
  function Received(script: Script, replies: seq<CallResult>, h: Handle): seq<seq<byte>>
    requires |replies| <= |script|
    decreases |replies|
  {
    if replies == [] then []
    else
      var later := Received(script[1..], replies[1..], h);
      if script[0].0 == h && replies[0].Moved() > 0 then [replies[0].bytes] + later else later
  }

  function Pieces(ds: seq<Delivery>): (bs: seq<seq<byte>>)
    ensures |bs| == |ds| && forall i :: 0 <= i < |ds| ==> bs[i] == ds[i].bytes
  {
    seq(|ds|, i requires 0 <= i < |ds| => ds[i].bytes)
  }

  /** A call gets bytes exactly if its event delivers them. */
  lemma ReplyIsDelivery(cap: nat, s: Sys, h: Handle, c: Call)
    requires h in s.fPos
    ensures
      var e, r := EventOf(cap, s, h, c), ReplyOf(cap, s, h, c);
      && (r.Moved() > 0 <==> e.DidRead? && Delivered(cap, s, e) != [])
      && (r.Moved() > 0 ==> e.h == h && r.bytes == Delivered(cap, s, e))
  {
  }

  /** What a handle is given in a run is what its calls return in the script. */
  lemma {:induction false} DeliveriesAreReplies(cap: nat, s: Sys, script: Script, es: seq<Event>, h: Handle)
    requires EventsOf(cap, s, script, es)
    ensures Pieces(Deliveries(cap, s, es, h)) == Received(script, Replies(cap, s, script, es), h)
    decreases |es|
  {
    if es == [] {
    } else {
      var s' := Step(cap, s, es[0]);
      DeliveriesAreReplies(cap, s', script[1..], es[1..], h);
      ReplyIsDelivery(cap, s, script[0].0, script[0].1);
      assert Replies(cap, s, script, es)[1..] == Replies(cap, s', script[1..], es[1..]);
      if script[0].0 == h && Replies(cap, s, script, es)[0].Moved() > 0 {
        PiecesCons(DeliveryOf(cap, s, es[0]), Deliveries(cap, s', es[1..], h));
      }
    }
  }

  lemma PiecesCons(d: Delivery, ds: seq<Delivery>)
    ensures Pieces([d] + ds) == [d.bytes] + Pieces(ds)
  {
  }

  /** Some pieces lie in the stream one behind another, not overlapping, at the given starts. */
  ghost predicate InOrder(pieces: seq<seq<byte>>, starts: seq<nat>, stream: seq<byte>) {
    && |starts| == |pieces|
    && (forall i :: 0 <= i < |pieces| ==>
          && starts[i] + |pieces[i]| <= |stream|
          && pieces[i] == stream[starts[i]..starts[i] + |pieces[i]|])
    && (forall i, j :: 0 <= i < j < |pieces| ==> starts[i] + |pieces[i]| <= starts[j])
  }

  /** Whatever the other handles do, what calls return to a handle that starts at 0 and never seeks is in order. */
  lemma ReaderInScript(cap: nat, s: Sys, script: Script, es: seq<Event>, h: Handle)
    requires EventsOf(cap, s, script, es) && NeverSeeks(script, h)
    requires h in s.fPos && s.fPos[h] == 0
    ensures exists starts ::
      InOrder(Received(script, Replies(cap, s, script, es), h), starts, Flatten(Run(cap, s, es).log.commits))
  {
    var ds := Deliveries(cap, s, es, h);
    NeverSeeksOnlyReads(cap, s, script, es, h);
    DeliveriesAreReplies(cap, s, script, es, h);
    ReaderMonotone(cap, s, es, h);
    PiecesInOrder(ds, Starts(ds), Flatten(Run(cap, s, es).log.commits));
  }

  function Starts(ds: seq<Delivery>): (starts: seq<nat>)
    ensures |starts| == |ds| && forall i :: 0 <= i < |ds| ==> starts[i] == ds[i].start
  {
    seq(|ds|, i requires 0 <= i < |ds| => ds[i].start)
  }

  lemma PiecesInOrder(ds: seq<Delivery>, starts: seq<nat>, stream: seq<byte>)
    requires starts == Starts(ds) && SkipsOnlyEvicted(ds, stream)
    ensures InOrder(Pieces(ds), starts, stream)
  {
  }

  // ----- Conservation over scripts ------------------------------------------------------------------

  /** The payloads of those of the first k calls that are successful writes. */
  function SuccessfulWrites(script: Script, k: nat): seq<seq<byte>>
    requires k <= |script|
    decreases k
  {
    if k == 0 then []
    else
      var c, later := script[0].1, SuccessfulWrites(script[1..], k - 1);
      if c.Write? && WriteOutcome(c.buf, c.env).Ok? then [c.buf] + later else later
  }

  lemma {:induction false} PayloadsOfScript(cap: nat, s: Sys, script: Script, es: seq<Event>)
    requires EventsOf(cap, s, script, es)
    ensures |es| <= |script| && Payloads(es) == SuccessfulWrites(script, |es|)
    decreases |es|
  {
    if es == [] {
    } else {
      PayloadsOfScript(cap, Step(cap, s, es[0]), script[1..], es[1..]);
    }
  }

  /** After any script the evicted, live and pending bytes are those there were and those of its successful writes. */
  lemma ScriptConserves(cap: nat, s: Sys, script: Script, es: seq<Event>)
    requires EventsOf(cap, s, script, es)
    ensures |es| <= |script|
    ensures
      var log := Run(cap, s, es).log;
      Flatten(log.Evicted(cap)) + log.File(cap) + log.pending
      == s.log.Stream() + Flatten(SuccessfulWrites(script, |es|))
  {
    PayloadsOfScript(cap, s, script, es);
    RunConserves(cap, s, es);
  }

  /** The sum of what the write calls return as their number of bytes. */
  function Counted(script: Script, replies: seq<CallResult>): nat
    requires |replies| <= |script|
    decreases |replies|
  {
    if replies == [] then 0
    else
      var c, r, later := script[0].1, replies[0], Counted(script[1..], replies[1..]);
      if c.Write? && r.Returned? && r.ret.Ok? then r.ret.value + later else later
  }

  lemma CallCounts(cap: nat, s: Sys, h: Handle, c: Call)
    requires h in s.fPos
    ensures
      var r := ReplyOf(cap, s, h, c);
      |Step(cap, s, EventOf(cap, s, h, c)).log.Stream()| ==
      |s.log.Stream()| + (if c.Write? && r.Returned? && r.ret.Ok? then r.ret.value else 0)
  {
    if c.Write? { AppendConserves(s.log, c.buf); }
  }

  /** The write calls of any script return just as many bytes as the device has taken in. */
  lemma {:induction false} ScriptCounts(cap: nat, s: Sys, script: Script, es: seq<Event>)
    requires EventsOf(cap, s, script, es)
    ensures |Run(cap, s, es).log.Stream()| == |s.log.Stream()| + Counted(script, Replies(cap, s, script, es))
    decreases |es|
  {
    if es == [] {
    } else {
      var s' := Step(cap, s, es[0]);
      CallCounts(cap, s, script[0].0, script[0].1);
      ScriptCounts(cap, s', script[1..], es[1..]);
      assert Replies(cap, s, script, es)[1..] == Replies(cap, s', script[1..], es[1..]);
    }
  }
}
