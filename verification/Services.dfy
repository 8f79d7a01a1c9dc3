/** Services of the server model: what writeback does is a run of it, and every request can be served. */
module Services {
  import opened Common
  import opened Sequences
  import opened DeviceLog
  import opened DeviceFile
  import opened Receive
  import opened Echo
  import Writeback

  /** k reads of one byte each, all sent. */
  function ByteReads(t: Tid, k: nat): seq<Action> {
    if k == 0 then [] else [Read(t, 1, 1)] + ByteReads(t, k - 1)
  }

  lemma ReadsOneByte(cap: nat, log: Log, fPos: nat)
    requires fPos < |log.File(cap)|
    ensures ReadAt(log.Live(cap), fPos, 1) == [log.File(cap)[fPos]]
  {
    ReadIsSlice(log.Live(cap), fPos, 1);
  }

  /** A thread that has read and sent the next k bytes. */
  function Echoed(th: Thread, file: seq<byte>, k: nat): Thread
    requires 0 <= th.fPos && th.fPos + k <= |file|
  {
    th.(fPos := th.fPos + k, echo := th.echo + file[th.fPos..th.fPos + k])
  }

  lemma EchoedAfterOne(th: Thread, file: seq<byte>, k: nat)
    requires 0 <= th.fPos && 0 < k && th.fPos + k <= |file|
    ensures Echoed(Echoed(th, file, 1), file, k - 1) == Echoed(th, file, k)
    ensures Echoed(th, file, 1) == th.(fPos := th.fPos + 1, echo := th.echo + [file[th.fPos]])
  {
    assert file[th.fPos..th.fPos + 1] == [file[th.fPos]];
    assert [file[th.fPos]] + file[th.fPos + 1..th.fPos + k] == file[th.fPos..th.fPos + k];
    ConcatAssociates(th.echo, [file[th.fPos]], file[th.fPos + 1..th.fPos + k]);
  }

  lemma {:induction false} ByteReadsEcho(cap: nat, s: Server, t: Tid, k: nat)
    requires ThreadOf(s, t).phase.Echoing? && 0 <= ThreadOf(s, t).fPos
    requires ThreadOf(s, t).fPos + k <= |s.log.File(cap)|
    ensures Run(cap, s, ByteReads(t, k)) == SetThread(s, t, Echoed(ThreadOf(s, t), s.log.File(cap), k))
    decreases k
  {
    var th, file := ThreadOf(s, t), s.log.File(cap);
    if k == 0 {
      assert Echoed(th, file, 0) == th;
      assert s.threads[t := th] == s.threads;
    } else {
      EchoedAfterOne(th, file, k);
      ReadsOneByte(cap, s.log, th.fPos);
      assert Step(cap, s, Read(t, 1, 1)) == SetThread(s, t, Echoed(th, file, 1));
      ByteReadsEcho(cap, SetThread(s, t, Echoed(th, file, 1)), t, k - 1);
      assert ByteReads(t, k)[1..] == ByteReads(t, k - 1);
    }
  }

  /** After some bytes sent one by one, a last read that ends the echo or whose send fails; none while a send waits. */
  function Sends(t: Tid, k: nat, outcome: Writeback.Outcome): seq<Action> {
    if outcome.Waiting? then ByteReads(t, k) else ByteReads(t, k) + [Read(t, 1, 0)]
  }

  function PhaseAfter(req: Request, outcome: Writeback.Outcome): Phase {
    match outcome
    case Finished(ok) => Done(req, ok)
    case Waiting => Echoing(req)
  }

  /** Reading goes on from a position with a read none of whose bytes are sent, or ends there. */
  lemma LastRead(cap: nat, s: Server, t: Tid)
    requires ThreadOf(s, t).phase.Echoing?
    ensures
      var th, s' := ThreadOf(s, t), Step(cap, s, Read(t, 1, 0));
      var atEnd := th.fPos < 0 || |s.log.File(cap)| <= th.fPos;
      && ThreadOf(s', t).phase == Done(th.phase.req, atEnd)
      && ThreadOf(s', t).echo == th.echo
  {
    var th := ThreadOf(s, t);
    if 0 <= th.fPos {
      ReadIsSlice(s.log.Live(cap), th.fPos, 1);
      assert ReadAt(s.log.Live(cap), th.fPos, 1)[..0] == [];
    }
  }

  lemma SendsRun(cap: nat, s: Server, t: Tid, sent: seq<byte>, outcome: Writeback.Outcome)
    requires ThreadOf(s, t).phase.Echoing? && ThreadOf(s, t).echo == []
    requires ThreadOf(s, t).fPos <= |s.log.File(cap)|
    requires sent <= Shown(s.log.File(cap), ThreadOf(s, t).fPos)
    requires outcome == Writeback.Finished(true) <==> sent == Shown(s.log.File(cap), ThreadOf(s, t).fPos)
    ensures
      var th := ThreadOf(Run(cap, s, Sends(t, |sent|, outcome)), t);
      th.phase == PhaseAfter(ThreadOf(s, t).phase.req, outcome) && th.echo == sent
  {
    var th, file := ThreadOf(s, t), s.log.File(cap);
    if 0 <= th.fPos {
      ByteReadsEcho(cap, s, t, |sent|);
      assert file[th.fPos..th.fPos + |sent|] == file[th.fPos..][..|sent|] == sent;
    }
    var s' := Run(cap, s, ByteReads(t, |sent|));
    if outcome.Finished? {
      RunSplits(cap, s, ByteReads(t, |sent|), [Read(t, 1, 0)]);
      assert Run(cap, s', [Read(t, 1, 0)]) == Run(cap, Step(cap, s', Read(t, 1, 0)), []);
      LastRead(cap, s', t);
    }
  }

  /**
   * writeback for a thread that has just issued its request: getline delivers the file from the
   * handle's position on. For any results of the sends, what has been sent, and whether the service is
   * complete, broken off or still waiting, is what a run leaves in that thread.
   */
  method WritebackInService(cap: nat, s: Server, t: Tid, sends: seq<int>)
      returns (sent: seq<byte>, outcome: Writeback.Outcome, used: nat)
    requires Inv(cap, s) && ThreadOf(s, t).phase.Echoing? && ThreadOf(s, t).echo == []
    ensures
      var th := ThreadOf(Run(cap, s, Sends(t, |sent|, outcome)), t);
      th.phase == PhaseAfter(ThreadOf(s, t).phase.req, outcome) && th.echo == sent
    ensures outcome == Writeback.Finished(true) <==> sent == Shown(s.log.File(cap), ThreadOf(s, t).fPos)
    ensures outcome == Writeback.Finished(false) ==> 0 < used <= |sends| && sends[used - 1] < 0
    ensures used <= |sends|
    ensures
      var content := Shown(s.log.File(cap), ThreadOf(s, t).fPos);
      sent == Writeback.Taken(content, Writeback.StopsOf(content), sends, used)
  {
    sent, outcome, used := Writeback.Writeback(Shown(s.log.File(cap), ThreadOf(s, t).fPos), sends);
    SendsRun(cap, s, t, sent, outcome);
  }

  /** A read at byte b of entry i goes on by the entry's bytes up to count; the echo by those of them that are sent. */
  lemma ReadAndSend(cap: nat, s: Server, t: Tid, count: nat, sent: nat, i: nat, b: nat)
    requires ThreadOf(s, t).phase.Echoing? && 0 < count
    requires i < |s.log.Live(cap)| && b < |s.log.Live(cap)[i]|
    requires ThreadOf(s, t).fPos == |Flatten(s.log.Live(cap)[..i])| + b
    ensures
      var th, th', entry := ThreadOf(s, t), ThreadOf(Step(cap, s, Read(t, count, sent)), t), s.log.Live(cap)[i];
      var n := Min(count, |entry| - b);
      && th'.fPos == th.fPos + n
      && th'.echo == th.echo + entry[b..b + Min(sent, n)]
      && th'.phase == (if sent < n then Done(th.phase.req, false) else th.phase)
  {
    FlattenLength(s.log.Live(cap), i);
    ReadWithinEntry(s.log.Live(cap), ThreadOf(s, t).fPos, count, i, b);
    var entry := s.log.Live(cap)[i];
    var n := Min(count, |entry| - b);
    var bytes := entry[b..b + n];
    assert ReadAt(s.log.Live(cap), ThreadOf(s, t).fPos, count) == bytes != [];
    SliceStart(entry, b, n, Min(sent, n));
  }

  lemma SliceStart<T>(s: seq<T>, b: nat, n: nat, k: nat)
    requires k <= n && b + n <= |s|
    ensures s[b..b + n][..k] == s[b..b + k]
  {
  }

  // ----- Every request can be served ------------------------------------------------------------

  /** s' is s after t has been served once more and has let go of the mutex. */
  ghost predicate ServedIn(s: Server, s': Server, t: Tid, req: Request, conn: Connection, complete: bool) {
    && s'.owner == None
    && (forall u :: u != t ==> ThreadOf(s', u) == ThreadOf(s, u))
    && ThreadOf(s', t) == Thread(Receiving, conn, 0, [])
    && |s'.served| == |s.served| + 1 && s.served <= s'.served
    && var e := s'.served[|s.served|];
    && e.req == req && e.conn == conn && e.complete == complete
  }

  lemma RunOne(cap: nat, s: Server, a: Action, acts: seq<Action>)
    ensures Run(cap, s, [a] + acts) == Run(cap, Step(cap, s, a), acts)
  {
    assert ([a] + acts)[1..] == acts;
  }

  /** After writeback the mutex can be let go. */
  lemma CanUnlock(cap: nat, s: Server, t: Tid)
    requires ThreadOf(s, t).phase.Done?
    ensures
      var th := ThreadOf(s, t);
      ServedIn(s, Run(cap, s, [Unlock(t)]), t, th.phase.req, th.conn, th.phase.complete)
  {
    RunOne(cap, s, Unlock(t), []);
    assert [Unlock(t)] + [] == [Unlock(t)];
  }

  /** An echo can be completed: by reads of one byte up to the end of the file, and one that finds the end. */
  lemma CanEcho(cap: nat, s: Server, t: Tid) returns (acts: seq<Action>)
    requires ThreadOf(s, t).phase.Echoing? && ThreadOf(s, t).fPos <= |s.log.File(cap)|
    ensures ServedIn(s, Run(cap, s, acts), t, ThreadOf(s, t).phase.req, ThreadOf(s, t).conn, true)
  {
    var th, file := ThreadOf(s, t), s.log.File(cap);
    var k := if th.fPos < 0 then 0 else |file| - th.fPos;
    var s1 := Run(cap, s, ByteReads(t, k));
    if 0 <= th.fPos {
      ByteReadsEcho(cap, s, t, k);
    }
    LastRead(cap, s1, t);
    var s2 := Step(cap, s1, Read(t, 1, 0));
    CanUnlock(cap, s2, t);
    RunOne(cap, s1, Read(t, 1, 0), [Unlock(t)]);
    acts := ByteReads(t, k) + ([Read(t, 1, 0)] + [Unlock(t)]);
    RunSplits(cap, s, ByteReads(t, k), [Read(t, 1, 0)] + [Unlock(t)]);
  }

  /** Reads have not gone past the end of the file. */
  lemma EchoInFile(cap: nat, s: Server, t: Tid)
    requires Inv(cap, s) && s.owner == Some(t) && ThreadOf(s, t).phase.Echoing?
    ensures ThreadOf(s, t).fPos <= |s.log.File(cap)|
  {
    assert ThreadOk(cap, s.log, ThreadOf(s, t));
  }

  /** What is served from s' on is served from s on. */
  lemma ServedFrom(s: Server, s': Server, s2: Server, t: Tid, req: Request, conn: Connection)
    requires s'.served == s.served && forall u :: u != t ==> ThreadOf(s', u) == ThreadOf(s, u)
    requires ServedIn(s', s2, t, req, conn, true)
    ensures ServedIn(s, s2, t, req, conn, true)
  {
  }

  lemma IssueIs(cap: nat, s: Server, t: Tid)
    requires ThreadOf(s, t).phase.Opened?
    ensures
      var th, s' := ThreadOf(s, t), Step(cap, s, Issue(t));
      && s'.served == s.served && s'.owner == s.owner
      && (forall u :: u != t ==> ThreadOf(s', u) == ThreadOf(s, u))
      && ThreadOf(s', t).phase == Echoing(th.phase.req) && ThreadOf(s', t).conn == th.conn
  {
  }

  lemma CanIssue(cap: nat, s: Server, t: Tid) returns (acts: seq<Action>)
    requires Inv(cap, s) && s.owner == Some(t) && ThreadOf(s, t).phase.Opened?
    ensures ServedIn(s, Run(cap, s, acts), t, ThreadOf(s, t).phase.req, ThreadOf(s, t).conn, true)
  {
    var s' := Step(cap, s, Issue(t));
    IssueIs(cap, s, t);
    assert ThreadOf(s', t).fPos <= |s'.log.File(cap)| by {
      StepKeeps(cap, s, Issue(t));
      EchoInFile(cap, s', t);
    }
    acts := CanEcho(cap, s', t);
    ServedFrom(s, s', Run(cap, s', acts), t, ThreadOf(s, t).phase.req, ThreadOf(s, t).conn);
    RunOne(cap, s, Issue(t), acts);
    acts := [Issue(t)] + acts;
  }

  /** A thread that holds the mutex can finish its service. */
  lemma CanFinish(cap: nat, s: Server, t: Tid) returns (acts: seq<Action>, complete: bool)
    requires Inv(cap, s) && s.owner == Some(t)
    ensures ServedIn(s, Run(cap, s, acts), t, ThreadOf(s, t).phase.req, ThreadOf(s, t).conn, complete)
    ensures !ThreadOf(s, t).phase.Done? ==> complete
  {
    var th := ThreadOf(s, t);
    if th.phase.Done? {
      CanUnlock(cap, s, t);
      acts, complete := [Unlock(t)], th.phase.complete;
    } else if th.phase.Echoing? {
      EchoInFile(cap, s, t);
      acts := CanEcho(cap, s, t);
      complete := true;
    } else {
      acts := CanIssue(cap, s, t);
      complete := true;
    }
  }

  /** A request that waits for a free mutex can be served, with a complete echo. */
  lemma CanServe(cap: nat, s: Server, t: Tid) returns (acts: seq<Action>)
    requires Inv(cap, s) && s.owner == None && ThreadOf(s, t).phase.Waiting?
    ensures ServedIn(s, Run(cap, s, acts), t, ThreadOf(s, t).phase.req, ThreadOf(s, t).conn, true)
  {
    StepKeeps(cap, s, Lock(t));
    var s' := Step(cap, s, Lock(t));
    var complete;
    acts, complete := CanFinish(cap, s', t);
    RunOne(cap, s, Lock(t), acts);
    acts := [Lock(t)] + acts;
  }

  /** After one service and then one of another thread. */
  lemma ServedAfter(s: Server, s1: Server, s2: Server, u: Tid, ru: Request, cu: Connection, ku: bool,
                    t: Tid, req: Request, conn: Connection)
    requires ServedIn(s, s1, u, ru, cu, ku) && ServedIn(s1, s2, t, req, conn, true)
    ensures LastServed(s, s2, t, req, conn)
  {
  }

  /** Services have been added to those of s, the last one of them complete and t's. */
  ghost predicate LastServed(s: Server, s': Server, t: Tid, req: Request, conn: Connection) {
    && s.served <= s'.served && |s.served| < |s'.served|
    && var e := s'.served[|s'.served| - 1];
    && e.req == req && e.conn == conn && e.complete
    && ThreadOf(s', t) == Thread(Receiving, conn, 0, [])
  }

  /**
   * No thread is ever stuck: whatever has happened, each chunk with a newline makes its thread wait
   * with the request of all text so far, and from any state in which a thread waits the server can go
   * on to serve its request with a complete echo, after the mutex holder's if there is one.
   */
  lemma EveryRequestCanBeServed(cap: nat, s: Server, t: Tid) returns (acts: seq<Action>)
    requires Inv(cap, s) && ThreadOf(s, t).phase.Waiting?
    ensures LastServed(s, Run(cap, s, acts), t, ThreadOf(s, t).phase.req, ThreadOf(s, t).conn)
  {
    if s.owner == None {
      acts := CanServe(cap, s, t);
    } else {
      var u := s.owner.value;
      var first, complete := CanFinish(cap, s, u);
      var s1 := Run(cap, s, first);
      RunKeeps(cap, s, first);
      assert u != t;
      var second := CanServe(cap, s1, t);
      var s2 := Run(cap, s1, second);
      ServedAfter(s, s1, s2, u, ThreadOf(s, u).phase.req, ThreadOf(s, u).conn, complete,
                  t, ThreadOf(s, t).phase.req, ThreadOf(s, t).conn);
      RunSplits(cap, s, first, second);
      acts := first + second;
    }
  }
}
