/**
 * The server's client threads over the device: every interleaving of their steps, from the received
 * chunks to what each client is sent back. The server is taken to be the only writer, with one
 * device write for one fprintf.
 */
module Echo {
  import opened Common
  import opened Sequences
  import opened DeviceLog
  import opened DeviceFile
  import opened Receive

  type Tid = nat

  datatype Phase =
    | Receiving
    | Waiting(req: Request)                  // for the mutex
    | Opened(req: Request)                   // holds the mutex, has a fresh handle
    | Echoing(req: Request)                  // has written or sought; in writeback
    | Done(req: Request, complete: bool)     // out of writeback; complete unless a send failed

  /**
   * What a connection has received, the pairs that sscanf reads after each chunk, and the requests
   * this has led to so far.
   */
  datatype Connection = Connection(chunks: seq<seq<byte>>, sought: seq<(nat, nat)>, asked: seq<Request>)

  const FRESH := Connection([], [], [])

  /** A thread with its connection; its file position is negative after a seek that wrapped. */
  datatype Thread = Thread(phase: Phase, conn: Connection, fPos: int, echo: seq<byte>) {
    predicate HasIssued() {
      phase.Echoing? || phase.Done?
    }
  }

  /** A finished service: the connection at that time, the number of commits at that time, and what was sent. */
  datatype Served = Served(req: Request, conn: Connection, commits: nat, echo: seq<byte>, complete: bool)

  datatype Server = Server(log: Log, owner: Option<Tid>, threads: map<Tid, Thread>, served: seq<Served>)

  datatype Action =
    | Recv(t: Tid, bytes: seq<byte>, sought: (nat, nat))   // a chunk, and the pair sscanf then reads
    | Hangup(t: Tid)               // the connection ends; its thread's name may be used again
    | Lock(t: Tid)                 // pthread_mutex_lock and fopen
    | Issue(t: Tid)                // fprintf or ioctl
    | Read(t: Tid, count: nat, sent: nat)   // a device read in writeback, and how many of its bytes are sent
    | Unlock(t: Tid)               // fclose and pthread_mutex_unlock

  const START := Server(EMPTY, None, map[], [])

  function ThreadOf(s: Server, t: Tid): Thread {
    if t in s.threads then s.threads[t] else Thread(Receiving, FRESH, 0, [])
  }

  /** Where a request makes its handle start reading, which is 0 after a refused seek. */
  function StartOf(cap: nat, live: seq<seq<byte>>, req: Request): int {
    match req
    case Packet(_) => 0
    case SeekTo(cmd, off) =>
      match IoctlTarget(Lengths(live), cap, cmd, off)
      case Some(p) => p
      case None => 0
  }

  /** What reads from a position can show; none at a negative one, which the kernel refuses. */
  function Shown(file: seq<byte>, start: int): seq<byte> {
    if 0 <= start <= |file| then file[start..] else []
  }

  function SetThread(s: Server, t: Tid, th: Thread): Server {
    s.(threads := s.threads[t := th])
  }

  /** One step of one thread; an action whose thread is not at that point changes nothing. */
  function Step(cap: nat, s: Server, a: Action): Server {
    var th := ThreadOf(s, a.t);
    match a
    case Recv(t, bytes, sought) =>
      if th.phase.Receiving? then SetThread(s, t, AfterRecv(th, bytes, sought)) else s
    case Hangup(t) =>
      if th.phase.Receiving? then SetThread(s, t, Thread(Receiving, FRESH, 0, [])) else s
    case Lock(t) =>
      if s.owner == None && th.phase.Waiting? then
        SetThread(s, t, Thread(Opened(th.phase.req), th.conn, 0, [])).(owner := Some(t))
      else s
    case Issue(t) =>
      if !th.phase.Opened? then s
      else if th.phase.req.Packet? then
        SetThread(s, t, th.(phase := Echoing(th.phase.req))).(log := s.log.Append(th.phase.req.text))
      else
        SetThread(s, t, th.(phase := Echoing(th.phase.req),
                            fPos := th.fPos + StartOf(cap, s.log.Live(cap), th.phase.req)))
    case Read(t, count, sent) =>
      if th.phase.Echoing? && 0 < count then SetThread(s, t, AfterRead(th, cap, s.log, count, sent)) else s
    case Unlock(t) =>
      if !th.phase.Done? then s
      else
        SetThread(s, t, Thread(Receiving, th.conn, 0, [])).(
          owner := None,
          served := s.served + [Service(th, |s.log.commits|)])
  }

  /** A receiving thread after one more chunk; with a newline in it there is a request to serve. */
  function AfterRecv(th: Thread, bytes: seq<byte>, sought: (nat, nat)): Thread {
    var chunks, pairs := th.conn.chunks + [bytes], th.conn.sought + [sought];
    if NL in CStr(bytes) then
      var req := RequestOf(Text(chunks, |chunks|), sought);
      Thread(Waiting(req), Connection(chunks, pairs, th.conn.asked + [req]), 0, [])
    else Thread(Receiving, Connection(chunks, pairs, th.conn.asked), 0, [])
  }

  function Service(th: Thread, commits: nat): Served
    requires th.phase.Done?
  {
    Served(th.phase.req, th.conn, commits, th.echo, th.phase.complete)
  }

  /** An echoing thread after one more read: one that delivers nothing ends the echo, a failing send breaks it off. */
  function AfterRead(th: Thread, cap: nat, log: Log, count: nat, sent: nat): Thread
    requires th.phase.Echoing?
  {
    var bytes := if th.fPos < 0 then [] else ReadAt(log.Live(cap), th.fPos, count);
    if bytes == [] then th.(phase := Done(th.phase.req, true))
    else if sent < |bytes| then
      Thread(Done(th.phase.req, false), th.conn, th.fPos + |bytes|, th.echo + bytes[..sent])
    else th.(fPos := th.fPos + |bytes|, echo := th.echo + bytes)
  }

  function Run(cap: nat, s: Server, acts: seq<Action>): Server
    decreases |acts|
  {
    if acts == [] then s else Run(cap, Step(cap, s, acts[0]), acts[1..])
  }

  // ----- The invariant ------------------------------------------------------------------------

  /** The requests are those that the receive loop makes of the chunks. */
  ghost predicate ConnectionOk(conn: Connection) {
    && |conn.sought| == |conn.chunks|
    && conn.asked == Requests(conn.chunks, |conn.chunks|, conn.sought)
  }

  /** The connection's last chunk has a newline and has led to req, which is its last request. */
  ghost predicate Asks(conn: Connection, req: Request) {
    && conn.chunks != [] && NL in CStr(conn.chunks[|conn.chunks| - 1])
    && conn.asked != [] && conn.asked[|conn.asked| - 1] == req
    && (req.SeekTo? <==> HasCommand(Text(conn.chunks, |conn.chunks|)))
    && (req.Packet? ==> req.text == Text(conn.chunks, |conn.chunks|))
  }

  /** What an issued request has made of the device, and what of the file it has echoed. */
  ghost predicate Issued(cap: nat, log: Log, req: Request, echo: seq<byte>) {
    var start := StartOf(cap, log.Live(cap), req);
    && (req.Packet? ==> log.commits != [] && log.commits[|log.commits| - 1] == req.text)
    && start <= |log.File(cap)|
    && echo <= Shown(log.File(cap), start)
  }

  ghost predicate Complete(cap: nat, log: Log, req: Request, echo: seq<byte>) {
    echo == Shown(log.File(cap), StartOf(cap, log.Live(cap), req))
  }

  ghost predicate ThreadOk(cap: nat, log: Log, th: Thread) {
    match th.phase
    case Receiving => true
    case Waiting(_) => true
    case Opened(_) => th.fPos == 0 && th.echo == []
    case Echoing(req) =>
      Issued(cap, log, req, th.echo) && th.fPos == StartOf(cap, log.Live(cap), req) + |th.echo|
    case Done(req, complete) =>
      Issued(cap, log, req, th.echo) && (complete ==> Complete(cap, log, req, th.echo))
  }

  /** The log when there were n commits and nothing was pending. */
  function LogAt(commits: seq<seq<byte>>, n: nat): Log
    requires n <= |commits|
  {
    Log(commits[..n], [])
  }

  ghost predicate ServedOk(cap: nat, commits: seq<seq<byte>>, e: Served) {
    && ConnectionOk(e.conn) && Asks(e.conn, e.req)
    && e.commits <= |commits|
    && var log := LogAt(commits, e.commits);
    && Issued(cap, log, e.req, e.echo)
    && (e.complete ==> Complete(cap, log, e.req, e.echo))
  }

  ghost predicate AllServedOk(cap: nat, commits: seq<seq<byte>>, served: seq<Served>) {
    forall i :: 0 <= i < |served| ==> ServedOk(cap, commits, served[i])
  }

  /** The commits belong to the served packets one by one. */
  ghost predicate Ordered(served: seq<Served>) {
    forall i, j :: 0 <= i < j < |served| ==>
      served[i].commits <= served[j].commits && (served[j].req.Packet? ==> served[i].commits < served[j].commits)
  }

  /** The texts of the packets among the first k services. */
  function ServedPackets(served: seq<Served>, k: nat): seq<seq<byte>>
    requires k <= |served|
  {
    if k == 0 then []
    else
      var before, req := ServedPackets(served, k - 1), served[k - 1].req;
      if req.Packet? then before + [req.text] else before
  }

  lemma {:induction false} ServedPacketsStay(served: seq<Served>, e: Served, k: nat)
    requires k <= |served|
    ensures ServedPackets(served + [e], k) == ServedPackets(served, k)
  {
    if k == 0 {
    } else {
      ServedPacketsStay(served, e, k - 1);
    }
  }

  function AllPackets(served: seq<Served>): seq<seq<byte>> {
    ServedPackets(served, |served|)
  }

  lemma AllPacketsSnoc(served: seq<Served>, e: Served)
    ensures AllPackets(served + [e]) == if e.req.Packet? then AllPackets(served) + [e.req.text] else AllPackets(served)
  {
    ServedPacketsStay(served, e, |served|);
  }

  /** The mutex holder's packet once it has been issued. */
  function OwnPacket(s: Server): seq<seq<byte>> {
    if s.owner == None then []
    else
      var th := ThreadOf(s, s.owner.value);
      if th.HasIssued() && th.phase.req.Packet? then [th.phase.req.text] else []
  }

  /** The commits are those of the served packets, in order of service, and the mutex holder's own. */
  ghost predicate Attributed(s: Server) {
    && s.log.pending == []
    && s.log.commits == AllPackets(s.served) + OwnPacket(s)
    && Ordered(s.served)
    && (forall i :: 0 <= i < |s.served| ==> s.served[i].commits + |OwnPacket(s)| <= |s.log.commits|)
  }

  /** Just the mutex holder is past waiting, and each thread's request is its connection's. */
  ghost predicate Exclusive(s: Server) {
    && (s.owner.Some? ==> s.owner.value in s.threads)
    && forall t :: t in s.threads ==>
      var th := s.threads[t];
      && (s.owner != Some(t) <==> th.phase.Receiving? || th.phase.Waiting?)
      && ConnectionOk(th.conn)
      && (!th.phase.Receiving? ==> Asks(th.conn, th.phase.req))
  }

  /** Everything the mutex holder and earlier ones echoed is as promised. */
  ghost predicate Inv(cap: nat, s: Server) {
    && Exclusive(s)
    && Attributed(s)
    && (s.owner.Some? ==> ThreadOk(cap, s.log, ThreadOf(s, s.owner.value)))
    && AllServedOk(cap, s.log.commits, s.served)
  }

  // ----- Every step keeps the invariant -----------------------------------------------------

  lemma StartInFile(cap: nat, live: seq<seq<byte>>, req: Request)
    ensures StartOf(cap, live, req) <= |Flatten(live)|
  {
    FlattenTotal(live);
    if req.SeekTo? { TargetInFile(Lengths(live), cap, req.cmd, req.off); }
  }

  /** A packet is committed whole, and nothing is left pending. */
  lemma PacketCommits(log: Log, conn: Connection, req: Request)
    requires log.pending == [] && Asks(conn, req) && req.Packet?
    ensures log.Append(req.text) == Log(log.commits + [req.text], [])
  {
    assert [] + req.text == req.text;
  }

  /** More commits do not change what was served before them. */
  lemma ServedStays(cap: nat, commits: seq<seq<byte>>, text: seq<byte>, e: Served)
    requires ServedOk(cap, commits, e)
    ensures ServedOk(cap, commits + [text], e)
  {
    assert (commits + [text])[..e.commits] == commits[..e.commits];
  }

  /** The receiving thread makes the requests that the receive loop makes, one for a chunk with a newline. */
  lemma RecvAsks(th: Thread, bytes: seq<byte>, sought: (nat, nat))
    requires ConnectionOk(th.conn)
    ensures
      var th' := AfterRecv(th, bytes, sought);
      && ConnectionOk(th'.conn)
      && th'.conn.chunks == th.conn.chunks + [bytes]
      && (if NL in CStr(bytes) then th'.phase.Waiting? && Asks(th'.conn, th'.phase.req) else th'.phase.Receiving?)
  {
    RequestsStay(th.conn.chunks, bytes, |th.conn.chunks|, th.conn.sought, sought);
  }

  /** What a read delivers continues the echo; if it delivers nothing, the echo is complete. */
  lemma ReadContinues(file: seq<byte>, start: int, echo: seq<byte>, bytes: seq<byte>)
    requires echo <= Shown(file, start)
    requires 0 <= start && bytes != []
    requires start + |echo| + |bytes| <= |file| && bytes == file[start + |echo|..start + |echo| + |bytes|]
    ensures echo + bytes <= Shown(file, start)
  {
    assert file[start..][|echo|..|echo| + |bytes|] == bytes;
  }

  lemma ReadOk(cap: nat, log: Log, th: Thread, count: nat, sent: nat)
    requires th.phase.Echoing? && 0 < count && ThreadOk(cap, log, th)
    ensures ThreadOk(cap, log, AfterRead(th, cap, log, count, sent))
  {
    if 0 <= th.fPos {
      var bytes := ReadAt(log.Live(cap), th.fPos, count);
      ReadIsSlice(log.Live(cap), th.fPos, count);
      if bytes != [] && 0 <= StartOf(cap, log.Live(cap), th.phase.req) {
        ReadContinues(log.File(cap), StartOf(cap, log.Live(cap), th.phase.req), th.echo, bytes);
        assert th.echo + bytes[..Min(sent, |bytes|)] <= th.echo + bytes;
      }
    }
  }

  /** Exchanging one thread, whose request is its connection's and which is past waiting only as the owner. */
  lemma SetThreadKeeps(s: Server, t: Tid, th: Thread, s': Server)
    requires Exclusive(s) && s'.threads == s.threads[t := th]
    requires s'.owner == s.owner || (s.owner == None && s'.owner == Some(t)) || (s.owner == Some(t) && s'.owner == None)
    requires s'.owner != Some(t) <==> th.phase.Receiving? || th.phase.Waiting?
    requires ConnectionOk(th.conn)
    requires !th.phase.Receiving? ==> Asks(th.conn, th.phase.req)
    ensures Exclusive(s')
  {
  }

  lemma SameAttribution(s: Server, s': Server)
    requires Attributed(s) && s'.log == s.log && s'.served == s.served && OwnPacket(s') == OwnPacket(s)
    ensures Attributed(s')
  {
  }

  /** A step of a thread that has no request issued before or after it, and leaves log and services alone. */
  lemma QuietKeeps(cap: nat, s: Server, t: Tid, th: Thread, s': Server)
    requires Inv(cap, s) && !ThreadOf(s, t).HasIssued() && !th.HasIssued()
    requires s' == Server(s.log, s'.owner, s.threads[t := th], s.served)
    requires s'.owner == s.owner || (s.owner == None && s'.owner == Some(t))
    requires s'.owner != Some(t) <==> th.phase.Receiving? || th.phase.Waiting?
    requires ConnectionOk(th.conn)
    requires !th.phase.Receiving? ==> Asks(th.conn, th.phase.req)
    requires s'.owner == Some(t) ==> ThreadOk(cap, s.log, th)
    ensures Inv(cap, s')
  {
    SetThreadKeeps(s, t, th, s');
    SameAttribution(s, s');
  }

  lemma RecvKeeps(cap: nat, s: Server, t: Tid, bytes: seq<byte>, sought: (nat, nat))
    requires Inv(cap, s) && ThreadOf(s, t).phase.Receiving?
    ensures Inv(cap, Step(cap, s, Recv(t, bytes, sought)))
  {
    var th := AfterRecv(ThreadOf(s, t), bytes, sought);
    RecvAsks(ThreadOf(s, t), bytes, sought);
    QuietKeeps(cap, s, t, th, Step(cap, s, Recv(t, bytes, sought)));
  }

  lemma HangupKeeps(cap: nat, s: Server, t: Tid)
    requires Inv(cap, s) && ThreadOf(s, t).phase.Receiving?
    ensures Inv(cap, Step(cap, s, Hangup(t)))
  {
    QuietKeeps(cap, s, t, Thread(Receiving, FRESH, 0, []), Step(cap, s, Hangup(t)));
  }

  lemma LockKeeps(cap: nat, s: Server, t: Tid)
    requires Inv(cap, s) && s.owner == None && ThreadOf(s, t).phase.Waiting?
    ensures Inv(cap, Step(cap, s, Lock(t)))
  {
    QuietKeeps(cap, s, t, Thread(Opened(s.threads[t].phase.req), s.threads[t].conn, 0, []), Step(cap, s, Lock(t)));
  }

  /** The commit that a packet makes is its thread's own. */
  lemma IssueAttributed(cap: nat, s: Server, t: Tid)
    requires Exclusive(s) && Attributed(s) && ThreadOf(s, t).phase.Opened? && ThreadOf(s, t).phase.req.Packet?
    ensures Attributed(Step(cap, s, Issue(t)))
  {
    var th, s' := ThreadOf(s, t), Step(cap, s, Issue(t));
    PacketCommits(s.log, th.conn, th.phase.req);
    assert |OwnPacket(s)| == 0 && OwnPacket(s') == [th.phase.req.text];
  }

  lemma CommitKeepsServed(cap: nat, commits: seq<seq<byte>>, served: seq<Served>, text: seq<byte>)
    requires AllServedOk(cap, commits, served)
    ensures AllServedOk(cap, commits + [text], served)
  {
    forall i | 0 <= i < |served|
      ensures ServedOk(cap, commits + [text], served[i])
    {
      ServedStays(cap, commits, text, served[i]);
    }
  }

  lemma PacketStarts(cap: nat, log: Log, text: seq<byte>)
    requires log.commits != [] && log.commits[|log.commits| - 1] == text
    ensures Issued(cap, log, Packet(text), [])
  {
  }

  lemma IssuePacketKeeps(cap: nat, s: Server, t: Tid)
    requires Inv(cap, s) && ThreadOf(s, t).phase.Opened? && ThreadOf(s, t).phase.req.Packet?
    ensures Inv(cap, Step(cap, s, Issue(t)))
  {
    var th, s' := ThreadOf(s, t), Step(cap, s, Issue(t));
    IssueAttributed(cap, s, t);
    PacketCommits(s.log, th.conn, th.phase.req);
    CommitKeepsServed(cap, s.log.commits, s.served, th.phase.req.text);
    PacketStarts(cap, s'.log, th.phase.req.text);
    SetThreadKeeps(s, t, ThreadOf(s', t), s');
  }

  lemma IssueSeekKeeps(cap: nat, s: Server, t: Tid)
    requires Inv(cap, s) && ThreadOf(s, t).phase.Opened? && ThreadOf(s, t).phase.req.SeekTo?
    ensures Inv(cap, Step(cap, s, Issue(t)))
  {
    var req := ThreadOf(s, t).phase.req;
    StartInFile(cap, s.log.Live(cap), req);
    assert Issued(cap, s.log, req, []);
  }

  /** Any progress of an issued request but a commit. */
  lemma EchoingKeeps(cap: nat, s: Server, t: Tid, th: Thread)
    requires Inv(cap, s) && t in s.threads && s.threads[t].HasIssued() && th.HasIssued()
    requires th.phase.req == s.threads[t].phase.req && th.conn == s.threads[t].conn
    requires ThreadOk(cap, s.log, th)
    ensures Inv(cap, SetThread(s, t, th))
  {
    SetThreadKeeps(s, t, th, SetThread(s, t, th));
    SameAttribution(s, SetThread(s, t, th));
  }

  lemma ReadKeepsRequest(th: Thread, cap: nat, log: Log, count: nat, sent: nat)
    requires th.phase.Echoing?
    ensures
      var th' := AfterRead(th, cap, log, count, sent);
      th'.HasIssued() && th'.phase.req == th.phase.req && th'.conn == th.conn
  {
  }

  lemma ReadStep(cap: nat, s: Server, t: Tid, count: nat, sent: nat)
    requires ThreadOf(s, t).phase.Echoing? && 0 < count
    ensures Step(cap, s, Read(t, count, sent)) == SetThread(s, t, AfterRead(s.threads[t], cap, s.log, count, sent))
  {
  }

  lemma ReadKeeps(cap: nat, s: Server, t: Tid, count: nat, sent: nat)
    requires Inv(cap, s) && ThreadOf(s, t).phase.Echoing? && 0 < count
    ensures Inv(cap, Step(cap, s, Read(t, count, sent)))
  {
    var th := s.threads[t];
    var th' := AfterRead(th, cap, s.log, count, sent);
    ReadKeepsRequest(th, cap, s.log, count, sent);
    assert ThreadOk(cap, s.log, th') by {
      assert ThreadOk(cap, s.log, th);
      ReadOk(cap, s.log, th, count, sent);
    }
    ReadStep(cap, s, t, count, sent);
    EchoingKeeps(cap, s, t, th');
  }

  lemma UnlockAttributed(cap: nat, s: Server, t: Tid)
    requires Exclusive(s) && Attributed(s) && ThreadOf(s, t).phase.Done?
    ensures Attributed(Step(cap, s, Unlock(t)))
  {
    var s' := Step(cap, s, Unlock(t));
    AllPacketsSnoc(s.served, s'.served[|s.served|]);
  }

  lemma DoneIsServed(cap: nat, log: Log, th: Thread)
    requires th.phase.Done? && ThreadOk(cap, log, th) && log.pending == []
    requires ConnectionOk(th.conn) && Asks(th.conn, th.phase.req)
    ensures ServedOk(cap, log.commits, Service(th, |log.commits|))
  {
    assert LogAt(log.commits, |log.commits|) == log;
  }

  lemma OneMoreServed(cap: nat, commits: seq<seq<byte>>, served: seq<Served>, e: Served)
    requires AllServedOk(cap, commits, served) && ServedOk(cap, commits, e)
    ensures AllServedOk(cap, commits, served + [e])
  {
  }

  lemma UnlockKeeps(cap: nat, s: Server, t: Tid)
    requires Inv(cap, s) && ThreadOf(s, t).phase.Done?
    ensures Inv(cap, Step(cap, s, Unlock(t)))
  {
    var th, s' := s.threads[t], Step(cap, s, Unlock(t));
    DoneIsServed(cap, s.log, th);
    OneMoreServed(cap, s.log.commits, s.served, Service(th, |s.log.commits|));
    UnlockAttributed(cap, s, t);
    SetThreadKeeps(s, t, ThreadOf(s', t), s');
  }

  lemma StepKeeps(cap: nat, s: Server, a: Action)
    requires Inv(cap, s)
    ensures Inv(cap, Step(cap, s, a))
  {
    var th := ThreadOf(s, a.t);
    match a
    case Recv(t, bytes, sought) => if th.phase.Receiving? { RecvKeeps(cap, s, t, bytes, sought); }
    case Hangup(t) => if th.phase.Receiving? { HangupKeeps(cap, s, t); }
    case Lock(t) => if s.owner == None && th.phase.Waiting? { LockKeeps(cap, s, t); }
    case Issue(t) =>
      if th.phase.Opened? {
        if th.phase.req.Packet? { IssuePacketKeeps(cap, s, t); } else { IssueSeekKeeps(cap, s, t); }
      }
    case Read(t, count, sent) => if th.phase.Echoing? && 0 < count { ReadKeeps(cap, s, t, count, sent); }
    case Unlock(t) => if th.phase.Done? { UnlockKeeps(cap, s, t); }
  }

  lemma StepExtends(cap: nat, s: Server, a: Action)
    ensures s.log.commits <= Step(cap, s, a).log.commits
    ensures s.served <= Step(cap, s, a).served
  {
  }

  lemma {:induction false} RunExtends(cap: nat, s: Server, acts: seq<Action>)
    ensures s.log.commits <= Run(cap, s, acts).log.commits
    ensures s.served <= Run(cap, s, acts).served
    decreases |acts|
  {
    if acts == [] {
    } else {
      StepExtends(cap, s, acts[0]);
      RunExtends(cap, Step(cap, s, acts[0]), acts[1..]);
    }
  }

  lemma {:induction false} RunSplits(cap: nat, s: Server, a: seq<Action>, b: seq<Action>)
    ensures Run(cap, s, a + b) == Run(cap, Run(cap, s, a), b)
    decreases |a|
  {
    if a == [] {
      assert a + b == b;
    } else {
      assert (a + b)[1..] == a[1..] + b;
      RunSplits(cap, Step(cap, s, a[0]), a[1..], b);
    }
  }

  /** Commits and services are never taken back: those of any part of a run begin those of the whole. */
  lemma HistoryStays(cap: nat, acts: seq<Action>, n: nat)
    requires n <= |acts|
    ensures Run(cap, START, acts[..n]).log.commits <= Run(cap, START, acts).log.commits
    ensures Run(cap, START, acts[..n]).served <= Run(cap, START, acts).served
  {
    SplitAt(acts, n);
    RunSplits(cap, START, acts[..n], acts[n..]);
    RunExtends(cap, Run(cap, START, acts[..n]), acts[n..]);
  }

  lemma {:induction false} RunKeeps(cap: nat, s: Server, acts: seq<Action>)
    requires Inv(cap, s)
    ensures Inv(cap, Run(cap, s, acts))
    decreases |acts|
  {
    if acts == [] {
    } else {
      StepKeeps(cap, s, acts[0]);
      RunKeeps(cap, Step(cap, s, acts[0]), acts[1..]);
    }
  }

  // ----- What clients are promised ------------------------------------------------------------

  /** The newest commit ends the file. */
  lemma NewestEndsFile(cap: nat, commits: seq<seq<byte>>)
    requires 1 <= cap && commits != []
    ensures
      var file, text := Flatten(Last(commits, cap)), commits[|commits| - 1];
      |text| <= |file| && file[|file| - |text|..] == text
  {
    var live := Last(commits, cap);
    var init, text := live[..|live| - 1], commits[|commits| - 1];
    assert live == init + [text];
    FlattenSnoc(init, text);
  }

  /** The text of a packet is the newest of the first n commits and, if the echo is complete, ends it. */
  ghost predicate EchoesItself(commits: seq<seq<byte>>, n: nat, text: seq<byte>, echo: seq<byte>, complete: bool) {
    && 0 < n <= |commits| && commits[n - 1] == text
    && (complete ==> |text| <= |echo| && echo[|echo| - |text|..] == text)
  }

  /**
   * What a seek to byte off of command cmd should show of the live entries: the rest of that entry
   * and those after it; all of them if there is no such byte; and where a position is too large for
   * an int, what lies behind the wrapped one. Command cap is command 0.
   */
  ghost function SoughtEcho(cap: nat, live: seq<seq<byte>>, cmd: nat, off: nat): seq<byte> {
    var c := if cmd == cap then 0 else cmd;
    if cmd <= cap && c < |live| && off < WrapU32(|live[c]|) then EchoFrom(live, c, off) else Flatten(live)
  }

  ghost function EchoFrom(live: seq<seq<byte>>, c: nat, off: nat): seq<byte>
    requires c < |live| && off < WrapU32(|live[c]|)
  {
    var p := |Flatten(live[..c])| + off;
    WrapU32AtMost(|live[c]|);
    if p <= INT_MAX then live[c][off..] + Flatten(live[c + 1..]) else Shown(Flatten(live), WrapInt(p))
  }

  ghost function RequestedEcho(cap: nat, live: seq<seq<byte>>, req: Request): seq<byte> {
    match req
    case Packet(_) => Flatten(live)
    case SeekTo(cmd, off) => SoughtEcho(cap, live, cmd, off)
  }

  lemma ShownTail(file: seq<byte>, a: seq<byte>, x: seq<byte>, b: seq<byte>, off: nat)
    requires file == a + x + b && off <= |x|
    ensures Shown(file, |a| + off) == x[off..] + b
  {
  }

  lemma RestShown(live: seq<seq<byte>>, c: nat, off: nat)
    requires c < |live| && off < WrapU32(|live[c]|)
    ensures Shown(Flatten(live), WrapInt(|Flatten(live[..c])| + off)) == EchoFrom(live, c, off)
  {
    if |Flatten(live[..c])| + off <= INT_MAX {
      WrapU32AtMost(|live[c]|);
      FlattenCut(live, c);
      ShownTail(Flatten(live), Flatten(live[..c]), live[c], Flatten(live[c + 1..]), off);
    }
  }

  /** The seek's start, without the sums. */
  lemma SeekStart(cap: nat, live: seq<seq<byte>>, cmd: nat, off: nat)
    ensures
      var c := if cmd == cap then 0 else cmd;
      StartOf(cap, live, SeekTo(cmd, off)) ==
      if cmd <= cap && c < |live| && off < WrapU32(|live[c]|) then WrapInt(|Flatten(live[..c])| + off) else 0
  {
    var c := if cmd == cap then 0 else cmd;
    if c < |live| { FlattenLength(live, c); }
  }

  lemma WholeShown(file: seq<byte>)
    ensures Shown(file, 0) == file
  {
  }

  lemma SeekShows(cap: nat, live: seq<seq<byte>>, cmd: nat, off: nat, start: int)
    requires start == StartOf(cap, live, SeekTo(cmd, off))
    ensures Shown(Flatten(live), start) == SoughtEcho(cap, live, cmd, off)
  {
    var c := if cmd == cap then 0 else cmd;
    SeekStart(cap, live, cmd, off);
    if cmd <= cap && c < |live| && off < WrapU32(|live[c]|) {
      RestShown(live, c, off);
    } else {
      WholeShown(Flatten(live));
    }
  }

  /** Reading from where the ioctl leads shows just that. */
  lemma StartShows(cap: nat, live: seq<seq<byte>>, req: Request)
    ensures Shown(Flatten(live), StartOf(cap, live, req)) == RequestedEcho(cap, live, req)
  {
    match req
    case Packet(_) => WholeShown(Flatten(live));
    case SeekTo(cmd, off) => SeekShows(cap, live, cmd, off, StartOf(cap, live, req));
  }

  /**
   * The echo of a service is what was requested of the last min(n, cap) of the n commits there were,
   * or a prefix of that when a send failed. The request is the last one the receive loop makes of
   * what the connection had received: a seek exactly if its text contains the command. Otherwise
   * that text is the newest of the commits and, unless a send failed, ends its own echo.
   */
  ghost predicate EchoAsPromised(cap: nat, commits: seq<seq<byte>>, e: Served) {
    && ConnectionOk(e.conn) && Asks(e.conn, e.req)
    && e.commits <= |commits|
    && var requested := RequestedEcho(cap, Last(commits[..e.commits], cap), e.req);
    && e.echo <= requested
    && (e.complete ==> e.echo == requested)
    && (e.req.Packet? ==> EchoesItself(commits, e.commits, e.req.text, e.echo, e.complete))
  }

  lemma PacketEchoesItself(cap: nat, commits: seq<seq<byte>>, e: Served)
    requires 1 <= cap && ServedOk(cap, commits, e) && e.req.Packet?
    ensures EchoesItself(commits, e.commits, e.req.text, e.echo, e.complete)
  {
    NewestEndsFile(cap, commits[..e.commits]);
  }

  lemma ServedAsPromised(cap: nat, commits: seq<seq<byte>>, e: Served)
    requires 1 <= cap && ServedOk(cap, commits, e)
    ensures EchoAsPromised(cap, commits, e)
  {
    StartShows(cap, Last(commits[..e.commits], cap), e.req);
    if e.req.Packet? { PacketEchoesItself(cap, commits, e); }
  }

  /**
   * Whatever the interleaving of the client threads, every service keeps its promise about the
   * commits of the whole run.
   */
  lemma EchoLinearizable(cap: nat, acts: seq<Action>, i: nat)
    requires 1 <= cap && i < |Run(cap, START, acts).served|
    ensures EchoAsPromised(cap, Run(cap, START, acts).log.commits, Run(cap, START, acts).served[i])
  {
    RunKeeps(cap, START, acts);
    ServedAsPromised(cap, Run(cap, START, acts).log.commits, Run(cap, START, acts).served[i]);
  }

  /**
   * The commits of a run are the texts of the served packets, in order of service, and after them
   * the mutex holder's own once it has issued it. Each packet has a commit of its own.
   */
  lemma CommitsInServiceOrder(cap: nat, acts: seq<Action>)
    ensures
      var s := Run(cap, START, acts);
      s.log.commits == AllPackets(s.served) + OwnPacket(s) && Ordered(s.served)
  {
    RunKeeps(cap, START, acts);
  }
}
