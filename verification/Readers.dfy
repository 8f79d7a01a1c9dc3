/** Many open handles over one device: what a handle that only reads receives over a whole run. */
module Readers {
  import opened Common
  import opened Sequences
  import opened DeviceLog
  import opened DeviceFile
  import opened FileOperations

  type Handle = nat

  /** The device and the file position of every open handle; a seek that wraps can make it negative. */
  datatype Sys = Sys(log: Log, fPos: map<Handle, int>)

  /** One call, which the device mutex makes one step. */
  datatype Event =
    | Opened(h: Handle)                 // a new handle starts at 0
    | Wrote(payload: seq<byte>)         // a successful write through any handle
    | Refused                           // any call that returned an error
    | DidRead(h: Handle, count: nat)
    | Moved(h: Handle, to: int)         // a successful llseek or seek ioctl

  function Step(cap: nat, s: Sys, e: Event): Sys {
    match e
    case Opened(h) => s.(fPos := s.fPos[h := 0])
    case Wrote(payload) => s.(log := s.log.Append(payload))
    case Refused => s
    case DidRead(h, count) =>
      if h in s.fPos then s.(fPos := s.fPos[h := s.fPos[h] + |Delivered(cap, s, e)|]) else s
    case Moved(h, to) => if h in s.fPos then s.(fPos := s.fPos[h := to]) else s
  }

  /** The bytes a read event hands to its caller; the kernel refuses a read at a negative position. */
  function Delivered(cap: nat, s: Sys, e: Event): (bytes: seq<byte>)
    requires e.DidRead?
    ensures bytes != [] ==> e.h in s.fPos && 0 <= s.fPos[e.h]
  {
    if e.h in s.fPos && 0 <= s.fPos[e.h] then ReadAt(s.log.Live(cap), s.fPos[e.h], e.count) else []
  }

  function Run(cap: nat, s: Sys, es: seq<Event>): Sys
    decreases |es|
  {
    if es == [] then s else Run(cap, Step(cap, s, es[0]), es[1..])
  }

  // ----- Conservation over runs ----------------------------------------------------------------

  /** What the writes of a run add. */
  function Payloads(es: seq<Event>): seq<seq<byte>> {
    if es == [] then []
    else if es[0].Wrote? then [es[0].payload] + Payloads(es[1..])
    else Payloads(es[1..])
  }

  /** Reads, seeks and refused calls leave the log alone. */
  lemma {:induction false} RunLog(cap: nat, s: Sys, es: seq<Event>)
    ensures Run(cap, s, es).log == AppendAll(s.log, Payloads(es))
    decreases |es|
  {
    if es == [] {
    } else {
      RunLog(cap, Step(cap, s, es[0]), es[1..]);
      if es[0].Wrote? {
        assert Payloads(es)[1..] == Payloads(es[1..]);
      }
    }
  }

  /** Whatever is interleaved with the writes, every accepted byte is evicted, live or pending, in order and once. */
  lemma RunConserves(cap: nat, s: Sys, es: seq<Event>)
    ensures
      var log := Run(cap, s, es).log;
      Flatten(log.Evicted(cap)) + log.File(cap) + log.pending == s.log.Stream() + Flatten(Payloads(es))
    ensures s.log.Disciplined() ==> Run(cap, s, es).log.Disciplined()
  {
    RunLog(cap, s, es);
    BytesConserved(s.log, Payloads(es), cap);
    if s.log.Disciplined() { CommitDiscipline(s.log, Payloads(es)); }
  }

  // ----- What a reader receives ----------------------------------------------------------------

  function EvictedBytes(cap: nat, log: Log): nat {
    |Flatten(log.Evicted(cap))|
  }

  /** A non-empty read: where its bytes lie in the stream of all commits, and how much had been evicted by then. */
  datatype Delivery = Delivery(start: nat, bytes: seq<byte>, evicted: nat)

  function DeliveryOf(cap: nat, s: Sys, e: Event): Delivery
    requires e.DidRead? && Delivered(cap, s, e) != []
  {
    var evicted := EvictedBytes(cap, s.log);
    Delivery(evicted + s.fPos[e.h], Delivered(cap, s, e), evicted)
  }

  /** What handle h receives over a run. */
  function Deliveries(cap: nat, s: Sys, es: seq<Event>, h: Handle): seq<Delivery>
    decreases |es|
  {
    if es == [] then [] else
      var later := Deliveries(cap, Step(cap, s, es[0]), es[1..], h);
      if es[0].DidRead? && es[0].h == h && Delivered(cap, s, es[0]) != [] then
        [DeliveryOf(cap, s, es[0])] + later
      else later
  }

  /** No event of the run reopens or moves handle h. */
  ghost predicate OnlyReads(es: seq<Event>, h: Handle)
    decreases |es|
  {
    es == [] || (Keeps(es[0], h) && OnlyReads(es[1..], h))
  }

  ghost predicate Keeps(e: Event, h: Handle) {
    match e
    case Opened(h') => h' != h
    case Moved(h', _) => h' != h
    case _ => true
  }

  /**
   * Every delivery starts where the one before it ended (the first one at `from`), plus what was
   * evicted in between, and consists of the bytes of the stream at that place.
   */
  ghost predicate Chained(ds: seq<Delivery>, from: nat, evicted: nat, stream: seq<byte>)
    decreases |ds|
  {
    ds == [] ||
    (var d := ds[0];
     && evicted <= d.evicted
     && d.start == from + (d.evicted - evicted)
     && d.start + |d.bytes| <= |stream|
     && d.bytes == stream[d.start..d.start + |d.bytes|]
     && d.bytes != []
     && Chained(ds[1..], d.start + |d.bytes|, d.evicted, stream))
  }

  lemma {:induction false} RunExtendsCommits(cap: nat, s: Sys, es: seq<Event>)
    ensures s.log.commits <= Run(cap, s, es).log.commits
    decreases |es|
  {
    if es == [] {
    } else {
      RunExtendsCommits(cap, Step(cap, s, es[0]), es[1..]);
    }
  }

  /** More commits never bring evicted bytes back. */
  lemma EvictionGrows(cap: nat, log: Log, payload: seq<byte>)
    ensures EvictedBytes(cap, log) <= EvictedBytes(cap, log.Append(payload))
  {
    var a, b := log.Evicted(cap), log.Append(payload).Evicted(cap);
    assert b == a + b[|a|..];
    FlattenConcat(a, b[|a|..]);
  }

  lemma SliceInContext<T>(pre: seq<T>, file: seq<T>, stream: seq<T>, p: nat, k: nat)
    requires pre + file <= stream && p + k <= |file|
    ensures |pre| + p + k <= |stream| && stream[|pre| + p..|pre| + p + k] == file[p..p + k]
  {
    assert stream[..|pre + file|] == pre + file;
    var all := pre + file;
    assert stream[|pre| + p..|pre| + p + k] == stream[..|all|][|pre| + p..|pre| + p + k];
  }

  /** A read delivers the bytes of the stream that lie evicted + f_pos from its start. */
  lemma ReadIsStreamSlice(cap: nat, log: Log, fPos: nat, count: nat, stream: seq<byte>)
    requires Flatten(log.commits) <= stream
    ensures
      var bytes, start := ReadAt(log.Live(cap), fPos, count), EvictedBytes(cap, log) + fPos;
      bytes != [] ==> start + |bytes| <= |stream| && bytes == stream[start..start + |bytes|]
  {
    var bytes := ReadAt(log.Live(cap), fPos, count);
    ReadIsSlice(log.Live(cap), fPos, count);
    FlattenConcat(log.Evicted(cap), log.Live(cap));
    assert log.Evicted(cap) + log.Live(cap) == log.commits;
    if bytes != [] {
      SliceInContext(Flatten(log.Evicted(cap)), log.File(cap), stream, fPos, |bytes|);
    }
  }

  /** An event moves a handle that it does not open or seek by what it delivers to that handle, and no further. */
  lemma StepMovesReader(cap: nat, s: Sys, e: Event, h: Handle)
    requires h in s.fPos && 0 <= s.fPos[h]
    requires Keeps(e, h)
    ensures
      var s' := Step(cap, s, e);
      && h in s'.fPos
      && s'.fPos[h] == s.fPos[h] + (if e.DidRead? && e.h == h then |Delivered(cap, s, e)| else 0)
      && EvictedBytes(cap, s.log) <= EvictedBytes(cap, s'.log)
      && (e.DidRead? ==> s'.log == s.log)
      && (s.log.commits == [] && s'.log.commits == [] ==> s'.fPos[h] == s.fPos[h])
  {
    if e.Wrote? { EvictionGrows(cap, s.log, e.payload); }
  }

  lemma ChainCons(d: Delivery, ds: seq<Delivery>, all: seq<Delivery>, from: nat, evicted: nat, stream: seq<byte>)
    requires all == [d] + ds
    requires evicted <= d.evicted && d.start == from + (d.evicted - evicted) && d.bytes != []
    requires d.start + |d.bytes| <= |stream| && d.bytes == stream[d.start..d.start + |d.bytes|]
    requires Chained(ds, d.start + |d.bytes|, d.evicted, stream)
    ensures Chained(all, from, evicted, stream)
  {
    assert all[1..] == ds;
  }

  /** A read of h that delivers something puts the right piece in front. */
  lemma DeliveryIsPiece(cap: nat, s: Sys, es: seq<Event>, h: Handle, stream: seq<byte>)
    requires es != [] && h in s.fPos && 0 <= s.fPos[h] && es[0].DidRead? && es[0].h == h
    requires Flatten(Run(cap, s, es).log.commits) <= stream
    ensures
      var bytes, start := Delivered(cap, s, es[0]), EvictedBytes(cap, s.log) + s.fPos[h];
      bytes != [] ==> start + |bytes| <= |stream| && bytes == stream[start..start + |bytes|]
  {
    assert Flatten(s.log.commits) <= stream by {
      RunExtendsCommits(cap, s, es);
      PrefixFlattens(s.log.commits, Run(cap, s, es).log.commits);
    }
    ReadIsStreamSlice(cap, s.log, s.fPos[h], es[0].count, stream);
  }

  /** A read of h that delivers something puts its delivery in front. */
  lemma DeliveryInFront(cap: nat, s: Sys, es: seq<Event>, h: Handle)
    requires es != [] && h in s.fPos && es[0].DidRead? && es[0].h == h && Delivered(cap, s, es[0]) != []
    ensures Deliveries(cap, s, es, h) == [DeliveryOf(cap, s, es[0])] + Deliveries(cap, Step(cap, s, es[0]), es[1..], h)
    ensures h in Step(cap, s, es[0]).fPos
    ensures Step(cap, s, es[0]).fPos[h] == s.fPos[h] + |Delivered(cap, s, es[0])|
  {
  }

  /** Any other event leaves the deliveries and the position as they are. */
  lemma NoDelivery(cap: nat, s: Sys, es: seq<Event>, h: Handle)
    requires es != [] && h in s.fPos && 0 <= s.fPos[h] && Keeps(es[0], h)
    requires !(es[0].DidRead? && es[0].h == h && Delivered(cap, s, es[0]) != [])
    ensures Deliveries(cap, s, es, h) == Deliveries(cap, Step(cap, s, es[0]), es[1..], h)
    ensures h in Step(cap, s, es[0]).fPos && Step(cap, s, es[0]).fPos[h] == s.fPos[h]
  {
  }

  /** A delivery in front of the chain of the later ones. */
  lemma ChainDelivered(cap: nat, s: Sys, es: seq<Event>, h: Handle, evicted: nat, stream: seq<byte>)
    requires es != [] && h in s.fPos && 0 <= s.fPos[h] && es[0].DidRead? && es[0].h == h
    requires Delivered(cap, s, es[0]) != [] && evicted <= EvictedBytes(cap, s.log)
    requires Flatten(Run(cap, s, es).log.commits) <= stream
    requires
      var d := DeliveryOf(cap, s, es[0]);
      Chained(Deliveries(cap, Step(cap, s, es[0]), es[1..], h), d.start + |d.bytes|, d.evicted, stream)
    ensures Chained(Deliveries(cap, s, es, h), evicted + s.fPos[h], evicted, stream)
  {
    var d, later := DeliveryOf(cap, s, es[0]), Deliveries(cap, Step(cap, s, es[0]), es[1..], h);
    DeliveryInFront(cap, s, es, h);
    DeliveryIsPiece(cap, s, es, h, stream);
    ChainCons(d, later, Deliveries(cap, s, es, h), evicted + s.fPos[h], evicted, stream);
  }

  /** From the position of h on, what it is given is a chain of pieces. */
  lemma {:induction false} DeliveriesChain(cap: nat, s: Sys, es: seq<Event>, h: Handle, from: nat, evicted: nat,
                                           stream: seq<byte>)
    requires h in s.fPos && 0 <= s.fPos[h] && OnlyReads(es, h)
    requires evicted <= EvictedBytes(cap, s.log) && from == evicted + s.fPos[h]
    requires Flatten(Run(cap, s, es).log.commits) <= stream
    ensures Chained(Deliveries(cap, s, es, h), from, evicted, stream)
    decreases |es|
  {
    if es == [] {
    } else {
      var e, s' := es[0], Step(cap, s, es[0]);
      StepMovesReader(cap, s, e, h);
      if e.DidRead? && e.h == h && Delivered(cap, s, e) != [] {
        var d := DeliveryOf(cap, s, e);
        DeliveriesChain(cap, s', es[1..], h, d.start + |d.bytes|, d.evicted, stream);
        ChainDelivered(cap, s, es, h, evicted, stream);
      } else {
        NoDelivery(cap, s, es, h);
        DeliveriesChain(cap, s', es[1..], h, from, evicted, stream);
      }
    }
  }

  lemma PrefixFlattens(a: seq<seq<byte>>, b: seq<seq<byte>>)
    requires a <= b
    ensures Flatten(a) <= Flatten(b)
  {
    assert b == a + b[|a|..];
    FlattenConcat(a, b[|a|..]);
  }

  lemma {:induction false} ChainAt(ds: seq<Delivery>, from: nat, evicted: nat, stream: seq<byte>, i: nat)
    requires Chained(ds, from, evicted, stream) && i < |ds|
    ensures ds[i].start + |ds[i].bytes| <= |stream|
    ensures ds[i].bytes == stream[ds[i].start..ds[i].start + |ds[i].bytes|] && ds[i].bytes != []
    ensures i + 1 < |ds| ==>
      && ds[i].evicted <= ds[i + 1].evicted
      && ds[i + 1].start == ds[i].start + |ds[i].bytes| + (ds[i + 1].evicted - ds[i].evicted)
    decreases i
  {
    if i == 0 {
    } else {
      ChainAt(ds[1..], ds[0].start + |ds[0].bytes|, ds[0].evicted, stream, i - 1);
    }
  }

  lemma {:induction false} ChainOrder(ds: seq<Delivery>, from: nat, evicted: nat, stream: seq<byte>, i: nat, j: nat)
    requires Chained(ds, from, evicted, stream) && i < j < |ds|
    ensures ds[i].start + |ds[i].bytes| <= ds[j].start
    decreases j - i
  {
    ChainAt(ds, from, evicted, stream, i);
    if i + 1 == j {
    } else {
      ChainOrder(ds, from, evicted, stream, i + 1, j);
      ChainAt(ds, from, evicted, stream, i + 1);
    }
  }

  /** The pieces lie in the stream in order, the first one behind what was evicted, with only evicted bytes between. */
  ghost predicate SkipsOnlyEvicted(ds: seq<Delivery>, stream: seq<byte>) {
    && (forall i :: 0 <= i < |ds| ==>
          && ds[i].start + |ds[i].bytes| <= |stream|
          && ds[i].bytes == stream[ds[i].start..ds[i].start + |ds[i].bytes|])
    && (ds != [] ==> ds[0].start == ds[0].evicted)
    && (forall i, j :: 0 <= i < j < |ds| ==> ds[i].start < ds[i].start + |ds[i].bytes| <= ds[j].start)
    && (forall i :: 0 <= i < |ds| - 1 ==>
          ds[i + 1].start - (ds[i].start + |ds[i].bytes|) == ds[i + 1].evicted - ds[i].evicted)
  }

  lemma ChainSkipsOnlyEvicted(ds: seq<Delivery>, evicted: nat, stream: seq<byte>)
    requires Chained(ds, evicted, evicted, stream)
    ensures SkipsOnlyEvicted(ds, stream)
  {
    forall i | 0 <= i < |ds|
      ensures ds[i].start + |ds[i].bytes| <= |stream|
      ensures ds[i].bytes == stream[ds[i].start..ds[i].start + |ds[i].bytes|] && ds[i].bytes != []
      ensures i + 1 < |ds| ==> ds[i + 1].start - (ds[i].start + |ds[i].bytes|) == ds[i + 1].evicted - ds[i].evicted
    {
      ChainAt(ds, evicted, evicted, stream, i);
    }
    forall i, j | 0 <= i < j < |ds|
      ensures ds[i].start < ds[i].start + |ds[i].bytes| <= ds[j].start
    {
      ChainOrder(ds, evicted, evicted, stream, i, j);
    }
  }

  /**
   * Over every interleaving, a handle that starts at 0 and only reads is given increasing,
   * non-overlapping pieces of the stream of all commits, and skips exactly what is evicted between
   * two of its reads.
   */
  lemma ReaderMonotone(cap: nat, s: Sys, es: seq<Event>, h: Handle)
    requires h in s.fPos && s.fPos[h] == 0 && OnlyReads(es, h)
    ensures SkipsOnlyEvicted(Deliveries(cap, s, es, h), Flatten(Run(cap, s, es).log.commits))
  {
    var ev := EvictedBytes(cap, s.log);
    DeliveriesChain(cap, s, es, h, ev, ev, Flatten(Run(cap, s, es).log.commits));
    ChainSkipsOnlyEvicted(Deliveries(cap, s, es, h), ev, Flatten(Run(cap, s, es).log.commits));
  }

  /** That holds from when the handle is opened, wherever another handle of its name had been. */
  lemma OpenedReader(cap: nat, s: Sys, es: seq<Event>, h: Handle)
    requires OnlyReads(es, h)
    ensures
      var all := [Opened(h)] + es;
      SkipsOnlyEvicted(Deliveries(cap, s, all, h), Flatten(Run(cap, s, all).log.commits))
  {
    var all := [Opened(h)] + es;
    assert all[1..] == es;
    ReaderMonotone(cap, Step(cap, s, Opened(h)), es, h);
  }

  /** Such a handle is past position 0 only once something has been committed, so no read of it leaves a buffer. */
  lemma {:induction false} ReaderStaysDefined(cap: nat, s: Sys, es: seq<Event>, h: Handle)
    requires h in s.fPos && 0 <= s.fPos[h] && OnlyReads(es, h)
    requires s.log.commits == [] ==> s.fPos[h] == 0
    ensures
      var s' := Run(cap, s, es);
      && h in s'.fPos && 0 <= s'.fPos[h]
      && (s'.log.commits == [] ==> s'.fPos[h] == 0)
      && forall count, env :: ReadOutcome(s'.log, cap, s'.fPos[h], count, env) != OutsideBuffer
    decreases |es|
  {
    if es == [] {
    } else {
      StepMovesReader(cap, s, es[0], h);
      ReaderStaysDefined(cap, Step(cap, s, es[0]), es[1..], h);
    }
  }
}
