/** What the device remembers, without offsets or memory: the commits so far and the pending write. */
module DeviceLog {
  import opened Common
  import opened Sequences

  datatype Log = Log(commits: seq<seq<byte>>, pending: seq<byte>) {

    /** The entries the ring still holds. */
    function Live(cap: nat): seq<seq<byte>> {
      Last(commits, cap)
    }

    /** The entries it has dropped. */
    function Evicted(cap: nat): seq<seq<byte>> {
      Dropped(commits, cap)
    }

    /** What a reader sees as one file. */
    function File(cap: nat): seq<byte> {
      Flatten(Live(cap))
    }

    /** Every byte ever accepted. */
    function Stream(): seq<byte> {
      Flatten(commits) + pending
    }

    /** One successful write: commit everything pending as soon as it contains a newline. */
    function Append(payload: seq<byte>): Log {
      var all := pending + payload;
      if NL in all then Log(commits + [all], []) else Log(commits, all)
    }

    ghost predicate Disciplined() {
      NL !in pending && forall c :: c in commits ==> NL in c
    }
  }

  const EMPTY := Log([], [])

  function AppendAll(d: Log, ws: seq<seq<byte>>): Log
    decreases |ws|
  {
    if ws == [] then d else AppendAll(d.Append(ws[0]), ws[1..])
  }

  // ----- Conservation ---------------------------------------------------------------------

  lemma StreamSplits(d: Log, cap: nat)
    ensures Flatten(d.Evicted(cap)) + d.File(cap) + d.pending == d.Stream()
  {
    FlattenConcat(d.Evicted(cap), d.Live(cap));
  }

  lemma AppendConserves(d: Log, payload: seq<byte>)
    ensures d.Append(payload).Stream() == d.Stream() + payload
    ensures d.commits <= d.Append(payload).commits
    ensures d.Disciplined() ==> d.Append(payload).Disciplined()
  {
    FlattenSnoc(d.commits, d.pending + payload);
  }

  /** Every accepted byte is in an evicted entry, a live entry or the pending write, in order and once. */
  lemma {:induction false} BytesConserved(d: Log, ws: seq<seq<byte>>, cap: nat)
    ensures
      var d' := AppendAll(d, ws);
      && Flatten(d'.Evicted(cap)) + d'.File(cap) + d'.pending == d.Stream() + Flatten(ws)
      && d.commits <= d'.commits
      && |d'.Live(cap)| == (if |d'.commits| <= cap then |d'.commits| else cap)
      && d'.Evicted(cap) == d'.commits[..|d'.commits| - |d'.Live(cap)|]
    decreases |ws|
  {
    StreamSplits(AppendAll(d, ws), cap);
    if ws == [] {
    } else {
      AppendConserves(d, ws[0]);
      BytesConserved(d.Append(ws[0]), ws[1..], cap);
    }
  }

  /** In every reachable state nothing pending has a newline and every entry has one. */
  lemma {:induction false} CommitDiscipline(d: Log, ws: seq<seq<byte>>)
    requires d.Disciplined()
    ensures AppendAll(d, ws).Disciplined()
    ensures forall c :: c in AppendAll(d, ws).commits ==> |c| > 0
    decreases |ws|
  {
    if ws == [] {
    } else {
      AppendConserves(d, ws[0]);
      CommitDiscipline(d.Append(ws[0]), ws[1..]);
    }
  }

  // ----- Independence of how the stream is cut into writes ---------------------------------

  /** A newline, and nothing after the first one. */
  ghost predicate IsLine(s: seq<byte>) {
    s != [] && s[|s| - 1] == NL && NL !in s[..|s| - 1]
  }

  /** No byte follows a newline. */
  ghost predicate Tidy(w: seq<byte>) {
    forall i :: 0 <= i < |w| - 1 ==> w[i] != NL
  }

  /** Where the first newline is. */
  function LineEnd(s: seq<byte>): (k: nat)
    requires NL in s
    ensures k < |s| && s[k] == NL && NL !in s[..k]
  {
    if s[0] == NL then 0 else
      var k := LineEnd(s[1..]);
      assert s[..k + 1] == [s[0]] + s[1..][..k];
      k + 1
  }

  lemma {:induction false} LineEndIs(s: seq<byte>, k: nat)
    requires k < |s| && s[k] == NL && NL !in s[..k]
    ensures LineEnd(s) == k
  {
    if k == 0 {
    } else {
      assert s[0] == s[..k][0];
      assert s[1..][..k - 1] == s[..k][1..];
      LineEndIs(s[1..], k - 1);
    }
  }

  /** The newline-terminated lines of a stream, and what is left after them. */
  function Lines(s: seq<byte>): Log
    decreases |s|
  {
    if NL !in s then Log([], s) else
      var k := LineEnd(s) + 1;
      var rest := Lines(s[k..]);
      Log([s[..k]] + rest.commits, rest.pending)
  }

  lemma FirstLine(s: seq<byte>)
    requires NL in s
    ensures IsLine(s[..LineEnd(s) + 1])
  {
    var k := LineEnd(s);
    assert s[..k + 1][..k] == s[..k];
  }

  lemma {:induction false} LinesAreLines(s: seq<byte>, i: nat)
    requires i < |Lines(s).commits|
    ensures IsLine(Lines(s).commits[i])
    decreases |s|
  {
    var k := LineEnd(s) + 1;
    assert Lines(s).commits == [s[..k]] + Lines(s[k..]).commits;
    if i == 0 {
      FirstLine(s);
    } else {
      LinesAreLines(s[k..], i - 1);
    }
  }

  lemma LineThenRest(line: seq<byte>, rest: Log)
    ensures Log([line] + rest.commits, rest.pending).Stream() == line + rest.Stream()
  {
    FlattenCons(line, rest.commits);
  }

  /** Cutting into lines loses nothing. */
  lemma {:induction false} LinesConserve(s: seq<byte>)
    ensures NL !in Lines(s).pending
    ensures Lines(s).Stream() == s
    decreases |s|
  {
    if NL !in s {
    } else {
      var k := LineEnd(s) + 1;
      LinesConserve(s[k..]);
      LineThenRest(s[..k], Lines(s[k..]));
      SplitAt(s, k);
    }
  }

  lemma LinesCons(line: seq<byte>, rest: seq<byte>)
    requires IsLine(line)
    ensures Lines(line + rest) == Log([line] + Lines(rest).commits, Lines(rest).pending)
  {
    var s, k := line + rest, |line| - 1;
    assert s[..k] == line[..k];
    LineEndIs(s, k);
    assert s[..k + 1] == line && s[k + 1..] == rest;
  }

  lemma TidyWrite(pending: seq<byte>, w: seq<byte>)
    requires NL !in pending
    ensures NL in pending + w ==> (IsLine(pending + w) <==> Tidy(w))
  {
    var all := pending + w;
    if NL in all {
      if Tidy(w) {
        forall i | 0 <= i < |all| - 1
          ensures all[i] != NL
        {
          if |pending| <= i { assert w[i - |pending|] != NL; }
        }
      } else {
        var i :| 0 <= i < |w| - 1 && w[i] == NL;
        assert all[..|all| - 1][|pending| + i] == NL;
      }
    }
  }

  ghost predicate AllTidy(ws: seq<seq<byte>>) {
    forall i :: 0 <= i < |ws| ==> Tidy(ws[i])
  }

  /** Tidy writes commit exactly the lines of the stream. */
  lemma {:induction false} TidyWritesCommitLines(d: Log, ws: seq<seq<byte>>)
    requires NL !in d.pending && AllTidy(ws)
    ensures
      var l := Lines(d.pending + Flatten(ws));
      AppendAll(d, ws) == Log(d.commits + l.commits, l.pending)
    decreases |ws|
  {
    if ws == [] {
      assert d.pending + Flatten(ws) == d.pending;
    } else {
      var rest := Flatten(ws[1..]);
      assert d.pending + Flatten(ws) == d.pending + ws[0] + rest;
      TidyWritesCommitLines(d.Append(ws[0]), ws[1..]);
      if NL in d.pending + ws[0] {
        TidyCommit(d, ws[0], rest);
        ConcatAssociates(d.commits, [d.pending + ws[0]], Lines(rest).commits);
      }
    }
  }

  /** A tidy write that commits takes the first line off the stream. */
  lemma TidyCommit(d: Log, w: seq<byte>, rest: seq<byte>)
    requires NL !in d.pending && Tidy(w) && NL in d.pending + w
    ensures d.Append(w) == Log(d.commits + [d.pending + w], []) && [] + rest == rest
    ensures Lines(d.pending + w + rest) == Log([d.pending + w] + Lines(rest).commits, Lines(rest).pending)
  {
    TidyWrite(d.pending, w);
    LinesCons(d.pending + w, rest);
  }

  /** An untidy write commits an entry that is not a line, for good. */
  lemma {:induction false} UntidyWriteShows(d: Log, ws: seq<seq<byte>>, j: nat)
    requires NL !in d.pending
    requires j < |ws| && !Tidy(ws[j])
    ensures exists c :: c in AppendAll(d, ws).commits && !IsLine(c)
    decreases |ws|
  {
    var all := d.pending + ws[0];
    if j == 0 {
      TidyWrite(d.pending, ws[0]);
      var i :| 0 <= i < |ws[0]| - 1 && ws[0][i] == NL;
      assert all[|d.pending| + i] == NL;
      BytesConserved(d.Append(ws[0]), ws[1..], 0);
      assert d.Append(ws[0]).commits[|d.commits|] == all;
      assert AppendAll(d, ws).commits[|d.commits|] == all;
    } else {
      UntidyWriteShows(d.Append(ws[0]), ws[1..], j - 1);
    }
  }

  lemma LinesHaveNoOther(s: seq<byte>, c: seq<byte>)
    requires !IsLine(c)
    ensures c !in Lines(s).commits
  {
    forall i | 0 <= i < |Lines(s).commits|
      ensures Lines(s).commits[i] != c
    {
      LinesAreLines(s, i);
    }
  }

  /** The entries are the lines of the stream exactly when no write has a byte after a newline. */
  lemma LinesIffTidy(ws: seq<seq<byte>>)
    ensures AppendAll(EMPTY, ws) == Lines(Flatten(ws)) <==> AllTidy(ws)
  {
    if AllTidy(ws) {
      TidyWritesCommitLines(EMPTY, ws);
      assert [] + Flatten(ws) == Flatten(ws);
    } else {
      var j :| 0 <= j < |ws| && !Tidy(ws[j]);
      UntidyWriteShows(EMPTY, ws, j);
      var c :| c in AppendAll(EMPTY, ws).commits && !IsLine(c);
      LinesHaveNoOther(Flatten(ws), c);
    }
  }

  /** Any two tidy ways of cutting one stream into writes leave the same ring contents and pending bytes. */
  lemma ChunkingIndependent(ws: seq<seq<byte>>, ws': seq<seq<byte>>, cap: nat)
    requires Flatten(ws) == Flatten(ws')
    requires AllTidy(ws) && AllTidy(ws')
    ensures AppendAll(EMPTY, ws) == AppendAll(EMPTY, ws')
    ensures AppendAll(EMPTY, ws).Live(cap) == Last(Lines(Flatten(ws)).commits, cap)
    ensures AppendAll(EMPTY, ws).pending == Lines(Flatten(ws)).pending
  {
    LinesIffTidy(ws);
    LinesIffTidy(ws');
  }
}
