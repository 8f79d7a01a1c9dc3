/** writeback of aesdsocket.c: lines read from the device, each sent in as many pieces as send takes. */
module Writeback {
  import opened Common
  import opened Sequences

  /** Back with a status, or still waiting in a send. */
  datatype Outcome = Finished(ok: bool) | Waiting

  /** Where getline stops when it starts at n: behind the next newline, or at the end. */
  function LineStop(content: seq<byte>, n: nat): (stop: nat)
    requires n <= |content|
    ensures n <= stop <= |content|
    ensures stop == n <==> n == |content|
    ensures forall i :: n <= i < stop - 1 ==> content[i] != NL
    ensures n < stop < |content| ==> content[stop - 1] == NL
    decreases |content| - n
  {
    if n == |content| then n else if content[n] == NL then n + 1 else LineStop(content, n + 1)
  }

  /** A line stops where it did when its first bytes are gone. */
  lemma {:induction false} SameStop(content: seq<byte>, n: nat, m: nat)
    requires n <= |content| && n <= m < LineStop(content, n)
    ensures LineStop(content, m) == LineStop(content, n)
    decreases m - n
  {
    if n == m {
    } else {
      SameStop(content, n + 1, m);
    }
  }

  /** Where the line at each position stops, from 0 to the end of the content. */
  type Stops = s: seq<nat> | ValidStops(s) witness [0]

  ghost predicate ValidStops(stops: seq<nat>) {
    && stops != []
    && (forall n :: 0 <= n < |stops| ==> n <= stops[n] < |stops|)
    && (forall n :: 0 <= n < |stops| - 1 ==> n < stops[n])
    && (forall n, m :: 0 <= n <= m < |stops| && m < stops[n] ==> SameLine(stops, n, m))
  }

  ghost predicate SameLine(stops: seq<nat>, n: nat, m: nat)
    requires n < |stops| && m < |stops|
  {
    stops[n] == stops[m]
  }

  ghost function StopsOf(content: seq<byte>): (stops: Stops)
    ensures |stops| == |content| + 1
    ensures forall n :: 0 <= n <= |content| ==> stops[n] == LineStop(content, n)
  {
    var stops := seq(|content| + 1, n requires 0 <= n <= |content| => LineStop(content, n));
    assert ValidStops(stops) by {
      forall n, m | 0 <= n <= m < |stops| && m < stops[n]
        ensures SameLine(stops, n, m)
      {
        SameStop(content, n, m);
      }
    }
    stops
  }

  /** How many lines there are from n on. */
  ghost function LineCount(stops: Stops, n: nat): nat
    requires n < |stops|
    decreases |stops| - n
  {
    if n == |stops| - 1 then 0 else 1 + LineCount(stops, stops[n])
  }

  // ----- What the socket has ----------------------------------------------------------------------

  /** How much a call takes of some bytes it is offered: what its result says, up to all; nothing if it fails. */
  function Took(offered: nat, result: int): (n: nat)
    ensures n <= offered
  {
    if result < 0 then 0 else Min(result, offered)
  }

  /** How much the socket has after the first k calls, each of which is offered what is left of the line there. */
  ghost function Sent(stops: Stops, sends: seq<int>, k: nat): (n: nat)
    requires k <= |sends|
    ensures n < |stops|
  {
    if k == 0 then 0
    else
      var n := Sent(stops, sends, k - 1);
      n + Took(stops[n] - n, sends[k - 1])
  }

  lemma {:induction false} SentGrows(stops: Stops, sends: seq<int>, j: nat, k: nat)
    requires j <= k <= |sends|
    ensures Sent(stops, sends, j) <= Sent(stops, sends, k)
  {
    if j == k {
    } else {
      SentGrows(stops, sends, j, k - 1);
    }
  }

  ghost predicate TakesIt(stops: Stops, sends: seq<int>, k: nat)
    requires k < |sends|
  {
    stops[Sent(stops, sends, k)] - Sent(stops, sends, k) <= sends[k]
  }

  /** A call in the middle of a line takes what it says, up to where the line stops. */
  lemma SentInLine(stops: Stops, sends: seq<int>, k: nat, at: nat, total: nat)
    requires k < |sends| && Sent(stops, sends, k) == at + total
    requires at < |stops| && at + total < stops[at]
    ensures Sent(stops, sends, k + 1) == at + total + Took(stops[at] - at - total, sends[k])
  {
    assert SameLine(stops, at, at + total);
  }

  /** Each call takes all it is offered. */
  ghost predicate TakesAll(stops: Stops, sends: seq<int>) {
    forall k :: 0 <= k < |sends| ==> TakesIt(stops, sends, k)
  }

  lemma LineTaken(stops: Stops, sends: seq<int>, k: nat)
    requires k < |sends| && TakesIt(stops, sends, k) && Sent(stops, sends, k) < |stops| - 1
    ensures LineCount(stops, Sent(stops, sends, k)) == 1 + LineCount(stops, Sent(stops, sends, k + 1))
  {
    assert Sent(stops, sends, k + 1) == stops[Sent(stops, sends, k)];
  }

  /** Calls that take all they are offered send a line each. */
  lemma {:induction false} LineByLine(stops: Stops, sends: seq<int>, k: nat)
    requires TakesAll(stops, sends) && k <= |sends| && k <= LineCount(stops, 0)
    ensures LineCount(stops, Sent(stops, sends, k)) == LineCount(stops, 0) - k
  {
    if k == 0 {
    } else {
      LineByLine(stops, sends, k - 1);
      LineTaken(stops, sends, k - 1);
    }
  }

  /** So as many of them as there are lines send everything. */
  lemma OneCallPerLine(stops: Stops, sends: seq<int>)
    requires TakesAll(stops, sends) && LineCount(stops, 0) <= |sends|
    ensures Sent(stops, sends, LineCount(stops, 0)) == |stops| - 1
  {
    LineByLine(stops, sends, LineCount(stops, 0));
  }

  /** Something is left over only when a call did not take all it was offered, or there were too few calls. */
  lemma Unfinished(stops: Stops, sends: seq<int>, used: nat)
    requires used <= |sends| && Sent(stops, sends, used) < |stops| - 1
    requires used == |sends| || (0 < used && sends[used - 1] < 0)
    ensures !(TakesAll(stops, sends) && LineCount(stops, 0) <= |sends|)
  {
    if 0 < used && sends[used - 1] < 0 {
      assert !TakesIt(stops, sends, used - 1);
    } else if TakesAll(stops, sends) && LineCount(stops, 0) <= |sends| {
      OneCallPerLine(stops, sends);
      SentGrows(stops, sends, LineCount(stops, 0), |sends|);
    }
  }

  /** What the k-th call is offered. */
  ghost function Offered(content: seq<byte>, stops: Stops, sends: seq<int>, k: nat): seq<byte>
    requires |stops| == |content| + 1 && k < |sends|
  {
    content[Sent(stops, sends, k)..stops[Sent(stops, sends, k)]]
  }

  /** What the first k calls have taken of what they were offered, one after the other. */
  ghost function Taken(content: seq<byte>, stops: Stops, sends: seq<int>, k: nat): seq<byte>
    requires |stops| == |content| + 1 && k <= |sends|
  {
    if k == 0 then []
    else
      var offered := Offered(content, stops, sends, k - 1);
      Taken(content, stops, sends, k - 1) + offered[..Took(|offered|, sends[k - 1])]
  }

  /** What one call takes follows what the socket has. */
  lemma OfferedFollows(content: seq<byte>, stops: Stops, sends: seq<int>, k: nat)
    requires |stops| == |content| + 1 && k < |sends|
    ensures
      var offered := Offered(content, stops, sends, k);
      content[..Sent(stops, sends, k)] + offered[..Took(|offered|, sends[k])] == content[..Sent(stops, sends, k + 1)]
  {
  }

  /** Together they take the content from its start on, no byte twice and none left out. */
  lemma {:induction false} TakenIsPrefix(content: seq<byte>, stops: Stops, sends: seq<int>, k: nat)
    requires |stops| == |content| + 1 && k <= |sends|
    ensures Taken(content, stops, sends, k) == content[..Sent(stops, sends, k)]
  {
    if k == 0 {
    } else {
      TakenIsPrefix(content, stops, sends, k - 1);
      OfferedFollows(content, stops, sends, k - 1);
      var offered := Offered(content, stops, sends, k - 1);
      assert Taken(content, stops, sends, k) ==
        Taken(content, stops, sends, k - 1) + offered[..Took(|offered|, sends[k - 1])];
    }
  }

  // ----- The loops --------------------------------------------------------------------------------

  /** Every send takes something, from the given one on. */
  ghost predicate AllAccept(sends: seq<int>, from: nat) {
    forall i :: from <= i < |sends| ==> 1 <= sends[i]
  }

  /** No send fails in the given range. */
  ghost predicate NoFailure(sends: seq<int>, from: nat, to: nat) {
    forall k :: from <= k < to && k < |sends| ==> 0 <= sends[k]
  }

  /** The inner loop: one line in pieces. It is over when all is sent, a send fails, or one still waits. */
  method SendLine(line: seq<byte>, sends: seq<int>, from: nat, ghost stops: Stops, ghost at: nat)
      returns (total: nat, used: nat, failed: bool)
    requires from <= |sends| && at == Sent(stops, sends, from)
    requires |line| == stops[at] - at
    ensures total <= |line| && from <= used <= |sends|
    ensures Sent(stops, sends, used) == at + total
    ensures failed ==> total < |line| && from < used && sends[used - 1] < 0 && NoFailure(sends, from, used - 1)
    ensures !failed ==> NoFailure(sends, from, used) && (total == |line| || used == |sends|)
    ensures AllAccept(sends, from) ==> !failed && used - from <= total
  {
    total, used, failed := 0, from, false;
    while total < |line|
      invariant total <= |line| && from <= used <= |sends|
      invariant Sent(stops, sends, used) == at + total
      invariant NoFailure(sends, from, used)
      invariant AllAccept(sends, from) ==> used - from <= total
      decreases |sends| - used
    {
      if used == |sends| {
        return;
      }
      SentInLine(stops, sends, used, at, total);
      var bytesWritten := Min(sends[used], |line| - total);
      used := used + 1;
      if bytesWritten < 0 {
        failed := true;
        return;
      }
      total := total + bytesWritten;
    }
  }

  /** The outer loop: line after line, until there is none left or one is not sent to its end. */
  method SendLines(content: seq<byte>, sends: seq<int>, ghost stops: Stops)
      returns (at: nat, outcome: Outcome, used: nat)
    requires |stops| == |content| + 1 && forall n :: 0 <= n <= |content| ==> stops[n] == LineStop(content, n)
    ensures at <= |content| && used <= |sends| && at == Sent(stops, sends, used)
    ensures outcome == Finished(true) <==> at == |content|
    ensures outcome == Finished(false) ==> 0 < used && sends[used - 1] < 0 && NoFailure(sends, 0, used - 1)
    ensures outcome != Finished(false) ==> NoFailure(sends, 0, used)
    ensures outcome == Waiting ==> used == |sends|
    ensures AllAccept(sends, 0) ==> outcome != Finished(false) && used <= at
  {
    at, used := 0, 0;
    while true
      invariant used <= |sends| && at <= |content| && at == Sent(stops, sends, used)
      invariant NoFailure(sends, 0, used)
      invariant AllAccept(sends, 0) ==> used <= at
      decreases |content| - at
    {
      var stop := LineStop(content, at);
      if stop == at {
        return at, Finished(true), used;
      }
      var line, total, failed := content[at..stop], 0, false;
      total, used, failed := SendLine(line, sends, used, stops, at);
      at := at + total;
      if failed {
        return at, Finished(false), used;
      }
      if total < |line| {
        return at, Waiting, used;
      }
    }
  }

  /**
   * content is what getline delivers until it returns -1; sends are the results of the send calls in
   * order: negative for a failure, otherwise the bytes taken, capped by what was offered. What has
   * been sent is what the calls made have taken: a prefix of the content, and all of it exactly when
   * true is returned.
   */
  method Writeback(content: seq<byte>, sends: seq<int>) returns (sent: seq<byte>, outcome: Outcome, used: nat)
    ensures sent <= content && used <= |sends|
    ensures sent == Taken(content, StopsOf(content), sends, used)
    ensures outcome == Finished(true) <==> sent == content
    ensures outcome == Finished(false) ==> 0 < used && sends[used - 1] < 0 && NoFailure(sends, 0, used - 1)
    ensures outcome != Finished(false) ==> NoFailure(sends, 0, used)
    ensures outcome == Waiting ==> used == |sends|
    ensures AllAccept(sends, 0) && |content| <= |sends| ==> outcome == Finished(true)
    ensures TakesAll(StopsOf(content), sends) && LineCount(StopsOf(content), 0) <= |sends| ==> outcome == Finished(true)
  {
    ghost var stops := StopsOf(content);
    var at;
    at, outcome, used := SendLines(content, sends, stops);
    sent := content[..at];
    TakenIsPrefix(content, stops, sends, used);
    if outcome != Finished(true) {
      Unfinished(stops, sends, used);
    }
  }
}
