/** The receive loop of service_thread: a growing heap string with hand-kept sizes. */
module Receive {
  import opened Common
  import opened Sequences

  const RECV_BUF_LEN: nat := 100

  /** AESDCHAR_IOCSEEKTO_CMD_STR, "AESDCHAR_IOCSEEKTO". */
  const COMMAND: seq<byte> := [65, 69, 83, 68, 67, 72, 65, 82, 95, 73, 79, 67, 83, 69, 69, 75, 84, 79]

  predicate CommandAt(text: seq<byte>, i: nat) {
    i + |COMMAND| <= |text| && text[i..i + |COMMAND|] == COMMAND
  }

  /** strstr finds the command. */
  predicate HasCommand(text: seq<byte>) {
    exists i | 0 <= i <= |text| :: CommandAt(text, i)
  }

  /** More text does not hide a command. */
  lemma CommandStays(text: seq<byte>, more: seq<byte>)
    requires HasCommand(text)
    ensures HasCommand(text + more)
  {
    var i :| 0 <= i <= |text| && CommandAt(text, i);
    assert (text + more)[i..i + |COMMAND|] == text[i..i + |COMMAND|];
    assert CommandAt(text + more, i);
  }

  /** What a connection asks of the device once a chunk with a newline has come. */
  datatype Request = Packet(text: seq<byte>) | SeekTo(cmd: nat, off: nat)

  /** All text so far is written unless it contains the command; then the pair sscanf reads is sought. */
  function RequestOf(text: seq<byte>, sought: (nat, nat)): Request {
    if HasCommand(text) then SeekTo(sought.0, sought.1) else Packet(text)
  }

  /** The C string at the start of s: its bytes up to the first NUL. */
  function CStr(s: seq<byte>): (c: seq<byte>)
    ensures |c| <= |s|
    ensures NUL !in c
  {
    if s == [] || s[0] == NUL then [] else [s[0]] + CStr(s[1..])
  }

  /** A string with its terminator is the string, whatever follows. */
  lemma {:induction false} CStrTerminated(s: seq<byte>, rest: seq<byte>)
    ensures CStr(s + [NUL] + rest) == CStr(s)
  {
    var t := s + [NUL] + rest;
    if s == [] {
    } else {
      assert t[1..] == s[1..] + [NUL] + rest;
      CStrTerminated(s[1..], rest);
    }
  }

  lemma {:induction false} CStrWhole(s: seq<byte>)
    ensures CStr(s) == s <==> NUL !in s
    ensures |CStr(s)| == |s| <==> NUL !in s
  {
    if s == [] {
    } else {
      CStrWhole(s[1..]);
    }
  }

  /** A terminated array holds its string, its terminator and more. */
  lemma {:induction false} CStrSplit(s: seq<byte>)
    requires NUL in s
    ensures |CStr(s)| < |s| && s[|CStr(s)|] == NUL && s[..|CStr(s)|] == CStr(s)
  {
    if s[0] == NUL {
    } else {
      CStrSplit(s[1..]);
      assert s[..|CStr(s)|] == [s[0]] + s[1..][..|CStr(s)| - 1];
    }
  }

  /** The text received in the first k chunks: of each, what lies before its first NUL. */
  function Text(chunks: seq<seq<byte>>, k: nat): seq<byte>
    requires k <= |chunks|
  {
    if k == 0 then [] else Text(chunks, k - 1) + CStr(chunks[k - 1])
  }

  /** The bytes received in the first k chunks. */
  function Received(chunks: seq<seq<byte>>, k: nat): nat
    requires k <= |chunks|
  {
    if k == 0 then 0 else Received(chunks, k - 1) + |chunks[k - 1]|
  }

  /** One request for each of the first k chunks with a newline; sought[i] is what sscanf reads after chunk i. */
  function Requests(chunks: seq<seq<byte>>, k: nat, sought: seq<(nat, nat)>): seq<Request>
    requires |chunks| <= |sought|
    requires k <= |chunks|
  {
    if k == 0 then []
    else
      var before := Requests(chunks, k - 1, sought);
      if NL in CStr(chunks[k - 1]) then before + [RequestOf(Text(chunks, k), sought[k - 1])] else before
  }

  /** How many of the first k chunks have a newline. */
  function Newlines(chunks: seq<seq<byte>>, k: nat): (n: nat)
    requires k <= |chunks|
    ensures n <= k
  {
    if k == 0 then 0 else Newlines(chunks, k - 1) + (if NL in CStr(chunks[k - 1]) then 1 else 0)
  }

  /** There are as many requests as newline chunks; that of chunk k is its text so far, or the pair read with it. */
  lemma {:induction false} RequestOfChunk(chunks: seq<seq<byte>>, n: nat, k: nat, sought: seq<(nat, nat)>)
    requires |chunks| <= |sought|
    requires k < n <= |chunks| && NL in CStr(chunks[k])
    ensures |Requests(chunks, n, sought)| == Newlines(chunks, n) > Newlines(chunks, k)
    ensures
      var req := Requests(chunks, n, sought)[Newlines(chunks, k)];
      if HasCommand(Text(chunks, k + 1)) then req.SeekTo? && req.cmd == sought[k].0 && req.off == sought[k].1
      else req.Packet? && req.text == Text(chunks, k + 1)
    decreases n
  {
    RequestCount(chunks, n - 1, sought);
    if k == n - 1 {
    } else {
      RequestOfChunk(chunks, n - 1, k, sought);
    }
  }

  lemma {:induction false} RequestCount(chunks: seq<seq<byte>>, n: nat, sought: seq<(nat, nat)>)
    requires |chunks| <= |sought|
    requires n <= |chunks|
    ensures |Requests(chunks, n, sought)| == Newlines(chunks, n)
  {
    if n == 0 {
    } else {
      RequestCount(chunks, n - 1, sought);
    }
  }

  /** A further chunk does not change the requests before it. */
  lemma {:induction false} RequestsStay(chunks: seq<seq<byte>>, c: seq<byte>, k: nat,
                                        sought: seq<(nat, nat)>, p: (nat, nat))
    requires |chunks| == |sought| && k <= |chunks|
    ensures Text(chunks + [c], k) == Text(chunks, k)
    ensures Requests(chunks + [c], k, sought + [p]) == Requests(chunks, k, sought)
  {
    if k == 0 {
    } else {
      RequestsStay(chunks, c, k - 1, sought, p);
    }
  }

  /** The texts among some requests: what they write to the device. */
  function Packets(rs: seq<Request>): seq<seq<byte>> {
    if rs == [] then []
    else
      var init, r := rs[..|rs| - 1], rs[|rs| - 1];
      if r.Packet? then Packets(init) + [r.text] else Packets(init)
  }

  lemma PacketsSnoc(rs: seq<Request>, r: Request)
    ensures Packets(rs + [r]) == if r.Packet? then Packets(rs) + [r.text] else Packets(rs)
  {
    assert (rs + [r])[..|rs|] == rs;
  }

  /** The text is every received byte exactly when no chunk contains a NUL; otherwise it is shorter. */
  lemma {:induction false} TextIsComplete(chunks: seq<seq<byte>>, k: nat)
    requires k <= |chunks|
    ensures |Text(chunks, k)| <= Received(chunks, k)
    ensures |Text(chunks, k)| == Received(chunks, k) <==> forall i :: 0 <= i < k ==> NUL !in chunks[i]
    ensures (forall i :: 0 <= i < k ==> NUL !in chunks[i]) ==> Text(chunks, k) == Flatten(chunks[..k])
  {
    if k == 0 {
    } else {
      TextIsComplete(chunks, k - 1);
      CStrWhole(chunks[k - 1]);
      assert chunks[..k] == chunks[..k - 1] + [chunks[k - 1]];
      FlattenSnoc(chunks[..k - 1], chunks[k - 1]);
    }
  }

  // ----- What a connection writes -------------------------------------------------------------

  /** Chunk k has a newline, and there has been no command up to it. */
  ghost predicate Writes(chunks: seq<seq<byte>>, k: nat) {
    k < |chunks| && NL in CStr(chunks[k]) && !HasCommand(Text(chunks, k + 1))
  }

  /** What is written over the first k chunks. */
  ghost function Written(chunks: seq<seq<byte>>, k: nat, sought: seq<(nat, nat)>): seq<seq<byte>>
    requires |chunks| <= |sought|
    requires k <= |chunks|
  {
    Packets(Requests(chunks, k, sought))
  }

  lemma WrittenStep(chunks: seq<seq<byte>>, k: nat, sought: seq<(nat, nat)>)
    requires |chunks| <= |sought|
    requires k < |chunks|
    ensures
      var before, after := Written(chunks, k, sought), Written(chunks, k + 1, sought);
      if Writes(chunks, k) then after == before + [Text(chunks, k + 1)] else after == before
  {
    var rs := Requests(chunks, k, sought);
    if NL in CStr(chunks[k]) {
      PacketsSnoc(rs, RequestOf(Text(chunks, k + 1), sought[k]));
    }
  }

  lemma {:induction false} TextGrows(chunks: seq<seq<byte>>, k: nat, j: nat)
    requires k <= j <= |chunks|
    ensures Text(chunks, k) <= Text(chunks, j)
  {
    if k == j {
    } else {
      TextGrows(chunks, k, j - 1);
    }
  }

  /** After the first command a connection writes nothing any more, whatever it sends. */
  lemma NothingAfterCommand(chunks: seq<seq<byte>>, k: nat, j: nat)
    requires k <= j < |chunks| && HasCommand(Text(chunks, k))
    ensures !Writes(chunks, j)
  {
    TextGrows(chunks, k, j + 1);
    var before, after := Text(chunks, k), Text(chunks, j + 1);
    PrefixAndRest(before, after);
    CommandStays(before, after[|before|..]);
  }

  ghost predicate IsPacket(text: seq<byte>) {
    NL in text && !HasCommand(text)
  }

  /** Each is a packet that grows out of the ones before it, and text out of them all. */
  ghost predicate GrowingPackets(ws: seq<seq<byte>>, text: seq<byte>) {
    && (forall i :: 0 <= i < |ws| ==> IsPacket(ws[i]) && ws[i] <= text)
    && (forall i, j :: 0 <= i < j < |ws| ==> ws[i] <= ws[j])
  }

  lemma WriterHasPacket(chunks: seq<seq<byte>>, k: nat)
    requires k < |chunks|
    ensures Text(chunks, k + 1) == Text(chunks, k) + CStr(chunks[k])
    ensures Writes(chunks, k) ==> IsPacket(Text(chunks, k + 1))
  {
  }

  /** Those of the first k pieces that are switched on. */
  ghost function Selected(pieces: seq<seq<byte>>, on: seq<bool>, k: nat): seq<seq<byte>>
    requires k <= |pieces| == |on|
  {
    if k == 0 then []
    else if on[k - 1] then Selected(pieces, on, k - 1) + [pieces[k - 1]]
    else Selected(pieces, on, k - 1)
  }

  lemma {:induction false} NoneSelected(pieces: seq<seq<byte>>, on: seq<bool>, k: nat)
    requires k <= |pieces| == |on| && forall i :: 0 <= i < k && on[i] ==> pieces[i] != []
    ensures Flatten(Selected(pieces, on, k)) == [] <==> forall i :: 0 <= i < k ==> !on[i]
  {
    if k == 0 {
    } else {
      NoneSelected(pieces, on, k - 1);
      FlattenSnoc(Selected(pieces, on, k - 1), pieces[k - 1]);
    }
  }

  lemma {:induction false} OneSelected(pieces: seq<seq<byte>>, on: seq<bool>, n: nat, k: nat)
    requires k < n <= |pieces| == |on| && forall i :: 0 <= i < n && on[i] ==> pieces[i] != []
    requires on[k] && forall i :: k < i < n ==> !on[i]
    ensures Flatten(Selected(pieces, on, n)) == pieces[k] <==> forall i :: 0 <= i < k ==> !on[i]
    decreases n
  {
    if k == n - 1 {
      NoneSelected(pieces, on, k);
      FlattenSnoc(Selected(pieces, on, k), pieces[k]);
    } else {
      OneSelected(pieces, on, n - 1, k);
    }
  }

  lemma GrowSnoc(ws: seq<seq<byte>>, w: seq<byte>, text: seq<byte>)
    requires GrowingPackets(ws, text) && GrowingPackets(ws, w)
    requires IsPacket(w) && w <= text
    ensures GrowingPackets(ws + [w], text)
  {
  }

  lemma {:induction false} SelectedGrow(pieces: seq<seq<byte>>, on: seq<bool>, k: nat, text: seq<byte>)
    requires k <= |pieces| == |on| && forall i :: 0 <= i < k && on[i] ==> IsPacket(pieces[i])
    requires forall i :: 0 <= i < k ==> pieces[i] <= text
    requires forall i, j :: 0 <= i < j < |pieces| ==> pieces[i] <= pieces[j]
    ensures GrowingPackets(Selected(pieces, on, k), text)
  {
    if k == 0 {
    } else {
      SelectedGrow(pieces, on, k - 1, text);
      if on[k - 1] {
        SelectedGrow(pieces, on, k - 1, pieces[k - 1]);
        GrowSnoc(Selected(pieces, on, k - 1), pieces[k - 1], text);
      }
    }
  }

  ghost function Texts(chunks: seq<seq<byte>>): (ts: seq<seq<byte>>)
    ensures |ts| == |chunks| && forall i {:trigger ts[i]} :: 0 <= i < |ts| ==> ts[i] == Text(chunks, i + 1)
  {
    seq(|chunks|, i requires 0 <= i < |chunks| => Text(chunks, i + 1))
  }

  ghost function Writers(chunks: seq<seq<byte>>): (on: seq<bool>)
    ensures |on| == |chunks| && forall i :: 0 <= i < |on| ==> on[i] == Writes(chunks, i)
  {
    seq(|chunks|, i requires 0 <= i < |chunks| => Writes(chunks, i))
  }

  lemma {:induction false} WrittenAreSelected(chunks: seq<seq<byte>>, k: nat, sought: seq<(nat, nat)>)
    requires |chunks| <= |sought|
    requires k <= |chunks|
    ensures Written(chunks, k, sought) == Selected(Texts(chunks), Writers(chunks), k)
  {
    if k == 0 {
    } else {
      WrittenAreSelected(chunks, k - 1, sought);
      SelectNext(chunks, k - 1, sought);
    }
  }

  lemma SelectNext(chunks: seq<seq<byte>>, k: nat, sought: seq<(nat, nat)>)
    requires |chunks| <= |sought|
    requires k < |chunks|
    requires Written(chunks, k, sought) == Selected(Texts(chunks), Writers(chunks), k)
    ensures Written(chunks, k + 1, sought) == Selected(Texts(chunks), Writers(chunks), k + 1)
  {
    var on := Writers(chunks);
    WrittenStep(chunks, k, sought);
    if on[k] {
      assert Texts(chunks)[k] == Text(chunks, k + 1);
    }
  }

  lemma TextsGrow(chunks: seq<seq<byte>>, n: nat)
    requires n <= |chunks|
    ensures forall i :: 0 <= i < n ==> Texts(chunks)[i] <= Text(chunks, n)
    ensures forall i, j :: 0 <= i < j < |chunks| ==> Texts(chunks)[i] <= Texts(chunks)[j]
  {
    forall i, j | 0 <= i <= j < |chunks|
      ensures Texts(chunks)[i] <= Texts(chunks)[j]
    {
      TextGrows(chunks, i + 1, j + 1);
    }
    forall i | 0 <= i < n
      ensures Texts(chunks)[i] <= Text(chunks, n)
    {
      TextGrows(chunks, i + 1, n);
    }
  }

  lemma WritersArePackets(chunks: seq<seq<byte>>)
    ensures forall i :: 0 <= i < |chunks| && Writers(chunks)[i] ==> IsPacket(Texts(chunks)[i])
  {
    forall i | 0 <= i < |chunks| && Writers(chunks)[i]
      ensures IsPacket(Texts(chunks)[i])
    {
      WriterHasPacket(chunks, i);
    }
  }

  /** Every text written is a packet: it has a newline and no command, and grows out of the one before it. */
  lemma WrittenArePackets(chunks: seq<seq<byte>>, n: nat, sought: seq<(nat, nat)>)
    requires |chunks| <= |sought|
    requires n <= |chunks|
    ensures GrowingPackets(Written(chunks, n, sought), Text(chunks, n))
  {
    TextsGrow(chunks, n);
    WritersArePackets(chunks);
    WrittenAreSelected(chunks, n, sought);
    SelectedGrow(Texts(chunks), Writers(chunks), n, Text(chunks, n));
  }

  /**
   * What a connection writes is its text, once, exactly when a single chunk has a newline and no
   * command up to it. A further such chunk before the last one, k, has the same text written twice.
   * With no such chunk nothing is written.
   */
  lemma WrittenOnceIffOneWriter(chunks: seq<seq<byte>>, n: nat, k: nat, sought: seq<(nat, nat)>)
    requires |chunks| <= |sought|
    requires k < n <= |chunks|
    requires Writes(chunks, k) && forall j :: k < j < n ==> !Writes(chunks, j)
    ensures
      Flatten(Written(chunks, n, sought)) == Text(chunks, k + 1)
      <==> forall j :: 0 <= j < k ==> !Writes(chunks, j)
  {
    WritersArePackets(chunks);
    WrittenAreSelected(chunks, n, sought);
    OneSelected(Texts(chunks), Writers(chunks), n, k);
  }

  lemma NothingWrittenIffNoWriter(chunks: seq<seq<byte>>, n: nat, sought: seq<(nat, nat)>)
    requires |chunks| <= |sought|
    requires n <= |chunks|
    ensures Flatten(Written(chunks, n, sought)) == [] <==> forall j :: 0 <= j < n ==> !Writes(chunks, j)
  {
    WritersArePackets(chunks);
    WrittenAreSelected(chunks, n, sought);
    NoneSelected(Texts(chunks), Writers(chunks), n);
  }

  // ----- The loop -----------------------------------------------------------------------------

  /** strcpy: dst has room for src's string and its terminator. */
  method Strcpy(dst: array<byte>, src: array<byte>)
    requires dst != src
    requires NUL in src[..] && |CStr(src[..])| + 1 <= dst.Length
    modifies dst
    ensures NUL in dst[..] && CStr(dst[..]) == CStr(src[..])
  {
    CopyString(dst, 0, src);
    assert [] + CStr(src[..]) == CStr(src[..]);
  }

  /** strcat: dst has room for both strings and one terminator. */
  method Strcat(dst: array<byte>, src: array<byte>)
    requires dst != src
    requires NUL in dst[..] && NUL in src[..]
    requires |CStr(dst[..])| + |CStr(src[..])| + 1 <= dst.Length
    modifies dst
    ensures NUL in dst[..] && CStr(dst[..]) == old(CStr(dst[..])) + CStr(src[..])
  {
    CStrSplit(dst[..]);
    CopyString(dst, |CStr(dst[..])|, src);
  }

  /** Copies src's string and terminator to dst from position at on. */
  method CopyString(dst: array<byte>, at: nat, src: array<byte>)
    requires dst != src && NUL in src[..]
    requires at + |CStr(src[..])| + 1 <= dst.Length
    requires NUL !in dst[..at]
    modifies dst
    ensures NUL in dst[..] && CStr(dst[..]) == old(dst[..at]) + CStr(src[..])
  {
    ghost var head, s := dst[..at], CStr(src[..]);
    CStrSplit(src[..]);
    var n := |CStr(src[..])|;
    forall i | 0 <= i <= n {
      dst[at + i] := src[i];
    }
    assert src[..] == old(src[..]) && dst[at + n] == src[n];
    forall k | 0 <= k < n
      ensures dst[at + k] == s[k]
    {
      assert s[k] == src[..][..n][k] == src[k];
    }
    assert dst[..at] == head && dst[at..at + n] == s;
    assert dst[..] == (head + s) + [NUL] + dst[at + n + 1..];
    CStrTerminated(head + s, dst[at + n + 1..]);
    CStrWhole(head + s);
  }

  /** realloc to a larger size; the old block's bytes are kept. */
  method Realloc(p: array<byte>, n: nat) returns (q: array<byte>)
    requires p.Length <= n
    ensures fresh(q) && q.Length == n && q[..p.Length] == p[..]
  {
    q := new byte[n](_ => NUL);
    forall i | 0 <= i < p.Length {
      q[i] := p[i];
    }
  }

  /** recv into the stack buffer, terminated behind the received bytes; older bytes may follow. */
  method RecvInto(pBuffer: array<byte>, bytes: seq<byte>)
    requires |bytes| < pBuffer.Length
    modifies pBuffer
    ensures NUL in pBuffer[..] && CStr(pBuffer[..]) == CStr(bytes)
  {
    var n := |bytes|;
    forall i | 0 <= i < n {
      pBuffer[i] := bytes[i];
    }
    pBuffer[n] := NUL;
    assert pBuffer[..n] == bytes;
    assert pBuffer[..] == bytes + [NUL] + pBuffer[n + 1..];
    CStrTerminated(bytes, pBuffer[n + 1..]);
  }

  /** The heap buffer after k chunks: its size as counted, and their text with room for its terminator. */
  ghost predicate Holds(buf: array<byte>, size: nat, chunks: seq<seq<byte>>, k: nat)
    requires k <= |chunks|
    reads buf
  {
    && buf.Length == size == Received(chunks, k) + k
    && (0 < k ==> NUL in buf[..] && CStr(buf[..]) == Text(chunks, k) && |Text(chunks, k)| + 1 <= size)
  }

  /** A block that starts as a terminated string did is that string. */
  lemma SameString(before: seq<byte>, after: seq<byte>)
    requires NUL in before && before <= after
    ensures NUL in after && CStr(after) == CStr(before)
  {
    CStrSplit(before);
    var k := |CStr(before)|;
    assert after == before[..k] + [NUL] + after[k + 1..];
    CStrTerminated(before[..k], after[k + 1..]);
    CStrWhole(before[..k]);
  }

  /** Growing the heap string by chunk k: realloc, then strcpy for the first one and strcat for later ones. */
  method Grow(buf: array<byte>, newSize: nat, pBuffer: array<byte>, isFirst: bool,
              ghost size: nat, ghost chunks: seq<seq<byte>>, ghost k: nat)
      returns (grown: array<byte>)
    requires k < |chunks| && Holds(buf, size, chunks, k) && (isFirst <==> k == 0)
    requires NUL in pBuffer[..] && CStr(pBuffer[..]) == CStr(chunks[k])
    requires newSize == size + |chunks[k]| + 1
    ensures fresh(grown) && Holds(grown, newSize, chunks, k + 1)
  {
    TextIsComplete(chunks, k);
    ghost var before := buf[..];
    grown := Realloc(buf, newSize);
    if isFirst {
      Strcpy(grown, pBuffer);
    } else {
      SameString(before, grown[..]);
      Strcat(grown, pBuffer);
    }
  }

  /** One return of recv: some bytes, with what realloc does next, or the end of the connection. */
  datatype Recv = Chunk(bytes: seq<byte>, reallocOk: bool) | Closed | Failed

  /** The chunks a connection takes in before it ends. */
  function Accepted(script: seq<Recv>): seq<seq<byte>> {
    if script == [] || !script[0].Chunk? || !script[0].reallocOk then []
    else [script[0].bytes] + Accepted(script[1..])
  }

  /** They are the first returns of recv, up to one that is no chunk or finds no memory. */
  lemma {:induction false} AcceptedAre(script: seq<Recv>, i: nat)
    requires i <= |Accepted(script)|
    ensures i <= |script|
    ensures i < |Accepted(script)| ==>
      i < |script| && script[i].Chunk? && script[i].reallocOk && script[i].bytes == Accepted(script)[i]
    ensures i == |Accepted(script)| < |script| ==> !(script[i].Chunk? && script[i].reallocOk)
    decreases i
  {
    if i == 0 {
    } else {
      AcceptedAre(script[1..], i - 1);
    }
  }

  /** service_thread's loop; each newline makes a request of all text so far, as nothing is reset. */
  method ServiceThread(script: seq<Recv>, sought: seq<(nat, nat)>) returns (requests: seq<Request>)
    requires forall i :: 0 <= i < |script| && script[i].Chunk? ==> 1 <= |script[i].bytes| <= RECV_BUF_LEN - 1
    requires |script| <= |sought|
    ensures |Accepted(script)| <= |script|
    ensures requests == Requests(Accepted(script), |Accepted(script)|, sought)
  {
    ghost var chunks := Accepted(script);
    AcceptedAre(script, |chunks|);
    var pBuffer := new byte[RECV_BUF_LEN](_ => NUL);
    var mallocBufSize: nat, byteStringLen: nat := 0, 0;
    var pMallocBuf := new byte[0];
    requests := [];
    var i := 0;
    AcceptedAre(script, 0);
    while i < |script|
      invariant i <= |chunks| && i <= |script|
      invariant fresh(pBuffer) && fresh(pMallocBuf) && pBuffer != pMallocBuf && pBuffer.Length == RECV_BUF_LEN
      invariant Holds(pMallocBuf, mallocBufSize, chunks, i)
      invariant byteStringLen == Received(chunks, i)
      invariant requests == Requests(chunks, i, sought)
    {
      AcceptedAre(script, i);
      if !script[i].Chunk? {
        break;
      }
      var bytes := script[i].bytes;
      RecvInto(pBuffer, bytes);
      var containsNewline := NL in CStr(pBuffer[..]);
      var isFirst := mallocBufSize == 0;
      byteStringLen := byteStringLen + |bytes|;
      ghost var size := mallocBufSize;
      mallocBufSize := mallocBufSize + |bytes| + 1;
      if !script[i].reallocOk {
        break;
      }
      pMallocBuf := Grow(pMallocBuf, mallocBufSize, pBuffer, isFirst, size, chunks, i);
      if containsNewline {
        var text := CStr(pMallocBuf[..]);
        if !HasCommand(text) {
          requests := requests + [Packet(text)];
        } else {
          requests := requests + [SeekTo(sought[i].0, sought[i].1)];
        }
      }
      i := i + 1;
    }
    AcceptedAre(script, i);
  }
}
