/** The singly linked list of client threads in main: insertion, reaping and the final drain. */
module ThreadList {
  import opened Sequences

  type Tid = nat

  class Node {
    const tid: Tid
    var next: Node?

    constructor (tid: Tid, next: Node?)
      ensures this.tid == tid && this.next == next
    {
      this.tid, this.next := tid, next;
    }
  }

  function Tids(ns: seq<Node>): (ts: seq<Tid>)
    ensures |ts| == |ns|
    ensures forall i :: 0 <= i < |ns| ==> ts[i] == ns[i].tid
  {
    seq(|ns|, i requires 0 <= i < |ns| => ns[i].tid)
  }

  /** s without its j-th element. */
  ghost function Without<T>(s: seq<T>, j: nat): (r: seq<T>)
    requires j < |s|
    ensures |r| == |s| - 1
    ensures forall i :: 0 <= i < |r| ==> r[i] == if i < j then s[i] else s[i + 1]
    ensures NoDuplicates(s) ==> NoDuplicates(r)
    ensures forall x :: x in s ==> x in r || x == s[j]
  {
    s[..j] + s[j + 1..]
  }

  /** Of the first k nodes, those whose thread a pass has not seen complete, in order, and those it has. */
  ghost function Kept(ns: seq<Node>, complete: set<Tid>, k: nat): seq<Node>
    requires k <= |ns|
  {
    if k == 0 then []
    else if ns[k - 1].tid in complete then Kept(ns, complete, k - 1)
    else Kept(ns, complete, k - 1) + [ns[k - 1]]
  }

  ghost function Reaped(ns: seq<Node>, complete: set<Tid>, k: nat): seq<Node>
    requires k <= |ns|
  {
    if k == 0 then []
    else if ns[k - 1].tid in complete then Reaped(ns, complete, k - 1) + [ns[k - 1]]
    else Reaped(ns, complete, k - 1)
  }

  /** The list when a pass has visited k of its nodes. */
  ghost function ListAfter(ns: seq<Node>, complete: set<Tid>, k: nat): seq<Node>
    requires k <= |ns|
  {
    Kept(ns, complete, k) + ns[k..]
  }

  /** The next visit takes the node out or leaves it and goes on. */
  lemma PassStep(ns: seq<Node>, complete: set<Tid>, k: nat)
    requires k < |ns|
    ensures
      var j, now, later := |Kept(ns, complete, k)|, ListAfter(ns, complete, k), ListAfter(ns, complete, k + 1);
      && j < |now| && now[j] == ns[k]
      && later == (if ns[k].tid in complete then Without(now, j) else now)
      && |Kept(ns, complete, k + 1)| == (if ns[k].tid in complete then j else j + 1)
  {
    TakeOut(Kept(ns, complete, k), ns[k], ns[k + 1..]);
    assert ns[k..] == [ns[k]] + ns[k + 1..];
  }

  lemma TakeOut<T>(a: seq<T>, x: T, b: seq<T>)
    ensures (a + ([x] + b))[|a|] == x
    ensures Without(a + ([x] + b), |a|) == a + b
    ensures a + ([x] + b) == (a + [x]) + b
  {
  }

  lemma PassEnd(ns: seq<Node>, complete: set<Tid>, k: nat)
    requires k <= |ns| && |ListAfter(ns, complete, k)| <= |Kept(ns, complete, k)|
    ensures k == |ns| && ListAfter(ns, complete, k) == Kept(ns, complete, |ns|)
  {
  }

  lemma {:induction false} PassTakes(ns: seq<Node>, complete: set<Tid>, k: nat, i: nat)
    requires i < k <= |ns|
    ensures if ns[i].tid in complete then ns[i] in Reaped(ns, complete, k) else ns[i] in Kept(ns, complete, k)
  {
    if i == k - 1 {
    } else {
      PassTakes(ns, complete, k - 1, i);
    }
  }

  lemma {:induction false} PassTakesNoOther(ns: seq<Node>, complete: set<Tid>, k: nat)
    requires k <= |ns|
    ensures |Kept(ns, complete, k)| + |Reaped(ns, complete, k)| == k
    ensures forall n :: n in Kept(ns, complete, k) ==> n in ns && n.tid !in complete
    ensures forall n :: n in Reaped(ns, complete, k) ==> n in ns && n.tid in complete
  {
    if k == 0 {
    } else {
      PassTakesNoOther(ns, complete, k - 1);
    }
  }

  /** Each of the first k nodes is reaped if its thread is seen complete and kept if not, and nothing else is either. */
  lemma PassSorts(ns: seq<Node>, complete: set<Tid>, k: nat)
    requires k <= |ns|
    ensures |Kept(ns, complete, k)| + |Reaped(ns, complete, k)| == k
    ensures forall i :: 0 <= i < k ==>
      if ns[i].tid in complete then ns[i] in Reaped(ns, complete, k) else ns[i] in Kept(ns, complete, k)
    ensures forall n :: n in Kept(ns, complete, k) ==> n in ns && n.tid !in complete
    ensures forall n :: n in Reaped(ns, complete, k) ==> n in ns && n.tid in complete
  {
    PassTakesNoOther(ns, complete, k);
    forall i | 0 <= i < k
      ensures if ns[i].tid in complete then ns[i] in Reaped(ns, complete, k) else ns[i] in Kept(ns, complete, k)
    {
      PassTakes(ns, complete, k, i);
    }
  }

  lemma {:induction false} SomeReaped(ns: seq<Node>, complete: set<Tid>, k: nat)
    requires k <= |ns|
    ensures Reaped(ns, complete, k) != [] <==> exists i :: 0 <= i < k && ns[i].tid in complete
  {
    if k == 0 {
    } else {
      SomeReaped(ns, complete, k - 1);
    }
  }

  lemma TidsConcat(a: seq<Node>, b: seq<Node>)
    ensures Tids(a + b) == Tids(a) + Tids(b)
  {
  }

  lemma TidsCons(n: Node, ns: seq<Node>)
    ensures Tids([n] + ns) == [n.tid] + Tids(ns)
  {
  }

  lemma TidsSnoc(ns: seq<Node>, n: Node)
    ensures Tids(ns + [n]) == Tids(ns) + [n.tid]
  {
  }

  lemma DrainStep(ns: seq<Node>, freed: seq<Node>, k: nat)
    requires k < |ns|
    ensures Without(ns[k..], 0) == ns[k + 1..]
    ensures (freed + ns[..k]) + [ns[k]] == freed + ns[..k + 1]
  {
  }

  /** Every node inserted is on the list or freed, not both and just once. */
  ghost predicate Partition(inserted: set<Node>, nodes: seq<Node>, freed: seq<Node>) {
    && (forall j :: 0 <= j < |freed| ==> freed[j] in inserted)
    && NoDuplicates(freed)
    && (forall i, j :: 0 <= i < |nodes| && 0 <= j < |freed| ==> nodes[i] != freed[j])
    && (forall n :: n in inserted ==> n in nodes || n in freed)
  }

  lemma MoveToFreed(inserted: set<Node>, nodes: seq<Node>, freed: seq<Node>, j: nat)
    requires Partition(inserted, nodes, freed) && NoDuplicates(nodes)
    requires j < |nodes| && nodes[j] in inserted
    ensures Partition(inserted, Without(nodes, j), freed + [nodes[j]])
  {
    forall n | n in inserted
      ensures n in Without(nodes, j) || n in freed + [nodes[j]]
    {
    }
  }

  class List {
    var head: Node?

    /** The nodes in list order, the threads joined, and the nodes freed, each in order. */
    ghost var nodes: seq<Node>
    var joined: seq<Tid>
    ghost var freed: seq<Node>

    /** Every node ever inserted. */
    ghost var repr: set<Node>

    /** head and the next pointers run through the nodes in order. */
    ghost predicate Linked()
      reads this, repr
    {
      && head == NodeAt(0)
      && (forall i :: 0 <= i < |nodes| ==> nodes[i] in repr)
      && (forall i {:trigger nodes[i].next} :: 0 <= i < |nodes| ==> nodes[i].next == NodeAt(i + 1))
      && NoDuplicates(nodes)
    }

    /** Besides, the threads joined are those of the freed nodes. */
    ghost predicate Valid()
      reads this, repr
    {
      && Linked()
      && Partition(repr, nodes, freed)
      && joined == Tids(freed)
    }

    ghost function NodeAt(i: nat): Node?
      reads this
    {
      if i < |nodes| then nodes[i] else null
    }

    /** SLIST_INIT. */
    constructor ()
      ensures Valid() && nodes == [] && joined == [] && freed == [] && repr == {}
    {
      head, nodes, joined, freed, repr := null, [], [], [], {};
    }

    /** SLIST_INSERT_HEAD of a new thread's node. */
    method InsertHead(tid: Tid)
      requires Valid()
      modifies this
      ensures Valid()
      ensures |nodes| == |old(nodes)| + 1 && nodes == [nodes[0]] + old(nodes)
      ensures fresh(nodes[0]) && nodes[0].tid == tid && repr == old(repr) + {nodes[0]}
      ensures joined == old(joined) && freed == old(freed)
    {
      var n := new Node(tid, head);
      head := n;
      nodes, repr := [n] + nodes, repr + {n};
    }

    /** SLIST_REMOVE of the j-th node: walk to its predecessor and unlink it. */
    method Remove(p: Node, ghost j: nat)
      requires Linked() && j < |nodes| && nodes[j] == p
      modifies this`head, this`nodes, repr
      ensures Linked()
      ensures nodes == Without(old(nodes), j)
    {
      if head == p {
        head := p.next;
      } else {
        var cur := head;
        ghost var i: nat := 0;
        while cur.next != p
          invariant i < j && cur == nodes[i]
          decreases j - i
        {
          cur := cur.next;
          i := i + 1;
        }
        cur.next := p.next;
      }
      nodes := Without(nodes, j);
    }

    /** pthread_join, SLIST_REMOVE and free of the j-th node. */
    method Reap(p: Node, ghost j: nat)
      requires Valid() && j < |nodes| && nodes[j] == p
      modifies this, repr
      ensures Valid() && repr == old(repr)
      ensures nodes == Without(old(nodes), j)
      ensures freed == old(freed) + [p]
    {
      MoveToFreed(repr, nodes, freed, j);
      TidsSnoc(freed, p);
      joined := joined + [p.tid];
      Remove(p, j);
      freed := freed + [p];
    }

    /** A pass over orig has visited k nodes and is at p. */
    ghost predicate Passing(orig: seq<Node>, freedBefore: seq<Node>, complete: set<Tid>, k: nat, p: Node?)
      reads this, repr
    {
      && Valid()
      && k <= |orig|
      && nodes == ListAfter(orig, complete, k)
      && freed == freedBefore + Reaped(orig, complete, k)
      && p == NodeAt(|Kept(orig, complete, k)|)
    }

    /**
     * The body of the reaping loop. The source takes the next pointer only after the visit; freedNode
     * tells whether the node has been freed by then.
     */
    method Visit(p: Node, complete: set<Tid>, ghost orig: seq<Node>, ghost freedBefore: seq<Node>, ghost k: nat)
        returns (next: Node?, ghost freedNode: bool)
      requires Passing(orig, freedBefore, complete, k, p)
      modifies this, repr
      ensures k < |orig| && Passing(orig, freedBefore, complete, k + 1, next)
      ensures repr == old(repr)
      ensures freedNode <==> p in freed
      ensures freedNode <==> orig[k].tid in complete
    {
      PassStep(orig, complete, k);
      next := p.next;
      freedNode := p.tid in complete;
      if p.tid in complete {
        Reap(p, |Kept(orig, complete, k)|);
        assert freed[|freed| - 1] == p;
      }
    }

    /**
     * One pass over the list: complete are the nodes whose thread is seen complete when the pass
     * gets to them. They are joined and freed in list order, and the others stay as they were.
     * readsFreed tells whether the source's pass takes a next pointer out of a freed node.
     */
    method ReapPass(complete: set<Tid>) returns (ghost readsFreed: bool)
      requires Valid()
      modifies this, repr
      ensures Valid() && repr == old(repr)
      ensures nodes == Kept(old(nodes), complete, |old(nodes)|)
      ensures freed == old(freed) + Reaped(old(nodes), complete, |old(nodes)|)
      ensures joined == old(joined) + Tids(Reaped(old(nodes), complete, |old(nodes)|))
      ensures readsFreed <==> exists i :: 0 <= i < |old(nodes)| && old(nodes)[i].tid in complete
    {
      ghost var orig, freedBefore, k: nat := nodes, freed, 0;
      readsFreed := false;
      var p := head;
      while p != null
        invariant repr == old(repr)
        invariant Passing(orig, freedBefore, complete, k, p)
        invariant readsFreed <==> Reaped(orig, complete, k) != []
        decreases |orig| - k
      {
        ghost var freedNode: bool;
        p, freedNode := Visit(p, complete, orig, freedBefore, k);
        readsFreed := readsFreed || freedNode;
        k := k + 1;
      }
      PassEnd(orig, complete, k);
      TidsConcat(freedBefore, Reaped(orig, complete, k));
      SomeReaped(orig, complete, k);
    }

    /** The final drain: every remaining thread is joined and its node freed, from the head on. */
    method Drain()
      requires Valid()
      modifies this, repr
      ensures Valid() && repr == old(repr)
      ensures nodes == [] && freed == old(freed) + old(nodes)
      ensures joined == old(joined) + Tids(old(nodes))
    {
      ghost var orig, freedBefore, k: nat := nodes, freed, 0;
      while head != null
        invariant Valid() && repr == old(repr)
        invariant k <= |orig| && nodes == orig[k..] && freed == freedBefore + orig[..k]
        decreases |orig| - k
      {
        ghost var p := head;
        Reap(head, 0);
        DrainStep(orig, freedBefore, k);
        k := k + 1;
      }
      assert orig[..k] == orig;
      TidsConcat(freedBefore, orig);
    }
  }

  /** One round of the accept loop: accept fails, or a client comes whose thread may or may not get started. */
  datatype Round = AcceptFails | Client(tid: Tid, mallocOk: bool, createOk: bool, complete: set<Tid>) {
    predicate Starts() {
      Client? && mallocOk && createOk
    }
  }

  /** The threads created over the first k rounds. */
  function Created(script: seq<Round>, k: nat): seq<Tid>
    requires k <= |script|
  {
    if k == 0 then []
    else if script[k - 1].Starts() then Created(script, k - 1) + [script[k - 1].tid]
    else Created(script, k - 1)
  }

  // ----- What becomes of the threads ------------------------------------------------------------

  /** Of the first k threads, those seen complete and those not, in order. */
  ghost function Finished(ts: seq<Tid>, complete: set<Tid>, k: nat): seq<Tid>
    requires k <= |ts|
  {
    if k == 0 then []
    else if ts[k - 1] in complete then Finished(ts, complete, k - 1) + [ts[k - 1]]
    else Finished(ts, complete, k - 1)
  }

  ghost function Unfinished(ts: seq<Tid>, complete: set<Tid>, k: nat): seq<Tid>
    requires k <= |ts|
  {
    if k == 0 then []
    else if ts[k - 1] in complete then Unfinished(ts, complete, k - 1)
    else Unfinished(ts, complete, k - 1) + [ts[k - 1]]
  }

  lemma {:induction false} PassOnTids(ns: seq<Node>, complete: set<Tid>, k: nat)
    requires k <= |ns|
    ensures Tids(Reaped(ns, complete, k)) == Finished(Tids(ns), complete, k)
    ensures Tids(Kept(ns, complete, k)) == Unfinished(Tids(ns), complete, k)
  {
    if k == 0 {
    } else {
      PassOnTids(ns, complete, k - 1);
      TidsSnoc(Reaped(ns, complete, k - 1), ns[k - 1]);
      TidsSnoc(Kept(ns, complete, k - 1), ns[k - 1]);
    }
  }

  lemma {:induction false} FinishedAre(ts: seq<Tid>, complete: set<Tid>, k: nat, t: Tid)
    requires k <= |ts|
    ensures t in Finished(ts, complete, k) <==> t in ts[..k] && t in complete
    ensures t in Unfinished(ts, complete, k) <==> t in ts[..k] && t !in complete
  {
    if k == 0 {
    } else {
      FinishedAre(ts, complete, k - 1, t);
      assert ts[..k] == ts[..k - 1] + [ts[k - 1]];
    }
  }

  /** The list that the pass of the k-th round finds: a thread started in that round comes first. */
  ghost function Found(script: seq<Round>, k: nat): seq<Tid>
    requires k < |script| && forall i :: 0 <= i <= k ==> script[i].Client?
    decreases k, 1
  {
    if script[k].mallocOk && script[k].createOk then [script[k].tid] + Left(script, k) else Left(script, k)
  }

  /** The list after the first k rounds. */
  ghost function Left(script: seq<Round>, k: nat): seq<Tid>
    requires k <= |script| && forall i :: 0 <= i < k ==> script[i].Client?
    decreases k, 0
  {
    if k == 0 then []
    else Unfinished(Found(script, k - 1), script[k - 1].complete, |Found(script, k - 1)|)
  }

  /** The threads joined over the first k rounds: of each round those its pass sees complete, in list order. */
  ghost function JoinedBy(script: seq<Round>, k: nat): seq<Tid>
    requires k <= |script| && forall i :: 0 <= i < k ==> script[i].Client?
  {
    if k == 0 then []
    else JoinedBy(script, k - 1) + Finished(Found(script, k - 1), script[k - 1].complete, |Found(script, k - 1)|)
  }

  /** A round that found the threads had, and joined those before it, leaves the threads now and has joined more. */
  ghost predicate RoundDone(r: Round, had: seq<Tid>, joined: seq<Tid>, now: seq<Tid>, more: seq<Tid>)
    requires r.Client?
  {
    var found := if r.mallocOk && r.createOk then [r.tid] + had else had;
    && now == Unfinished(found, r.complete, |found|)
    && more == joined + Finished(found, r.complete, |found|)
  }

  lemma OneRound(script: seq<Round>, k: nat, now: seq<Tid>, more: seq<Tid>)
    requires k < |script| && forall i :: 0 <= i <= k ==> script[i].Client?
    requires RoundDone(script[k], Left(script, k), JoinedBy(script, k), now, more)
    ensures now == Left(script, k + 1) && more == JoinedBy(script, k + 1)
  {
  }

  /** A thread on the list is joined and gone after the round that sees it complete, and stays until then. */
  lemma JoinedWhenComplete(script: seq<Round>, k: nat, t: Tid)
    requires k < |script| && forall i :: 0 <= i <= k ==> script[i].Client?
    requires t in Found(script, k)
    ensures t in script[k].complete ==> t in JoinedBy(script, k + 1) && t !in Left(script, k + 1)
    ensures t !in script[k].complete ==> t in Left(script, k + 1)
  {
    var found := Found(script, k);
    FinishedAre(found, script[k].complete, |found|, t);
    assert found[..|found|] == found;
  }

  /** No thread is joined before a round sees it complete. */
  lemma {:induction false} JoinedWereComplete(script: seq<Round>, k: nat, t: Tid)
    requires k <= |script| && forall i :: 0 <= i < k ==> script[i].Client?
    requires t in JoinedBy(script, k)
    ensures exists i :: 0 <= i < k && t in script[i].complete
  {
    if k == 0 {
    } else {
      var found := Found(script, k - 1);
      FinishedAre(found, script[k - 1].complete, |found|, t);
      if t !in script[k - 1].complete {
        JoinedWereComplete(script, k - 1, t);
      }
    }
  }

  // ----- The loop ---------------------------------------------------------------------------------

  ghost function Nodes(ns: seq<Node>): set<Node> {
    set n | n in ns
  }

  lemma NewNode(ns: seq<Node>, n: Node)
    requires NoDuplicates(ns) && n !in Nodes(ns)
    ensures NoDuplicates(ns + [n]) && Nodes(ns + [n]) == Nodes(ns) + {n}
  {
    assert forall i :: 0 <= i < |ns| ==> ns[i] in Nodes(ns);
  }

  /** Each node of one sequence is once in the other. */
  ghost predicate SameNodes(a: seq<Node>, b: seq<Node>) {
    NoDuplicates(a) && NoDuplicates(b) && (forall n :: n in a ==> n in b) && (forall n :: n in b ==> n in a)
  }

  lemma WithoutBeforeLast<T>(s: seq<T>, j: nat)
    requires j < |s| - 1
    ensures Without(s, j) == Without(s[..|s| - 1], j) + [s[|s| - 1]]
  {
  }

  lemma {:induction false} TidsWithout(ns: seq<Node>, j: nat)
    requires j < |ns|
    ensures multiset(Tids(ns)) == multiset(Tids(Without(ns, j))) + multiset{ns[j].tid}
  {
    var init, last := ns[..|ns| - 1], ns[|ns| - 1];
    assert Tids(ns) == Tids(init) + [last.tid];
    if j == |init| {
      assert Without(ns, j) == init;
    } else {
      TidsWithout(init, j);
      WithoutBeforeLast(ns, j);
      TidsSnoc(Without(init, j), last);
    }
  }

  lemma HasElement<T>(s: seq<T>)
    ensures s == [] || exists x :: x in s
  {
    if s != [] { assert s[0] in s; }
  }

  /** The same nodes in another order have the same threads, each as often. */
  lemma {:induction false} SameThreads(a: seq<Node>, b: seq<Node>)
    requires SameNodes(a, b)
    ensures multiset(Tids(a)) == multiset(Tids(b))
  {
    if a == [] {
      HasElement(b);
    } else {
      var init, last := a[..|a| - 1], a[|a| - 1];
      assert last in b;
      var j :| 0 <= j < |b| && b[j] == last;
      LeaveOut(a, b, j);
      TidsSnoc(init, last);
      assert init + [last] == a;
      SameThreads(init, Without(b, j));
      TidsWithout(b, j);
    }
  }

  lemma LeaveOut(a: seq<Node>, b: seq<Node>, j: nat)
    requires SameNodes(a, b) && a != [] && j < |b| && b[j] == a[|a| - 1]
    ensures SameNodes(a[..|a| - 1], Without(b, j))
  {
    var init, rest := a[..|a| - 1], Without(b, j);
    forall n | n in rest
      ensures n in init
    {
      var i :| 0 <= i < |rest| && rest[i] == n;
      assert n in b && n != b[j];
      var k :| 0 <= k < |a| && a[k] == n;
      assert init[k] == n;
    }
    forall n | n in init
      ensures n in rest
    {
      var k :| 0 <= k < |init| && init[k] == n;
      assert a[k] == n && n != b[j] && n in b;
    }
  }

  /** With the list empty, every node ever inserted has been freed once. */
  lemma DrainedIsFreed(list: List, created: seq<Node>)
    requires list.Valid() && list.nodes == []
    requires NoDuplicates(created) && list.repr == Nodes(created)
    ensures SameNodes(created, list.freed)
    ensures multiset(list.joined) == multiset(Tids(created))
  {
    forall n | n in created
      ensures n in list.freed
    {
      assert n in list.repr;
    }
    SameThreads(created, list.freed);
  }

  /** After k rounds: the nodes inserted are those of the created threads, and list and joins are as the rounds say. */
  ghost predicate Serving(list: List, script: seq<Round>, k: nat, created: seq<Node>)
    requires k <= |script| && forall i :: 0 <= i < k ==> script[i].Client?
    reads list, list.repr
  {
    && list.Valid()
    && NoDuplicates(created) && list.repr == Nodes(created)
    && Tids(created) == Created(script, k)
    && Tids(list.nodes) == Left(script, k) && list.joined == JoinedBy(script, k)
  }

  /** A node and a thread for a client, if both can be had. */
  method StartThread(list: List, r: Round, ghost before: seq<Node>) returns (ghost created: seq<Node>)
    requires r.Client? && list.Valid()
    requires NoDuplicates(before) && list.repr == Nodes(before)
    modifies list
    ensures list.Valid() && fresh(list.repr - old(list.repr)) && list.joined == old(list.joined)
    ensures NoDuplicates(created) && list.repr == Nodes(created)
    ensures Tids(created) == if r.Starts() then Tids(before) + [r.tid] else Tids(before)
    ensures Tids(list.nodes) == if r.Starts() then [r.tid] + old(Tids(list.nodes)) else old(Tids(list.nodes))
  {
    created := before;
    if r.mallocOk && r.createOk {
      ghost var had := list.nodes;
      list.InsertHead(r.tid);
      TidsCons(list.nodes[0], had);
      NewNode(before, list.nodes[0]);
      TidsSnoc(before, list.nodes[0]);
      created := before + [list.nodes[0]];
    }
  }

  /** The body of the accept loop for a client: a thread if it can be made, and a pass over the list. */
  method ServeClient(list: List, script: seq<Round>, ghost k: nat, r: Round, ghost before: seq<Node>)
      returns (ghost created: seq<Node>)
    requires k < |script| && script[k] == r && forall i :: 0 <= i <= k ==> script[i].Client?
    requires Serving(list, script, k, before)
    modifies list, list.repr
    ensures Serving(list, script, k + 1, created) && fresh(list.repr - old(list.repr))
    ensures RoundDone(r, old(Tids(list.nodes)), old(list.joined), Tids(list.nodes), list.joined)
    ensures forall n :: n in list.nodes ==> n.tid !in r.complete
  {
    created := StartThread(list, r, before);
    ghost var found := list.nodes;
    ghost var readsFreed := list.ReapPass(r.complete);
    PassOnTids(found, r.complete, |found|);
    PassSorts(found, r.complete, |found|);
    OneRound(script, k, Tids(list.nodes), list.joined);
  }

  /** The accept loop of main, up to the first accept that fails. */
  method AcceptClients(list: List, script: seq<Round>) returns (rounds: nat, ghost created: seq<Node>)
    requires list.Valid() && list.repr == {} && list.nodes == [] && list.joined == []
    modifies list
    ensures rounds <= |script| && (rounds < |script| ==> script[rounds].AcceptFails?)
    ensures forall k :: 0 <= k < rounds ==> script[k].Client?
    ensures Serving(list, script, rounds, created) && fresh(list.repr)
  {
    created := [];
    rounds := 0;
    while rounds < |script| && script[rounds].Client?
      invariant rounds <= |script| && forall k :: 0 <= k < rounds ==> script[k].Client?
      invariant Serving(list, script, rounds, created) && fresh(list.repr)
    {
      created := ServeClient(list, script, rounds, script[rounds], created);
      rounds := rounds + 1;
    }
  }

  /**
   * The accept loop and the drain after it. Every node of a created thread is freed once and no
   * other is, and each created thread is joined once and no other.
   */
  method Serve(script: seq<Round>) returns (list: List, rounds: nat, ghost created: seq<Node>)
    ensures rounds <= |script| && (rounds < |script| ==> script[rounds].AcceptFails?)
    ensures forall k :: 0 <= k < rounds ==> script[k].Client?
    ensures list.Valid() && list.nodes == []
    ensures Tids(created) == Created(script, rounds)
    ensures SameNodes(created, list.freed) && list.joined == Tids(list.freed)
    ensures multiset(list.joined) == multiset(Created(script, rounds))
    ensures list.joined == JoinedBy(script, rounds) + Left(script, rounds)
  {
    list := new List();
    rounds, created := AcceptClients(list, script);
    list.Drain();
    DrainedIsFreed(list, created);
  }
}
