/** The kernel allocator as far as the driver uses it: its own blocks, by address, and what it has freed. */
module KernelHeap {
  import opened Common
  import opened Sequences

  /** An address; 0 is NULL. No address is handed out twice. */
  type Ptr = nat
  const NULL: Ptr := 0

  /** What krealloc does with a request. */
  datatype Placement = Fails | InPlace | Moves

  datatype Heap = Heap(blocks: map<Ptr, seq<byte>>, freed: seq<Ptr>, next: Ptr) {

    ghost predicate Valid() {
      && NULL < next
      && (forall p :: p in blocks ==> NULL < p < next && p !in freed)
      && (forall p :: p in freed ==> NULL < p < next)
      && NoDuplicates(freed)
    }

    /** kfree; a block is freed only while it is allocated. */
    function Kfree(p: Ptr): (h: Heap)
      requires p == NULL || p in blocks
      ensures Valid() ==> h.Valid()
    {
      if p == NULL then this else Heap(blocks - {p}, freed + [p], next)
    }

    /** krealloc: the block's first bytes are kept, in place or in a new block. */
    function Krealloc(p: Ptr, n: nat, how: Placement): (r: (Heap, Ptr))
      requires p == NULL || p in blocks
      ensures Valid() ==> r.0.Valid()
    {
      if how.Fails? then (this, NULL)
      else
        var content := Resize(if p == NULL then [] else blocks[p], n);
        if how.InPlace? && p != NULL then (this.(blocks := blocks[p := content]), p)
        else
          var h := Kfree(p);
          (Heap(h.blocks[next := content], h.freed, next + 1), next)
    }

    /** Writing bytes into a block at an offset. */
    function Store(p: Ptr, at: nat, bytes: seq<byte>): Heap
      requires p in blocks && at + |bytes| <= |blocks[p]|
    {
      var b := blocks[p];
      this.(blocks := blocks[p := b[..at] + bytes + b[at + |bytes|..]])
    }
  }

  /** The first n bytes of s; what lies beyond s is arbitrary to the caller. */
  function Resize(s: seq<byte>, n: nat): (r: seq<byte>)
    ensures |r| == n
    ensures forall k :: 0 <= k <= n && k <= |s| ==> r[..k] == s[..k]
  {
    if n <= |s| then s[..n] else s + seq(n - |s|, _ => NUL)
  }
}
