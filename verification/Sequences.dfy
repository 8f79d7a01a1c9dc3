/** Flattening a list of byte strings, and addressing the flat result. */
module Sequences {

  function Flatten<T>(ss: seq<seq<T>>): seq<T> {
    if ss == [] then [] else ss[0] + Flatten(ss[1..])
  }

  /** The sum of the first k numbers. */
  function Sum(ns: seq<nat>, k: nat): nat
    requires k <= |ns|
  {
    if k == 0 then 0 else Sum(ns, k - 1) + ns[k - 1]
  }

  function Total(ns: seq<nat>): nat {
    Sum(ns, |ns|)
  }

  function Lengths<T>(ss: seq<seq<T>>): (ns: seq<nat>)
    ensures |ns| == |ss|
    ensures forall i :: 0 <= i < |ss| ==> ns[i] == |ss[i]|
  {
    seq(|ss|, i requires 0 <= i < |ss| => |ss[i]|)
  }

  function Min(a: int, b: int): int {
    if a < b then a else b
  }

  /** The last n elements, or all of them when there are fewer. */
  function Last<T>(s: seq<T>, n: nat): (r: seq<T>)
    ensures |r| == if |s| <= n then |s| else n
  {
    if |s| <= n then s else s[|s| - n..]
  }

  /** What Last(s, n) leaves out. */
  function Dropped<T>(s: seq<T>, n: nat): (r: seq<T>)
    ensures r + Last(s, n) == s
  {
    if |s| <= n then [] else s[..|s| - n]
  }

  lemma SplitAt<T>(s: seq<T>, k: nat)
    requires k <= |s|
    ensures s[..k] + s[k..] == s
  {
  }

  lemma PrefixAndRest<T>(a: seq<T>, b: seq<T>)
    requires a <= b
    ensures a + b[|a|..] == b
  {
  }

  lemma LastElement<T>(s: seq<T>)
    requires s != []
    ensures s[|s| - 1..] == s[|s| - 1..|s|] == [s[|s| - 1]]
  {
  }

  predicate NoDuplicates<T(==)>(s: seq<T>) {
    forall i, j :: 0 <= i < j < |s| ==> s[i] != s[j]
  }

  lemma {:induction false} FlattenConcat<T>(a: seq<seq<T>>, b: seq<seq<T>>)
    ensures Flatten(a + b) == Flatten(a) + Flatten(b)
  {
    if a == [] {
      assert a + b == b;
    } else {
      assert (a + b)[1..] == a[1..] + b;
      FlattenConcat(a[1..], b);
    }
  }

  lemma ConcatAssociates<T>(a: seq<T>, b: seq<T>, c: seq<T>)
    ensures (a + b) + c == a + (b + c)
  {
  }

  lemma FlattenCons<T>(x: seq<T>, ss: seq<seq<T>>)
    ensures Flatten([x] + ss) == x + Flatten(ss)
  {
    assert ([x] + ss)[1..] == ss;
  }

  lemma FlattenSnoc<T>(a: seq<seq<T>>, x: seq<T>)
    ensures Flatten(a + [x]) == Flatten(a) + x
  {
    FlattenConcat(a, [x]);
    assert Flatten([x]) == x + Flatten([]) == x;
  }

  lemma {:induction false} SumMonotone(ns: seq<nat>, j: nat, k: nat)
    requires j <= k <= |ns|
    ensures Sum(ns, j) <= Sum(ns, k)
  {
    if j == k {
    } else {
      SumMonotone(ns, j, k - 1);
    }
  }

  lemma {:induction false} SumOfConcat(a: seq<nat>, b: seq<nat>, k: nat)
    requires k <= |b|
    ensures Sum(a + b, |a| + k) == Total(a) + Sum(b, k)
  {
    if k == 0 {
      SumOfPrefix(a, b, |a|);
    } else {
      SumOfConcat(a, b, k - 1);
    }
  }

  lemma {:induction false} SumOfPrefix(a: seq<nat>, b: seq<nat>, k: nat)
    requires k <= |a|
    ensures Sum(a + b, k) == Sum(a, k)
  {
    if k == 0 {
    } else {
      SumOfPrefix(a, b, k - 1);
    }
  }

  lemma TotalOfConcat(a: seq<nat>, b: seq<nat>)
    ensures Total(a + b) == Total(a) + Total(b)
  {
    SumOfConcat(a, b, |b|);
  }

  lemma {:induction false} SumOfZeros(ns: seq<nat>, k: nat)
    requires k <= |ns| && forall i :: 0 <= i < |ns| ==> ns[i] == 0
    ensures Sum(ns, k) == 0
  {
    if k == 0 {
    } else {
      SumOfZeros(ns, k - 1);
    }
  }

  lemma {:induction false} SumTail(ns: seq<nat>, k: nat)
    requires 0 < k <= |ns|
    ensures Sum(ns, k) == ns[0] + Sum(ns[1..], k - 1)
  {
    if k == 1 {
    } else {
      SumTail(ns, k - 1);
    }
  }

  /** Flattening the first k pieces gives the sum of their lengths. */
  lemma {:induction false} FlattenLength<T>(ss: seq<seq<T>>, k: nat)
    requires k <= |ss|
    ensures |Flatten(ss[..k])| == Sum(Lengths(ss), k)
  {
    if k == 0 {
    } else {
      FlattenLength(ss, k - 1);
      assert ss[..k] == ss[..k - 1] + [ss[k - 1]];
      FlattenSnoc(ss[..k - 1], ss[k - 1]);
    }
  }

  lemma FlattenTotal<T>(ss: seq<seq<T>>)
    ensures |Flatten(ss)| == Total(Lengths(ss))
  {
    assert ss[..|ss|] == ss;
    FlattenLength(ss, |ss|);
  }

  /** Position off of the flat sequence is byte b of piece i. */
  ghost predicate At(ns: seq<nat>, off: nat, i: nat, b: nat) {
    i < |ns| && b < ns[i] && Sum(ns, i) + b == off
  }

  lemma AtInRange(ns: seq<nat>, off: nat, i: nat, b: nat)
    requires At(ns, off, i, b)
    ensures off < Total(ns)
  {
    SumMonotone(ns, i + 1, |ns|);
  }

  lemma {:induction false} AtExistsBelow(ns: seq<nat>, off: nat, k: nat) returns (i: nat, b: nat)
    requires k <= |ns| && off < Sum(ns, k)
    ensures At(ns, off, i, b)
  {
    if Sum(ns, k - 1) <= off {
      i, b := k - 1, off - Sum(ns, k - 1);
    } else {
      i, b := AtExistsBelow(ns, off, k - 1);
    }
  }

  lemma AtUnique(ns: seq<nat>, off: nat, i: nat, b: nat, i': nat, b': nat)
    requires At(ns, off, i, b) && At(ns, off, i', b')
    ensures i == i' && b == b'
  {
    if i < i' {
      SumMonotone(ns, i + 1, i');
    } else if i' < i {
      SumMonotone(ns, i' + 1, i);
    }
  }

  lemma FlattenCut<T>(ss: seq<seq<T>>, i: nat)
    requires i < |ss|
    ensures Flatten(ss) == Flatten(ss[..i]) + ss[i] + Flatten(ss[i + 1..])
  {
    assert ss == ss[..i] + ss[i..];
    FlattenConcat(ss[..i], ss[i..]);
    assert ss[i..][1..] == ss[i + 1..];
  }

  /** Byte b of piece i is what the flat sequence holds at that position. */
  lemma FlattenAt<T>(ss: seq<seq<T>>, off: nat, i: nat, b: nat)
    requires At(Lengths(ss), off, i, b)
    ensures |Flatten(ss[..i])| + b == off
    ensures off < |Flatten(ss)| && Flatten(ss)[off] == ss[i][b]
  {
    FlattenLength(ss, i);
    FlattenCut(ss, i);
  }
}
