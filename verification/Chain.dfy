/** Singly linked lists threaded through address-indexed `next` fields, with 0 as NULL.

    The heap's free lists and the hash table's buckets are both of this shape. A
    ghost sequence names the nodes of a list in order; a splice at position i only
    ever writes the head pointer (i == 0) or the predecessor's `next` field. */
module Chain {

  function At(xs: seq<nat>, i: nat): nat {
    if i < |xs| then xs[i] else 0
  }

  function With(xs: seq<nat>, i: nat, x: nat): seq<nat>
    requires i < |xs|
  {
    xs[i := x]
  }

  ghost predicate Threaded(head: nat, xs: seq<nat>, next: map<nat, nat>) {
    && head == At(xs, 0)
    && forall i | 0 <= i < |xs| :: xs[i] != 0 && xs[i] in next && next[xs[i]] == At(xs, i + 1)
  }

  ghost predicate NoDup<T>(xs: seq<T>) {
    forall i, j | 0 <= i < j < |xs| :: xs[i] != xs[j]
  }

  /** The head pointer after the first i nodes are followed by a list starting at `target`. */
  function HeadAfter(head: nat, i: nat, target: nat): nat {
    if i == 0 then target else head
  }

  /** The `next` fields after node i-1, if there is one, is made to point at `target`. */
  function NextAfter(next: map<nat, nat>, xs: seq<nat>, i: nat, target: nat): map<nat, nat>
    requires i <= |xs|
  {
    if i == 0 then next else next[xs[i - 1] := target]
  }

  lemma SuffixThreaded(head: nat, xs: seq<nat>, next: map<nat, nat>, i: nat)
    requires Threaded(head, xs, next) && i <= |xs|
    ensures Threaded(At(xs, i), xs[i..], next)
  {
    forall k | 0 <= k < |xs[i..]|
      ensures xs[i..][k] in next && next[xs[i..][k]] == At(xs[i..], k + 1)
    {
      assert xs[i..][k] == xs[i + k];
    }
  }

  /** A write to a node outside a list leaves the list as it was. */
  lemma ThreadedFrame(head: nat, xs: seq<nat>, next: map<nat, nat>, x: nat, v: nat)
    requires Threaded(head, xs, next) && x !in xs
    ensures Threaded(head, xs, next[x := v])
  {
  }

  /** Redirecting one pointer keeps the first i nodes and continues with the list at `target`. */
  lemma SpliceThreaded(head: nat, xs: seq<nat>, next: map<nat, nat>, i: nat, target: nat, tail: seq<nat>)
    requires Threaded(head, xs, next) && NoDup(xs) && i <= |xs|
    requires Threaded(target, tail, next)
    requires i > 0 ==> xs[i - 1] !in tail
    ensures Threaded(HeadAfter(head, i, target), xs[..i] + tail, NextAfter(next, xs, i, target))
  {
    var ys := xs[..i] + tail;
    var next' := NextAfter(next, xs, i, target);
    forall k | 0 <= k < |ys|
      ensures ys[k] != 0 && ys[k] in next' && next'[ys[k]] == At(ys, k + 1)
    {
      if k < i - 1 {
        assert ys[k] == xs[k] != xs[i - 1];
      } else if k == i - 1 {
        assert ys[k] == xs[i - 1];
        assert At(ys, k + 1) == At(tail, 0);
      } else {
        assert ys[k] == tail[k - i];
        assert At(ys, k + 1) == At(tail, k - i + 1);
      }
    }
  }

  lemma NoDupSplice<T>(xs: seq<T>, i: nat, tail: seq<T>)
    requires NoDup(xs) && NoDup(tail) && i <= |xs|
    requires forall k | 0 <= k < i :: xs[k] !in tail
    ensures NoDup(xs[..i] + tail)
  {
  }
}
