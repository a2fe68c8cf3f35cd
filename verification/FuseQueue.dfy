/** The request list of the FUSE client as a linked list (src/fuse/connection.c 824-828, 843-862, 894-932). */
module FuseQueue {

  /** The list without the first occurrence of x. */
  function Without<T(==)>(l: seq<T>, x: T): seq<T>
  {
    if l == [] then [] else if l[0] == x then l[1..] else [l[0]] + Without(l[1..], x)
  }

  lemma {:induction false} WithoutAt<T>(l: seq<T>, x: T, i: nat)
    requires i < |l| && l[i] == x && forall j: nat | j < i :: l[j] != x
    ensures Without(l, x) == l[..i] + l[i + 1..]
  {
    if i > 0 {
      var t := l[1..];
      WithoutAt(t, x, i - 1);
      assert l[0] != x;
      calc {
        Without(l, x);
        [l[0]] + Without(t, x);
        [l[0]] + (t[..i - 1] + t[i - 1 + 1..]);
        ([l[0]] + t[..i - 1]) + l[i + 1..];
        l[..i] + l[i + 1..];
      }
    }
  }

  lemma {:induction false} WithoutAbsent<T>(l: seq<T>, x: T)
    requires x !in l
    ensures Without(l, x) == l
  {
    if l != [] { WithoutAbsent(l[1..], x); }
  }

  class Request {
    var next: Request?
    constructor () { next := null; }
  }

  /** The nodes of l are linked one after the other, ending with NULL. */
  ghost predicate Linked(l: seq<Request>)
    reads l
  {
    && (forall i: nat, j: nat | i < j < |l| :: l[i] != l[j])
    && (forall i: nat | i + 1 < |l| :: l[i].next == l[i + 1])
    && (l != [] ==> l[|l| - 1].next == null)
  }

  function First(l: seq<Request>): Request? { if l == [] then null else l[0] }

  function Last(l: seq<Request>): Request? { if l == [] then null else l[|l| - 1] }

  class Queue {
    var head: Request?
    var tail: Request?
    ghost var contents: seq<Request>

    constructor ()
      ensures Valid() && contents == []
    {
      head, tail, contents := null, null, [];
    }

    ghost predicate Valid()
      reads this, contents
    {
      Linked(contents) && head == First(contents) && tail == Last(contents)
    }

    /** enqueueRequest */
    method Enqueue(request: Request)
      requires Valid() && request !in contents
      modifies this, request, if tail == null then {} else {tail}
      ensures Valid() && contents == old(contents) + [request]
    {
      request.next := null;
      if head == null {
        head, tail := request, request;
      } else {
        tail.next := request;
        tail := request;
      }
      contents := contents + [request];
    }

    /** Takes out the i-th request; `prev` is the one in front of it. */
    method Unlink(it: Request, prev: Request?, ghost i: nat)
      requires Valid() && i < |contents| && contents[i] == it && prev == if i > 0 then contents[i - 1] else null
      modifies this, if prev == null then {} else {prev}
      ensures Valid() && contents == old(contents)[..i] + old(contents)[i + 1..]
    {
      ghost var l := contents;
      if prev != null { prev.next := it.next; } else { head := it.next; }
      if tail == it { tail := prev; }
      contents := l[..i] + l[i + 1..];
      assert forall k: nat | k < i :: contents[k] == l[k];
      assert forall k: nat | i <= k < |contents| :: contents[k] == l[k + 1];
      assert forall k: nat | k + 1 < |contents| :: contents[k].next == contents[k + 1];
    }

    /** removeRequest: NULL if the request is not in the list. */
    method Remove(request: Request) returns (found: Request?)
      requires Valid()
      modifies this, contents
      ensures Valid() && contents == Without(old(contents), request)
      ensures found == if request in old(contents) then request else null
    {
      var it, prev: Request? := head, null;
      ghost var l, i := contents, 0;
      while it != null && it != request
        invariant 0 <= i <= |l| && it == (if i < |l| then l[i] else null) && prev == (if i > 0 then l[i - 1] else null)
        invariant forall j: nat | j < i :: l[j] != request
        decreases |l| - i
      {
        prev := it;
        it := it.next;
        i := i + 1;
      }
      if it != null {
        Unlink(it, prev, i);
        WithoutAt(l, request, i);
      } else {
        WithoutAbsent(l, request);
      }
      found := it;
    }

    /** The switch to another server takes the whole list away. */
    method TakeAll() returns (queue: Request?, ghost nodes: seq<Request>)
      requires Valid()
      modifies this
      ensures Valid() && contents == [] && nodes == old(contents) && Linked(nodes) && queue == First(nodes)
    {
      queue, nodes := head, contents;
      head, tail, contents := null, null, [];
    }

    /** One of its requests goes back; those behind it stay chained. */
    method PutBackNext(it: Request, ghost nodes: seq<Request>, ghost i: nat) returns (next: Request?)
      requires Valid() && i < |nodes| && it == nodes[i]
      requires forall k: nat | i <= k < |nodes| :: nodes[k] !in contents
      requires forall k: nat | i <= k < |nodes| :: nodes[k].next == if k + 1 < |nodes| then nodes[k + 1] else null
      requires forall k: nat | i < k < |nodes| :: nodes[k] != it
      modifies this, contents, it
      ensures Valid() && contents == old(contents) + [it] && next == if i + 1 < |nodes| then nodes[i + 1] else null
      ensures forall k: nat | i < k < |nodes| ::
                nodes[k] !in contents && nodes[k].next == if k + 1 < |nodes| then nodes[k + 1] else null
    {
      next := it.next;
      assert tail != null ==> tail in contents;
      Enqueue(it);
    }

    /** ... and puts its requests back in the same order; what is sent for each is not part of the list. */
    method PutBack(queue: Request?, ghost nodes: seq<Request>)
      requires Valid() && Linked(nodes) && queue == First(nodes) && forall x <- nodes :: x !in contents
      modifies this, contents, nodes
      ensures Valid() && contents == old(contents) + nodes
    {
      var it := queue;
      ghost var i := 0;
      ghost var before := contents;
      while it != null
        invariant 0 <= i <= |nodes| && it == (if i < |nodes| then nodes[i] else null)
        invariant forall k: nat | i <= k < |nodes| :: nodes[k] !in contents
        invariant forall k: nat | i <= k < |nodes| :: nodes[k].next == if k + 1 < |nodes| then nodes[k + 1] else null
        invariant Valid() && contents == before + nodes[..i]
        decreases |nodes| - i
      {
        it := PutBackNext(it, nodes, i);
        i := i + 1;
      }
    }
  }
}
