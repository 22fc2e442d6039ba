/** OSAL_Queue.c: a queue on a circular linked list of preallocated nodes. */
module OsalQueue {

  /** A data pointer. */
  datatype Pointer<T> = Nil | To(value: T)

  /** What a queue created with `maxElem` can hold: its ring has one node fewer than maxElem
      (but at least one), and OSAL_Queue also checks maxElem itself. */
  function Capacity(maxElem: int): nat {
    if maxElem <= 0 then 0 else if maxElem == 1 then 1 else maxElem - 1
  }

  /** The number of nodes OSAL_QueueCreate allocates. */
  function RingSize(maxElem: int): nat {
    if maxElem <= 2 then 1 else maxElem - 1
  }

  /** Position k of a ring of n nodes, counted from `start`. */
  function Around(start: nat, k: nat, n: nat): (r: nat)
    requires start < n && k <= n
    ensures r < n
  {
    if start + k < n then start + k else start + k - n
  }

  lemma AroundNext(start: nat, n: nat)
    requires start < n
    ensures forall k :: 0 <= k < n ==>
      Around(Around(start, 1, n), k, n) == if k < n - 1 then Around(start, k + 1, n) else start
    ensures forall k :: 0 < k < n ==> Around(start, k, n) != start
  {
  }

  class Node<T> {
    var data: Pointer<T>
    var qNext: Node?<T>

    constructor ()
      ensures data == Nil && qNext == null
    {
      data, qNext := Nil, null;
    }
  }

  /** The condition under which OSAL_Queue takes another element. */
  predicate Accepts<T>(contents: seq<T>, maxElem: int) {
    |contents| < Capacity(maxElem)
  }

  function Rotated<T>(s: seq<T>, start: nat): seq<T>
    requires start <= |s|
  {
    s[start..] + s[..start]
  }

  /** A queue created for n > 1 elements takes another one while it holds fewer than n - 1; one created
      for one element takes one, and one for none or fewer takes none. */
  lemma AcceptsExactly<T>(contents: seq<T>, maxElem: int)
    ensures 2 <= maxElem ==> (Accepts(contents, maxElem) <==> |contents| < maxElem - 1)
    ensures maxElem == 1 ==> (Accepts(contents, maxElem) <==> contents == [])
    ensures maxElem <= 0 ==> !Accepts(contents, maxElem)
  {
  }

  datatype Op<T> = Put(x: T) | Get

  function Step<T>(contents: seq<T>, op: Op<T>, maxElem: int): seq<T> {
    match op
    case Put(x) => if Accepts(contents, maxElem) then contents + [x] else contents
    case Get => if contents == [] then contents else contents[1..]
  }

  class Queue<T(==)> {
    var first: Node?<T>
    var last: Node?<T>
    var numElem: int
    var maxElem: int

    ghost var ring: seq<Node<T>>      // the nodes in qNext order
    ghost var head: nat               // the position of `first` in it
    ghost var contents: seq<T>        // the queued pointers, oldest first
    ghost var live: set<Node<T>>      // allocated by malloc and not yet freed

    ghost predicate Valid()
      reads this, ring
    {
      var n := |ring|;
      && n == RingSize(maxElem)
      && live == (set x | x in ring)
      && (forall i, j :: 0 <= i < j < n ==> ring[i] != ring[j])
      && (forall i :: 0 <= i < n ==> ring[i].qNext == ring[Around(i, 1, n)])
      && head < n && first == ring[head]
      && numElem == |contents| <= Capacity(maxElem)
      && last == ring[Around(head, |contents|, n)]
      && (forall k :: 0 <= k < |contents| ==> ring[Around(head, k, n)].data == To(contents[k]))
      && (forall k :: |contents| <= k < n ==> ring[Around(head, k, n)].data == Nil)
    }

    constructor ()
      ensures first == null && live == {} && ring == [] && contents == []
    {
      first, last, numElem, maxElem := null, null, 0, 0;
      ring, head, contents, live := [], 0, [], {};
    }

    /** malloc and memset; `granted` is malloc's answer. */
    method Malloc(granted: bool) returns (node: Node?<T>)
      modifies this`live
      ensures granted ==> node != null && fresh(node) && node.data == Nil && node.qNext == null && live == old(live) + {node}
      ensures !granted ==> node == null && live == old(live)
    {
      node := null;
      if granted {
        node := new Node<T>();
        live := live + {node};
      }
    }

    /** free: only what malloc returned, and only once. */
    method Release(node: Node<T>)
      requires node in live
      modifies this`live
      ensures live == old(live) - {node}
    {
      live := live - {node};
    }

    /** The nodes of `nodes` linked in order, the last one open. */
    static ghost predicate Chain(nodes: seq<Node<T>>)
      reads nodes
    {
      && (forall i, j :: 0 <= i < j < |nodes| ==> nodes[i] != nodes[j])
      && (forall i :: 0 <= i < |nodes| ==> nodes[i].data == Nil)
      && (forall i :: 0 <= i < |nodes| ==> nodes[i].qNext == (if i + 1 < |nodes| then nodes[i + 1] else null))
    }

    /** The last assignment of OSAL_QueueCreate turns the chain into a ring. */
    method Close(current: Node<T>, ghost nodes: seq<Node<T>>)
      requires Chain(nodes) && |nodes| == RingSize(maxElem) && current == nodes[|nodes| - 1]
      requires first == last == nodes[0] && numElem == 0 && live == set x | x in nodes
      modifies this, nodes
      ensures Valid() && ring == nodes && contents == [] && maxElem == old(maxElem)
    {
      current.qNext := first;
      ring, head, contents := nodes, 0, [];
    }

    /** The clean-up loop of OSAL_QueueCreate. */
    method FreeChain(ghost nodes: seq<Node<T>>)
      requires Chain(nodes) && nodes != [] && first == nodes[0] && live == set x | x in nodes
      modifies this`first, this`live
      ensures first == null && live == {}
    {
      ghost var k := 0;
      while first != null
        invariant 0 <= k <= |nodes| && Chain(nodes)
        invariant first == if k < |nodes| then nodes[k] else null
        invariant live == set x | x in nodes[k..]
        decreases |nodes| - k
      {
        assert nodes[k..] == [nodes[k]] + nodes[k + 1..];
        var current := first.qNext;
        assert current == if k + 1 < |nodes| then nodes[k + 1] else null;
        Release(first);
        first := current;
        k := k + 1;
      }
    }

    /** The else branch in OSAL_QueueCreate's loop: one more node at the end of the chain. */
    method Link(current: Node<T>, node: Node<T>, ghost nodes: seq<Node<T>>)
      requires Chain(nodes) && nodes != [] && current == nodes[|nodes| - 1]
      requires node !in nodes && node.data == Nil && node.qNext == null
      modifies current
      ensures Chain(nodes + [node])
    {
      current.qNext := node;
    }

    /** OSAL_QueueCreate; the k-th malloc succeeds iff k < granted. On failure everything
        allocated has been freed again. */
    method Create(maxQueueElem: int, granted: nat) returns (ok: bool)
      requires live == {}
      modifies this
      ensures ok == (RingSize(maxQueueElem) <= granted)
      ensures ok ==> Valid() && fresh(ring) && contents == [] && maxElem == maxQueueElem
      ensures !ok ==> live == {} && first == null
    {
      maxElem := maxQueueElem;
      first := Malloc(0 < granted);
      if first == null {
        return false;
      }
      last := first;
      var current: Node<T> := first;
      numElem := 0;
      ghost var nodes := [current];
      var i := 0;
      while i < maxElem - 2
        invariant 0 <= i && (i <= maxElem - 2 || i == 0)
        invariant |nodes| == i + 1 <= granted && fresh(nodes)
        invariant Chain(nodes) && live == set x | x in nodes
        invariant first == last == nodes[0] && current == nodes[i]
        invariant maxElem == maxQueueElem && numElem == 0
      {
        var node := Malloc(i + 1 < granted);
        if node == null {
          FreeChain(nodes);
          return false;
        }
        Link(current, node, nodes);
        current := node;
        nodes := nodes + [node];
        i := i + 1;
      }
      Close(current, nodes);
      ok := true;
    }

    /** OSAL_QueueTerminate frees every node Create allocated, each exactly once (Release
        refuses a second time), and reads a node only while it is still allocated. */
    method Terminate()
      requires Valid()
      modifies this`first, this`live
      ensures first == null && live == {}
    {
      ghost var n := |ring|;
      ghost var rest := Rotated(ring, head);
      var i := 0;
      while i < maxElem - 2
        invariant 0 <= i && (i <= maxElem - 2 || i == 0)
        invariant |rest| == n - i && rest != []
        invariant first == rest[0] && live == set x | x in rest
        invariant forall j, k :: 0 <= j < k < |rest| ==> rest[j] != rest[k]
        invariant forall j :: 0 <= j < |rest| - 1 ==> rest[j].qNext == rest[j + 1]
        invariant ring == old(ring) && maxElem == old(maxElem)
      {
        assert rest == [rest[0]] + rest[1..];
        assert first in live;
        var current := first.qNext;
        Release(first);
        first := current;
        rest := rest[1..];
        i := i + 1;
      }
      assert rest == [rest[0]];
      if first != null {
        Release(first);
        first := null;
      }
    }

    /** The test both enqueue operations start with. */
    lemma FullIff()
      requires Valid()
      ensures last != null && first != null
      ensures (last.data != Nil || numElem >= maxElem) <==> !Accepts(contents, maxElem)
      ensures first.data == if contents == [] then Nil else To(contents[0])
    {
      assert ring[Around(head, 0, |ring|)] == first;
    }

    /** The assignments both enqueue operations end with. */
    method Append(data: T)
      requires Valid() && Accepts(contents, maxElem)
      modifies this, ring
      ensures Valid() && ring == old(ring) && maxElem == old(maxElem) && live == old(live)
      ensures contents == old(contents) + [data]
    {
      FullIff();
      last.data := To(data);
      last := last.qNext;
      numElem := numElem + 1;
      contents := contents + [data];
    }

    /** OSAL_Queue. */
    method Enqueue(data: T) returns (ok: bool)
      requires Valid()
      modifies this, ring
      ensures Valid() && ring == old(ring) && maxElem == old(maxElem) && live == old(live)
      ensures ok == Accepts(old(contents), maxElem)
      ensures contents == Step(old(contents), Put(data), maxElem)
    {
      FullIff();
      if last.data != Nil || numElem >= maxElem {
        return false;
      }
      Append(data);
      ok := true;
    }

    /** The assignments OSAL_Dequeue ends with. */
    method RemoveFirst() returns (data: Pointer<T>)
      requires Valid() && contents != []
      modifies this, ring
      ensures Valid() && ring == old(ring) && maxElem == old(maxElem) && live == old(live)
      ensures data == To(old(contents)[0]) && contents == old(contents)[1..]
    {
      FullIff();
      ghost var n := |ring|;
      data := first.data;
      first.data := Nil;
      first := first.qNext;
      numElem := numElem - 1;
      ghost var next := Around(head, 1, n);
      AroundNext(head, n);
      head, contents := next, contents[1..];
    }

    /** OSAL_Dequeue. */
    method Dequeue() returns (data: Pointer<T>)
      requires Valid()
      modifies this, ring
      ensures Valid() && ring == old(ring) && maxElem == old(maxElem) && live == old(live)
      ensures data.Nil? <==> old(contents) == []
      ensures data.To? ==> data.value == old(contents)[0]
      ensures contents == Step(old(contents), Get, maxElem)
    {
      FullIff();
      if first.data == Nil || numElem <= 0 {
        return Nil;
      }
      data := RemoveFirst();
    }

    /** OSAL_QueueSetElem. Its search never moves on from the two ends, so it recognises a
        duplicate only when that is the oldest element. */
    method SetElem(data: T) returns (ok: bool)
      requires Valid()
      modifies this, ring
      ensures Valid() && ring == old(ring) && maxElem == old(maxElem) && live == old(live)
      ensures ok == Accepts(old(contents), maxElem)
      ensures contents == if ok && (old(contents) == [] || old(contents)[0] != data)
                          then old(contents) + [data] else old(contents)
    {
      FullIff();
      if last.data != Nil || numElem >= maxElem {
        return false;
      }
      for i := 0 to numElem
        invariant i > 0 ==> first.data != To(data)
      {
        if first.data == To(data) || last.data == To(data) {
          return true;
        }
      }
      Append(data);
      ok := true;
    }

    /** OSAL_GetElemNum. */
    method GetElemNum() returns (n: int)
      requires Valid()
      ensures n == |contents|
    {
      n := numElem;
    }
  }

  // ---- Runs of the bounded FIFO the queue refines ------------------------------------------

  /** The contents after `ops`, starting from an empty queue. */
  function After<T>(ops: seq<Op<T>>, maxElem: int): (contents: seq<T>)
    ensures |contents| <= Capacity(maxElem)
  {
    if ops == [] then [] else Step(After(ops[..|ops| - 1], maxElem), ops[|ops| - 1], maxElem)
  }

  /** The elements the Puts of `ops` got accepted, in order. */
  function Accepted<T>(ops: seq<Op<T>>, maxElem: int): seq<T> {
    if ops == [] then []
    else
      var before := ops[..|ops| - 1];
      var op := ops[|ops| - 1];
      Accepted(before, maxElem) + (if op.Put? && Accepts(After(before, maxElem), maxElem) then [op.x] else [])
  }

  /** The elements the Gets of `ops` returned, in order. */
  function Returned<T>(ops: seq<Op<T>>, maxElem: int): seq<T> {
    if ops == [] then []
    else
      var before := ops[..|ops| - 1];
      var op := ops[|ops| - 1];
      var contents := After(before, maxElem);
      Returned(before, maxElem) + (if op.Get? && contents != [] then [contents[0]] else [])
  }

  lemma PutMoves<T>(r: seq<T>, c: seq<T>, x: T)
    ensures r + (c + [x]) == (r + c) + [x]
  {
  }

  lemma GetMoves<T>(r: seq<T>, c: seq<T>)
    requires c != []
    ensures (r + [c[0]]) + c[1..] == r + c
  {
    assert c == [c[0]] + c[1..];
  }

  /** First in, first out over every run: what came out, then what is still queued, is exactly
      what went in. */
  lemma {:induction false} FirstInFirstOut<T>(ops: seq<Op<T>>, maxElem: int)
    ensures Returned(ops, maxElem) + After(ops, maxElem) == Accepted(ops, maxElem)
  {
    if ops == [] {
    } else {
      var before := ops[..|ops| - 1];
      FirstInFirstOut(before, maxElem);
      var r, c := Returned(before, maxElem), After(before, maxElem);
      match ops[|ops| - 1]
      case Put(x) => PutMoves(r, c, x);
      case Get => if c != [] { GetMoves(r, c); }
    }
  }

  function Puts<T>(xs: seq<T>): (ops: seq<Op<T>>)
    ensures |ops| == |xs|
  {
    if xs == [] then [] else Puts(xs[..|xs| - 1]) + [Put(xs[|xs| - 1])]
  }

  lemma PutsLast<T>(xs: seq<T>)
    requires xs != []
    ensures Puts(xs)[..|xs| - 1] == Puts(xs[..|xs| - 1]) && Puts(xs)[|xs| - 1] == Put(xs[|xs| - 1])
  {
  }

  /** One more element on top of what has stayed. */
  lemma StaysWith<T>(xs: seq<T>, before: seq<T>, maxElem: int)
    requires 2 <= maxElem && xs != [] && before == xs[..|xs| - 1]
    ensures Step(if |before| < maxElem then before else before[..maxElem - 1], Put(xs[|xs| - 1]), maxElem)
            == if |xs| < maxElem then xs else xs[..maxElem - 1]
  {
    assert xs == before + [xs[|xs| - 1]];
    if |xs| > maxElem {
      assert before[..maxElem - 1] == xs[..maxElem - 1];
    }
  }

  /** Of any elements put into a fresh queue the first n - 1 stay, in order, and no others. */
  lemma {:induction false} FillsUp<T>(xs: seq<T>, maxElem: int)
    requires 2 <= maxElem
    ensures After(Puts(xs), maxElem) == if |xs| < maxElem then xs else xs[..maxElem - 1]
  {
    if xs == [] {
    } else {
      FillsUp(xs[..|xs| - 1], maxElem);
      PutsLast(xs);
      StaysWith(xs, xs[..|xs| - 1], maxElem);
    }
  }
}
