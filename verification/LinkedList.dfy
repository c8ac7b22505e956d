/**
 The doubly linked list of hw1/LinkedList.c: heap nodes, a removing iterator
 and an in-place bubble sort of the payloads.
 */
module LinkedList {
  import opened Common
  import opened Sorting

  class Node<T> {
    var payload: T
    var next: Node?<T>
    var prev: Node?<T>
    ghost const owner: object  // the list the node was made for

    constructor (payload: T, ghost owner: object)
      ensures this.payload == payload && next == null && prev == null && this.owner == owner
    {
      this.payload, this.owner := payload, owner;
      next, prev := null, null;
    }
  }

  class LinkedList<T> {
    var numElements: int
    var head: Node?<T>
    var tail: Node?<T>
    ghost var nodes: seq<Node<T>>  // from head to tail

    ghost predicate Valid()
      reads this, nodes
    {
      && numElements == |nodes|
      && Linked(nodes)
      && (forall n :: n in nodes ==> n.owner == this)
      && (if nodes == [] then head == null && tail == null else head == nodes[0] && tail == nodes[|nodes| - 1])
    }

    // The payloads from head to tail.
    ghost function Contents(): (s: seq<T>)
      reads this, nodes
      ensures |s| == |nodes|
      ensures forall i :: 0 <= i < |nodes| ==> s[i] == nodes[i].payload
    {
      Payloads(nodes)
    }

    constructor ()
      ensures Valid() && Contents() == [] && nodes == []
    {
      numElements, head, tail := 0, null, null;
      nodes := [];
    }

    method Push(payload: T)
      requires Valid()
      modifies this, nodes
      ensures Valid() && Contents() == [payload] + old(Contents())
      ensures |nodes| == |old(nodes)| + 1 && nodes[1..] == old(nodes) && fresh(nodes[0])
    {
      hide *;
      ValidNodes();
      LinkedParts(nodes);
      var ln := new Node(payload, this);
      DistinctExtend(nodes, ln);
      if nodes != [] {
        DistinctAt(nodes, 0);
      }
      if numElements == 0 {
        head, tail := ln, ln;
        numElements := 1;
      } else {
        ln.next := head;
        head.prev := ln;
        head := ln;
        numElements := numElements + 1;
      }
      PushLinked(nodes, ln);
      nodes := [ln] + nodes;
      assert nodes[1..] == old(nodes);
      Intro();
      assert Contents() == [payload] + old(Contents());
    }

    method Pop() returns (r: Option<T>)
      requires Valid()
      modifies this, nodes
      ensures Valid()
      ensures old(Contents()) == [] ==> r == None && Contents() == []
      ensures old(Contents()) != [] ==>
                && r == Some(old(Contents())[0]) && Contents() == old(Contents())[1..] && nodes == old(nodes)[1..]
    {
      hide *;
      ValidNodes();
      if numElements == 0 {
        return None;
      }
      LinkedParts(nodes);
      DistinctSplice(nodes, 0);
      if numElements > 1 {
        DistinctAt(nodes, 1);
      }
      r := Some(head.payload);
      if numElements == 1 {
        head, tail := null, null;
      } else {
        head.next.prev := null;
        head := head.next;
      }
      numElements := numElements - 1;
      TailLinked(nodes);
      nodes := nodes[1..];
      Intro();
      assert Contents() == old(Contents())[1..];
    }

    method Append(payload: T)
      requires Valid()
      modifies this, nodes
      ensures Valid() && Contents() == old(Contents()) + [payload]
      ensures |nodes| == |old(nodes)| + 1 && nodes[..|old(nodes)|] == old(nodes) && fresh(nodes[|old(nodes)|])
    {
      hide *;
      ValidNodes();
      LinkedParts(nodes);
      var ln := new Node(payload, this);
      DistinctExtend(nodes, ln);
      if nodes != [] {
        DistinctAt(nodes, |nodes| - 1);
      }
      if numElements == 0 {
        head, tail := ln, ln;
        numElements := 1;
      } else {
        ln.prev := tail;
        tail.next := ln;
        tail := ln;
        numElements := numElements + 1;
      }
      AppendLinked(nodes, ln);
      nodes := nodes + [ln];
      Intro();
      assert Contents() == old(Contents()) + [payload];
    }

    method Slice() returns (r: Option<T>)
      requires Valid()
      modifies this, nodes
      ensures Valid()
      ensures old(Contents()) == [] ==> r == None && Contents() == []
      ensures old(Contents()) != [] ==>
                && r == Some(Last(old(Contents()))) && Contents() == Init(old(Contents())) && nodes == Init(old(nodes))
    {
      hide *;
      ValidNodes();
      if numElements == 0 {
        return None;
      }
      LinkedParts(nodes);
      DistinctSplice(nodes, |nodes| - 1);
      if numElements > 1 {
        DistinctAt(nodes, |nodes| - 2);
      }
      LastInit(nodes);
      LastInit(Contents());
      r := Some(tail.payload);
      if numElements == 1 {
        head, tail := null, null;
      } else {
        tail.prev.next := null;
        tail := tail.prev;
      }
      numElements := numElements - 1;
      InitLinked(nodes);
      nodes := nodes[..|nodes| - 1];
      Intro();
      assert Contents() == old(Contents())[..|old(Contents())| - 1];
    }

    // Exchange the payloads of a node and its successor.
    method SwapWithNext(curnode: Node<T>, ghost k: nat)
      requires Valid() && k + 1 < |nodes| && curnode == nodes[k]
      modifies nodes
      ensures Valid() && nodes == old(nodes)
      ensures Contents() == SwapAt(old(Contents()), k)
    {
      hide Distinct, Payloads;
      DistinctAt(nodes, k);
      DistinctAt(nodes, k + 1);
      assert curnode.next == nodes[k + 1];
      var tmp := curnode.payload;
      curnode.payload := curnode.next.payload;
      curnode.next.payload := tmp;
      assert Contents() == SwapAt(old(Contents()), k);
    }

    lemma Parts()
      requires Valid()
      ensures numElements == |nodes| && Linked(nodes) && (forall n :: n in nodes ==> n.owner == this)
    {
    }

    lemma ContentsValue()
      ensures Contents() == Payloads(nodes)
    {
    }

    lemma Intro()
      requires numElements == |nodes| && Linked(nodes) && (forall n :: n in nodes ==> n.owner == this)
      requires if nodes == [] then head == null && tail == null else head == nodes[0] && tail == nodes[|nodes| - 1]
      ensures Valid()
    {
    }

    lemma ValidNodes()
      requires Valid()
      ensures Linked(nodes) && (forall n :: n in nodes ==> n.owner == this)
              && (nodes == [] ==> head == null && tail == null)
      ensures nodes != [] ==> head == nodes[0] && tail == nodes[|nodes| - 1]
      ensures numElements == |nodes| == |Contents()|
      ensures forall i {:trigger nodes[i].next} :: 0 <= i < |nodes| ==>
                nodes[i].next == (if i + 1 < |nodes| then nodes[i + 1] else null)
      ensures forall i {:trigger nodes[i].payload} :: 0 <= i < |nodes| ==> nodes[i].payload == Contents()[i]
    {
    }
  }

  ghost predicate Distinct<N>(nodes: seq<N>)
  {
    forall i, j :: 0 <= i < j < |nodes| ==> nodes[i] != nodes[j]
  }

  lemma DistinctAt<N>(nodes: seq<N>, k: nat)
    requires Distinct(nodes) && k < |nodes|
    ensures forall i :: 0 <= i < |nodes| && i != k ==> nodes[i] != nodes[k]
  {
  }

  lemma DistinctSplice<N>(nodes: seq<N>, k: nat)
    requires Distinct(nodes) && k < |nodes|
    ensures Distinct(nodes[..k] + nodes[k + 1..]) && Distinct(nodes[..k]) && Distinct(nodes[k + 1..])
  {
  }

  lemma DistinctExtend<N>(nodes: seq<N>, n: N)
    requires Distinct(nodes) && n !in nodes
    ensures Distinct([n] + nodes) && Distinct(nodes + [n])
  {
  }

  ghost predicate Linked<T>(nodes: seq<Node<T>>)
    reads nodes
  {
    && Distinct(nodes)
    && (forall i {:trigger nodes[i].next} :: 0 <= i < |nodes| - 1 ==> nodes[i].next == nodes[i + 1])
    && (forall i {:trigger nodes[i].prev} :: 1 <= i < |nodes| ==> nodes[i].prev == nodes[i - 1])
    && (nodes != [] ==> nodes[0].prev == null && nodes[|nodes| - 1].next == null)
  }

  lemma LinkedParts<T>(nodes: seq<Node<T>>)
    requires Linked(nodes)
    ensures Distinct(nodes)
    ensures forall i {:trigger nodes[i].next} :: 0 <= i < |nodes| - 1 ==> nodes[i].next == nodes[i + 1]
    ensures forall i {:trigger nodes[i].prev} :: 1 <= i < |nodes| ==> nodes[i].prev == nodes[i - 1]
    ensures nodes != [] ==> nodes[0].prev == null && nodes[|nodes| - 1].next == null
  {
  }

  lemma LastInit<X>(s: seq<X>)
    requires s != []
    ensures Last(s) == s[|s| - 1] && Init(s) == s[..|s| - 1]
  {
  }

  // The nodes behind the first, which they no longer know.
  lemma TailLinked<T>(nodes: seq<Node<T>>)
    requires nodes != [] && Distinct(nodes[1..])
    requires forall i {:trigger nodes[i].next} :: 1 <= i < |nodes| - 1 ==> nodes[i].next == nodes[i + 1]
    requires forall i {:trigger nodes[i].prev} :: 2 <= i < |nodes| ==> nodes[i].prev == nodes[i - 1]
    requires |nodes| > 1 ==> nodes[1].prev == null && nodes[|nodes| - 1].next == null
    ensures Linked(nodes[1..])
  {
    hide Distinct;
    var all := nodes[1..];
    assert forall i :: 0 <= i < |all| ==> all[i] == nodes[i + 1];
  }

  // The nodes before the last, which they no longer know.
  lemma InitLinked<T>(nodes: seq<Node<T>>)
    requires nodes != [] && Distinct(nodes[..|nodes| - 1])
    requires forall i {:trigger nodes[i].next} :: 0 <= i < |nodes| - 2 ==> nodes[i].next == nodes[i + 1]
    requires forall i {:trigger nodes[i].prev} :: 1 <= i < |nodes| - 1 ==> nodes[i].prev == nodes[i - 1]
    requires |nodes| > 1 ==> nodes[0].prev == null && nodes[|nodes| - 2].next == null
    ensures Linked(nodes[..|nodes| - 1])
  {
    hide Distinct;
  }

  // ln stands before the linked nodes.
  lemma PushLinked<T>(nodes: seq<Node<T>>, ln: Node<T>)
    requires Distinct([ln] + nodes)
    requires forall i {:trigger nodes[i].next} :: 0 <= i < |nodes| - 1 ==> nodes[i].next == nodes[i + 1]
    requires forall i {:trigger nodes[i].prev} :: 1 <= i < |nodes| ==> nodes[i].prev == nodes[i - 1]
    requires nodes != [] ==> nodes[0].prev == ln && nodes[|nodes| - 1].next == null
    requires ln.prev == null && ln.next == if nodes == [] then null else nodes[0]
    ensures Linked([ln] + nodes)
  {
    hide Distinct;
    var all := [ln] + nodes;
    assert forall i :: 0 <= i < |nodes| ==> all[i + 1] == nodes[i];
    assert forall i :: 1 <= i < |all| ==> all[i] == nodes[i - 1];
  }

  // ln hangs behind the linked nodes.
  lemma AppendLinked<T>(nodes: seq<Node<T>>, ln: Node<T>)
    requires Distinct(nodes + [ln])
    requires forall i {:trigger nodes[i].next} :: 0 <= i < |nodes| - 1 ==> nodes[i].next == nodes[i + 1]
    requires forall i {:trigger nodes[i].prev} :: 1 <= i < |nodes| ==> nodes[i].prev == nodes[i - 1]
    requires nodes != [] ==> nodes[0].prev == null && nodes[|nodes| - 1].next == ln
    requires ln.next == null && ln.prev == if nodes == [] then null else nodes[|nodes| - 1]
    ensures Linked(nodes + [ln])
  {
    hide Distinct;
    var all := nodes + [ln];
    assert forall i :: 0 <= i < |nodes| ==> all[i] == nodes[i];
  }

  // The links of all nodes but the one at k skip it.
  ghost predicate Spliced<T>(nodes: seq<Node<T>>, k: nat)
    requires k < |nodes|
    reads nodes
  {
    && (forall i {:trigger nodes[i].next} :: 0 <= i < |nodes| - 1 && i != k && i + 1 != k ==>
       nodes[i].next == nodes[i + 1])
    && (forall i {:trigger nodes[i].prev} :: 1 <= i < |nodes| && i != k && i - 1 != k ==> nodes[i].prev == nodes[i - 1])
    && (0 < k ==> nodes[k - 1].next == (if k + 1 < |nodes| then nodes[k + 1] else null) && nodes[0].prev == null)
    && (k + 1 < |nodes| ==>
          nodes[k + 1].prev == (if k > 0 then nodes[k - 1] else null) && nodes[|nodes| - 1].next == null)
  }

  lemma SpliceLinked<T>(nodes: seq<Node<T>>, k: nat)
    requires k < |nodes| && Distinct(nodes[..k] + nodes[k + 1..]) && Spliced(nodes, k)
    ensures Linked(nodes[..k] + nodes[k + 1..])
  {
    hide Distinct;
    var rest := nodes[..k] + nodes[k + 1..];
    assert forall i :: 0 <= i < |rest| ==> rest[i] == nodes[if i < k then i else i + 1];
  }

  // Where the iterator stands when the node at k of n nodes is gone.
  function PlaceAfter(n: nat, k: nat): (i: nat)
    requires k < n
    ensures n > 1 ==> i < n - 1
    ensures i == if n == 1 then 0 else if k == n - 1 then k - 1 else k
  {
    if k + 1 < n || k == 0 then k else k - 1
  }

  // The ends of the list that is left, and the node the iterator moves to.
  lemma SpliceEnds<N>(nodes: seq<Node<N>>, k: nat, head: Node?<N>, tail: Node?<N>, node: Node?<N>)
    requires k < |nodes|
    requires head == (if k > 0 then nodes[0] else if |nodes| > 1 then nodes[1] else null)
    requires tail == (if k + 1 < |nodes| then nodes[|nodes| - 1] else if k > 0 then nodes[k - 1] else null)
    requires node == (if k + 1 < |nodes| then nodes[k + 1] else if k > 0 then nodes[k - 1] else null)
    ensures var rest := nodes[..k] + nodes[k + 1..];
            && |rest| == |nodes| - 1 && (forall n :: n in rest ==> n in nodes)
            && (if rest == [] then head == null && tail == null else head == rest[0] && tail == rest[|rest| - 1])
            && node == (if rest == [] then null else rest[PlaceAfter(|nodes|, k)])
  {
  }

  lemma WithoutAt<X>(s: seq<X>, k: nat)
    requires k < |s|
    ensures var r := s[..k] + s[k + 1..];
            |r| == |s| - 1 && forall i :: 0 <= i < |r| ==> r[i] == s[if i < k then i else i + 1]
  {
  }

  lemma SplicePayloads<T>(nodes: seq<Node<T>>, k: nat)
    requires k < |nodes|
    ensures Payloads(nodes[..k] + nodes[k + 1..]) == Payloads(nodes)[..k] + Payloads(nodes)[k + 1..]
  {
    hide *;
    var all, rest := Payloads(nodes), nodes[..k] + nodes[k + 1..];
    var l, r := Payloads(rest), all[..k] + all[k + 1..];
    WithoutAt(nodes, k);
    WithoutAt(all, k);
    forall i | 0 <= i < |l|
      ensures l[i] == r[i]
    {
      var j := if i < k then i else i + 1;
      assert l[i] == rest[i].payload && rest[i] == nodes[j] && all[j] == nodes[j].payload;
    }
  }

  ghost function Payloads<T>(nodes: seq<Node<T>>): (s: seq<T>)
    reads nodes
    ensures |s| == |nodes|
    ensures forall i :: 0 <= i < |nodes| ==> s[i] == nodes[i].payload
  {
    if nodes == [] then [] else Payloads(nodes[..|nodes| - 1]) + [nodes[|nodes| - 1].payload]
  }

  // Bubble sort: swap payloads of neighbours that are out of order until a
  // whole pass swaps nothing.
  method Sort<T(!new)>(list: LinkedList<T>, ascending: bool, cmp: Comparator<T>)
    requires list.Valid() && TotalPreorder(cmp)
    modifies list.nodes
    ensures list.Valid() && list.nodes == old(list.nodes)
    ensures Ordered(cmp, ascending, list.Contents())
    ensures var s := list.Contents();
            forall i, j :: 0 <= i < j < |s| ==> if ascending then cmp(s[i], s[j]) <= 0 else cmp(s[i], s[j]) >= 0
    ensures StablePermutation(cmp, old(list.Contents()), list.Contents())
  {
    hide *;
    list.ValidNodes();
    PermutationRefl(cmp, list.Contents());
    if list.numElements < 2 {
      ShortOrdered(cmp, ascending, list.Contents());
      return;
    }
    var swapped := true;
    while swapped
      invariant list.Valid() && |list.nodes| >= 2
      invariant !swapped ==> Ordered(cmp, ascending, list.Contents())
      invariant StablePermutation(cmp, old(list.Contents()), list.Contents())
      decreases Inversions(cmp, ascending, list.Contents()), swapped
    {
      ghost var before := list.Contents();
      swapped := Pass(list, ascending, cmp);
      PermutationTrans(cmp, old(list.Contents()), before, list.Contents());
    }
    OrderedMeans(cmp, ascending, list.Contents());
  }

  // One pass from head to tail.
  method Pass<T(!new)>(list: LinkedList<T>, ascending: bool, cmp: Comparator<T>) returns (swapped: bool)
    requires list.Valid() && |list.nodes| >= 2 && TotalPreorder(cmp)
    modifies list.nodes
    ensures list.Valid()
    ensures StablePermutation(cmp, old(list.Contents()), list.Contents())
    ensures swapped ==> Inversions(cmp, ascending, list.Contents()) < Inversions(cmp, ascending, old(list.Contents()))
    ensures !swapped ==> Ordered(cmp, ascending, list.Contents()) && list.Contents() == old(list.Contents())
  {
    hide *;
    swapped := false;
    var curnode := list.head;
    ghost var k := 0;
    PermutationRefl(cmp, list.Contents());
    NothingOrdered(cmp, ascending, list.Contents());
    list.ValidNodes();
    while curnode.next != null
      invariant list.Valid() && 0 <= k < |list.nodes| && curnode == list.nodes[k]
      invariant StablePermutation(cmp, old(list.Contents()), list.Contents())
      invariant swapped ==>
                  Inversions(cmp, ascending, list.Contents()) < Inversions(cmp, ascending, old(list.Contents()))
      invariant !swapped ==> OrderedUpTo(cmp, ascending, list.Contents(), k) && list.Contents() == old(list.Contents())
      decreases |list.nodes| - k
    {
      list.ValidNodes();
      ghost var before := list.Contents();
      var compareResult := cmp(curnode.payload, curnode.next.payload);
      if ascending {
        compareResult := compareResult * -1;
      }
      OutOfOrderValue(cmp, ascending, before[k], before[k + 1]);
      if compareResult < 0 {
        SwapStep(cmp, ascending, before, k);
        list.SwapWithNext(curnode, k);
        PermutationTrans(cmp, old(list.Contents()), before, list.Contents());
        swapped := true;
      } else if !swapped {
        OneMoreOrdered(cmp, ascending, before, k);
      }
      list.ValidNodes();
      curnode := curnode.next;
      k := k + 1;
    }
    list.ValidNodes();
    if !swapped {
      QuietPass(cmp, ascending, list.Contents());
    }
  }

  class LLIterator<T> {
    const list: LinkedList<T>
    var node: Node?<T>
    ghost var idx: int  // the index of node in the list, or the length of the list

    ghost predicate Valid()
      reads this, list, list.nodes
      ensures Valid() ==> list.Valid() && 0 <= idx <= |list.nodes|
      ensures Valid() && idx < |list.nodes| ==> node == list.nodes[idx]
    {
      && list.Valid() && 0 <= idx <= |list.nodes|
      && node == if idx < |list.nodes| then list.nodes[idx] else null
    }

    constructor (list: LinkedList<T>)
      requires list.Valid()
      ensures Valid() && this.list == list && idx == 0
    {
      this.list := list;
      node := list.head;
      idx := 0;
    }

    method IsValid() returns (b: bool)
      requires Valid()
      ensures b <==> idx < |list.nodes|
    {
      b := node != null;
    }

    method Next() returns (b: bool)
      requires Valid() && idx < |list.nodes|
      modifies this
      ensures Valid() && idx == old(idx) + 1
      ensures b <==> idx < |list.nodes|
    {
      node := node.next;
      idx := idx + 1;
      b := node != null;
    }

    method Get() returns (payload: T)
      requires Valid() && idx < |list.nodes|
      ensures payload == list.Contents()[idx]
    {
      payload := node.payload;
    }

    // Write through the payload pointer that Get returned.
    method Set(payload: T)
      requires Valid() && idx < |list.nodes|
      modifies list.nodes
      ensures Valid() && list.nodes == old(list.nodes)
      ensures list.Contents() == old(list.Contents())[idx := payload]
    {
      hide Distinct, Payloads;
      list.ValidNodes();
      DistinctAt(list.nodes, idx);
      node.payload := payload;
      assert list.Contents() == old(list.Contents())[idx := payload];
    }

    method Rewind()
      requires list.Valid()
      modifies this
      ensures Valid() && idx == 0
    {
      node := list.head;
      idx := 0;
    }

    // Unlink the node.  The iterator moves to the successor, or back to the
    // predecessor when the node was the tail.
    method Remove() returns (b: bool)
      requires Valid() && idx < |list.nodes|
      modifies this, list, list.nodes
      ensures Valid()
      ensures list.Contents() == old(list.Contents()[..idx] + list.Contents()[idx + 1..])
      ensures list.nodes == old(list.nodes[..idx] + list.nodes[idx + 1..])
      ensures idx == if |list.nodes| == 0 then 0 else if old(idx) == |list.nodes| then old(idx) - 1 else old(idx)
      ensures b <==> list.nodes != []
    {
      hide *;
      ghost var nodes, k := list.nodes, idx;
      list.Parts();
      LinkedDistinct(nodes);
      DistinctSplice(nodes, k);
      Unlink(k);
      SpliceEnds(nodes, k, list.head, list.tail, node);
      SpliceLinked(nodes, k);
      SplicePayloads(nodes, k);
      list.numElements := list.numElements - 1;
      list.nodes := nodes[..k] + nodes[k + 1..];
      idx := PlaceAfter(|nodes|, k);
      b := list.numElements != 0;
      list.Intro();
      list.ContentsValue();
      Intro();
    }

    lemma Intro()
      requires list.Valid() && 0 <= idx <= |list.nodes|
      requires node == if idx < |list.nodes| then list.nodes[idx] else null
      ensures Valid()
    {
    }

    // The four cases of Remove, by the place of the node in its list.
    method Unlink(ghost k: nat)
      requires Valid() && k == idx < |list.nodes|
      modifies this`node, list`head, list`tail, list.nodes
      ensures Spliced(list.nodes, k) && Payloads(list.nodes) == old(Payloads(list.nodes))
      ensures var nodes := list.nodes;
              && list.head == (if k > 0 then nodes[0] else if |nodes| > 1 then nodes[1] else null)
              && list.tail == (if k + 1 < |nodes| then nodes[|nodes| - 1] else if k > 0 then nodes[k - 1] else null)
              && node == (if k + 1 < |nodes| then nodes[k + 1] else if k > 0 then nodes[k - 1] else null)
    {
      hide Distinct, Payloads;
      ghost var nodes := list.nodes;
      list.ValidNodes();
      if k > 0 {
        DistinctAt(nodes, k - 1);
      }
      if k + 1 < |nodes| {
        DistinctAt(nodes, k + 1);
      }
      if list.numElements == 1 {
        list.head, list.tail, node := null, null, null;
      } else if node.prev == null {
        assert k == 0 && node.next == nodes[1];
        list.head := node.next;
        list.head.prev := null;
        node := node.next;
      } else if node.next == null {
        assert k == |nodes| - 1 && node.prev == nodes[k - 1];
        list.tail := node.prev;
        list.tail.next := null;
        node := node.prev;
      } else {
        assert node.prev == nodes[k - 1] && node.next == nodes[k + 1];
        node.prev.next := node.next;
        node.next.prev := node.prev;
        node := node.next;
      }
    }
  }

  lemma LinkedDistinct<T>(nodes: seq<Node<T>>)
    requires Linked(nodes)
    ensures Distinct(nodes)
  {
  }

  lemma OutOfOrderValue<T>(cmp: Comparator<T>, ascending: bool, a: T, b: T)
    ensures OutOfOrder(cmp, ascending, a, b) <==> (if ascending then cmp(a, b) * -1 else cmp(a, b)) < 0
  {
  }

  lemma NothingOrdered<T>(cmp: Comparator<T>, ascending: bool, s: seq<T>)
    ensures OrderedUpTo(cmp, ascending, s, 0)
  {
  }

  lemma OneMoreOrdered<T>(cmp: Comparator<T>, ascending: bool, s: seq<T>, k: nat)
    requires k + 1 < |s| && OrderedUpTo(cmp, ascending, s, k) && !OutOfOrder(cmp, ascending, s[k], s[k + 1])
    ensures OrderedUpTo(cmp, ascending, s, k + 1)
  {
  }
}
