/** Model of kern/lib/linkedlist.c: a singly linked list with a tail pointer refines a sequence. noMem tells that
    n_create found no memory. */
module LinkedList {
  import opened Lists

  class Node<T> {
    const data: T
    var next: Node?<T>

    /** n_create */
    constructor (data: T, next: Node?<T>)
      ensures this.data == data && this.next == next
    {
      this.data, this.next := data, next;
    }
  }

  /** Each node once, each leading to the next, and the last to none */
  ghost predicate Chain<T>(nodes: seq<Node<T>>)
    reads nodes
  {
    NoDup(nodes) && forall i :: 0 <= i < |nodes| ==> nodes[i].next == At(nodes, i + 1)
  }

  /** The node in position i, null at the end */
  function At<T>(nodes: seq<Node<T>>, i: nat): Node?<T> { if i < |nodes| then nodes[i] else null }

  function Datas<T>(nodes: seq<Node<T>>): (s: seq<T>)
    ensures |s| == |nodes| && forall i :: 0 <= i < |s| ==> s[i] == nodes[i].data
  {
    seq(|nodes|, i requires 0 <= i < |nodes| => nodes[i].data)
  }

  lemma DatasAdd<T>(nodes: seq<Node<T>>, n: Node<T>)
    ensures Datas(nodes + [n]) == Datas(nodes) + [n.data] && Datas([n] + nodes) == [n.data] + Datas(nodes)
  {
  }

  lemma ChainFront<T>(nodes: seq<Node<T>>, n: Node<T>)
    requires Chain(nodes) && n !in nodes && n.next == At(nodes, 0)
    ensures Chain([n] + nodes)
  {
    forall i | 0 <= i <= |nodes| ensures ([n] + nodes)[i].next == At([n] + nodes, i + 1) {
      if i > 0 { assert ([n] + nodes)[i] == nodes[i - 1]; }
    }
  }

  lemma DatasCut<T>(nodes: seq<Node<T>>)
    requires nodes != []
    ensures Datas(nodes) == Datas(nodes[..|nodes| - 1]) + [nodes[|nodes| - 1].data]
  {
  }

  /** Every node but the last leads to the next. */
  ghost predicate Open<T>(nodes: seq<Node<T>>)
    reads nodes
  {
    NoDup(nodes) && forall i :: 0 <= i < |nodes| - 1 ==> nodes[i].next == At(nodes, i + 1)
  }

  lemma ChainOpen<T>(nodes: seq<Node<T>>)
    requires Chain(nodes)
    ensures Open(nodes)
  {
  }

  lemma ChainBack<T>(nodes: seq<Node<T>>, n: Node<T>)
    requires Open(nodes) && (nodes != [] ==> nodes[|nodes| - 1].next == n) && n !in nodes && n.next == null
    ensures Chain(nodes + [n])
  {
    forall i | 0 <= i <= |nodes| ensures (nodes + [n])[i].next == At(nodes + [n], i + 1) {
      if i < |nodes| - 1 { assert nodes[i].next == At(nodes, i + 1); }
    }
  }

  /** A node leads to the last one exactly if it is the one before it. */
  lemma ChainLast<T>(nodes: seq<Node<T>>, i: nat)
    requires Chain(nodes) && i < |nodes| - 1
    ensures nodes[i].next == nodes[|nodes| - 1] <==> i == |nodes| - 2
  {
  }

  lemma OpenPart<T>(nodes: seq<Node<T>>)
    requires Chain(nodes) && nodes != []
    ensures Open(nodes[..|nodes| - 1])
  {
    var rest := nodes[..|nodes| - 1];
    forall i | 0 <= i < |rest| - 1 ensures rest[i].next == At(rest, i + 1) { assert rest[i] == nodes[i]; }
  }

  lemma ChainCut<T>(nodes: seq<Node<T>>)
    requires Open(nodes) && nodes != [] && nodes[|nodes| - 1].next == null
    ensures Chain(nodes)
  {
  }

  lemma ChainNone<T>()
    ensures Chain<T>([])
  {
  }

  lemma HeadIsTail<T>(nodes: seq<Node<T>>)
    requires Chain(nodes) && nodes != []
    ensures nodes[0] == nodes[|nodes| - 1] <==> |nodes| == 1
  {
  }

  lemma ChainAt<T>(nodes: seq<Node<T>>, i: nat)
    requires Chain(nodes) && i < |nodes|
    ensures nodes[i].next == At(nodes, i + 1)
  {
  }

  /** The elements of s at positions other than those in fails, in order */
  function Copied<T>(s: seq<T>, fails: set<nat>): (r: seq<T>)
    ensures |r| <= |s|
  {
    if s == [] then []
    else Copied(s[..|s| - 1], fails) + if |s| - 1 in fails then [] else [s[|s| - 1]]
  }

  /** ll_copy does not look at what ll_push_back returns: the copy is complete exactly if no push failed. */
  lemma {:induction false} CopiedAll<T>(s: seq<T>, fails: set<nat>)
    ensures |Copied(s, fails)| == |s| <==> forall k: nat :: k < |s| ==> k !in fails
    ensures Copied(s, fails) == s <==> forall k: nat :: k < |s| ==> k !in fails
  {
    if s != [] {
      CopiedAll(s[..|s| - 1], fails);
      assert s == s[..|s| - 1] + [s[|s| - 1]];
    }
  }

  /** The last node is made to lead to n, or to none. */
  method Relink<T>(ghost nodes: seq<Node<T>>, last: Node<T>, n: Node?<T>)
    requires nodes != [] && last == nodes[|nodes| - 1] && Open(nodes)
    modifies last`next
    ensures Open(nodes) && last.next == n
  {
    assert forall i :: 0 <= i < |nodes| - 1 ==> nodes[i] != last && nodes[i].next == At(nodes, i + 1);
    last.next := n;
  }

  class List<T> {
    var head: Node?<T>
    var tail: Node?<T>
    var size: nat
    ghost var nodes: seq<Node<T>>

    ghost predicate Valid()
      reads this, nodes
    {
      && size == |nodes| && Chain(nodes)
      && head == At(nodes, 0) && tail == if nodes == [] then null else nodes[|nodes| - 1]
    }

    ghost function Contents(): seq<T>
      reads this
    {
      Datas(nodes)
    }

    /** ll_create */
    constructor ()
      ensures Valid() && nodes == [] && Contents() == []
    {
      head, tail, size, nodes := null, null, 0, [];
    }

    /** ll_empty */
    method Empty() returns (r: bool)
      requires Valid()
      ensures r <==> Contents() == []
    {
      r := size == 0;
    }

    method Prepend(n: Node<T>)
      requires Valid() && n !in nodes && n.next == null
      modifies this, n
      ensures Valid() && head == n && nodes == [n] + old(nodes)
    {
      hide Chain, NoDup;
      if head == null {
        head, tail := n, n;
      } else {
        n.next := head;
        head := n;
      }
      ChainFront(nodes, n);
      size, nodes := size + 1, [n] + nodes;
    }

    /** ll_push_front */
    method PushFront(x: T, noMem: bool) returns (ok: bool)
      requires Valid()
      modifies this
      ensures Valid() && ok == !noMem
      ensures !ok ==> nodes == old(nodes)
      ensures ok ==> Contents() == [x] + old(Contents())
      ensures ok ==> head != null && fresh(head) && nodes == [head] + old(nodes)
    {
      hide Chain, Datas;
      if noMem { return false; }
      var n := new Node(x, null);
      DatasAdd(nodes, n);
      Prepend(n);
      ok := true;
    }

    method Append(n: Node<T>)
      requires Valid() && n !in nodes && n.next == null
      modifies this, nodes
      ensures Valid() && tail == n && nodes == old(nodes) + [n]
    {
      hide Chain, Open, NoDup;
      ChainOpen(nodes);
      if head == null {
        head, tail := n, n;
      } else {
        Relink(nodes, tail, n);
        tail := n;
      }
      ChainBack(nodes, n);
      size, nodes := size + 1, nodes + [n];
    }

    /** ll_push_back */
    method PushBack(x: T, noMem: bool) returns (ok: bool)
      requires Valid()
      modifies this, nodes
      ensures Valid() && ok == !noMem
      ensures !ok ==> nodes == old(nodes)
      ensures ok ==> Contents() == old(Contents()) + [x]
      ensures ok ==> tail != null && fresh(tail) && nodes == old(nodes) + [tail]
    {
      hide Chain, Datas;
      if noMem { return false; }
      var n := new Node(x, null);
      DatasAdd(nodes, n);
      Append(n);
      ok := true;
    }

    /** ll_pop_front */
    method PopFront() returns (x: T)
      requires Valid() && Contents() != []
      modifies this
      ensures Valid() && old(Contents()) == [x] + Contents() && nodes == old(nodes)[1..]
    {
      var n := head;
      head := n.next;
      if head == null { tail := null; }
      x := n.data;
      size, nodes := size - 1, nodes[1..];
    }

    /** The search for the node before the last, from the head on */
    method BeforeLast() returns (curr: Node<T>)
      requires Valid() && |nodes| >= 2
      ensures curr == nodes[|nodes| - 2]
    {
      hide Chain;
      curr := head;
      ghost var k := 0;
      while curr.next != tail
        invariant 0 <= k < |nodes| - 1 && curr == nodes[k]
        decreases |nodes| - k
      {
        ChainAt(nodes, k);
        ChainLast(nodes, k);
        curr, k := curr.next, k + 1;
      }
      ChainAt(nodes, k);
      ChainLast(nodes, k);
    }

    /** The end of ll_pop_back: curr becomes the last node. */
    method CutAfter(curr: Node<T>)
      requires Valid() && |nodes| >= 2 && curr == nodes[|nodes| - 2]
      modifies this, curr
      ensures Valid() && nodes == old(nodes)[..|old(nodes)| - 1]
    {
      hide Chain, Open;
      ghost var rest := nodes[..|nodes| - 1];
      OpenPart(nodes);
      Relink(rest, curr, null);
      ChainCut(rest);
      tail, size, nodes := curr, size - 1, rest;
    }

    /** ll_pop_back */
    method PopBack() returns (x: T)
      requires Valid() && Contents() != []
      modifies this, nodes
      ensures Valid() && old(Contents()) == Contents() + [x] && nodes == old(nodes)[..|old(nodes)| - 1]
    {
      hide Chain, Datas;
      DatasCut(nodes);
      HeadIsTail(nodes);
      if head == tail {
        x := tail.data;
        head, tail, size, nodes := null, null, 0, [];
        assert Chain(nodes) by { ChainNone<T>(); }
        return;
      }
      var curr := BeforeLast();
      ChainAt(nodes, |nodes| - 2);
      var n := curr.next;
      x := n.data;
      CutAfter(curr);
    }

    /** ll_front, NULL for an empty list */
    method Front() returns (r: Option<T>)
      requires Valid()
      ensures r == if Contents() == [] then None else Some(Contents()[0])
    {
      if size == 0 { return None; }
      r := Some(head.data);
    }

    /** ll_back */
    method Back() returns (r: Option<T>)
      requires Valid()
      ensures r == if Contents() == [] then None else Some(Contents()[|Contents()| - 1])
    {
      if size == 0 { return None; }
      r := Some(tail.data);
    }

    /** ll_copy. fails are the elements for whose copy there is no memory, which it does not notice. */
    method Copy(fails: set<nat>) returns (copy: List<T>)
      requires Valid()
      ensures copy.Valid() && fresh(copy) && fresh(copy.nodes)
      ensures copy.Contents() == Copied(Contents(), fails)
    {
      hide Chain, Datas;
      copy := new List();
      var curr, k := head, 0;
      ghost var s := Contents();
      while curr != null
        invariant 0 <= k <= |nodes| && curr == At(nodes, k)
        invariant copy.Valid() && fresh(copy) && fresh(copy.nodes)
        invariant copy.Contents() == Copied(s[..k], fails)
        decreases |nodes| - k
      {
        var tmp := curr;
        ChainAt(nodes, k);
        curr := curr.next;
        assert s[..k + 1][..k] == s[..k];
        var _ := copy.PushBack(tmp.data, k in fails);
        k := k + 1;
      }
      assert s[..k] == s;
    }

    /** ll_destroy: every node is freed, once, after its link has been read. */
    method Destroy() returns (freed: seq<Node<T>>)
      requires Valid()
      ensures freed == nodes
    {
      freed := [];
      if size != 0 {
        assert head != null;
        var curr := head;
        while curr != null
          invariant |freed| <= |nodes| && freed == nodes[..|freed|]
          invariant curr == At(nodes, |freed|)
          decreases |nodes| - |freed|
        {
          var tmp := curr;
          curr := curr.next;
          freed := freed + [tmp];
        }
      }
    }
  }
}
