/** The intrusive doubly linked list of bidirect_list.c, on real nodes: it refines a sequence. */
module BiList {
  import opened Common

  class Node {
    var data: int
    var next: Node?
    var prev: Node?

    /** bi_list_create_node: zeroed memory. */
    constructor ()
      ensures data == 0 && next == null && prev == null
    {
      data, next, prev := 0, null, null;
    }
  }

  function Reverse<T>(s: seq<T>): (r: seq<T>) {
    if s == [] then [] else Reverse(s[1..]) + [s[0]]
  }

  lemma {:induction false} ReverseAt<T>(s: seq<T>, k: int)
    requires 0 <= k < |s|
    ensures |Reverse(s)| == |s| && Reverse(s)[k] == s[|s| - 1 - k]
  {
    if k < |s| - 1 {
      ReverseAt(s[1..], k);
    } else if 1 < |s| {
      ReverseAt(s[1..], 0);
    }
  }

  /** What removing member k of a list without repetitions leaves, and its two neighbours. */
  lemma Apart<T>(s: seq<T>, k: int)
    requires Distinct(s) && 0 <= k < |s|
    ensures Distinct(s[..k] + s[k + 1..])
    ensures forall i | 0 <= i < |s| ::
              (i != k ==> s[i] != s[k]) && (0 < k && i != k - 1 ==> s[i] != s[k - 1])
              && (k + 1 < |s| && i != k + 1 ==> s[i] != s[k + 1])
    ensures forall i | 0 <= i < |s| - 1 :: (s[..k] + s[k + 1..])[i] == if i < k then s[i] else s[i + 1]
  {
  }

  /** A new member n in front of position k of a list without repetitions. */
  lemma Between<T>(s: seq<T>, k: int, n: T)
    requires Distinct(s) && 0 <= k <= |s| && n !in s
    ensures Distinct(s[..k] + [n] + s[k..])
    ensures forall i | 0 <= i < |s| ::
              (i != k && k < |s| ==> s[i] != s[k]) && (0 < k && i != k - 1 ==> s[i] != s[k - 1])
  {
  }

  class List {
    var head: Node?
    var tail: Node?
    /** The members, front to back. */
    ghost var nodes: seq<Node>

    /** The links of member i lead to its neighbours. */
    ghost predicate Linked(i: int)
      requires 0 <= i < |nodes|
      reads this, nodes
    {
      && nodes[i].next == (if i + 1 < |nodes| then nodes[i + 1] else null)
      && nodes[i].prev == if 0 < i then nodes[i - 1] else null
    }

    ghost predicate Valid()
      reads this, nodes
    {
      && Distinct(nodes)
      && head == (if nodes == [] then null else nodes[0])
      && tail == (if nodes == [] then null else nodes[|nodes| - 1])
      && forall i | 0 <= i < |nodes| :: Linked(i)
    }

    /** init_bi_list */
    constructor ()
      ensures Valid() && nodes == []
    {
      head, tail, nodes := null, null, [];
    }

    /** bi_list_insert_node_tail */
    method InsertTail(node: Node?)
      requires Valid() && (node != null ==> node !in nodes)
      modifies this, nodes, node
      ensures Valid() && nodes == old(nodes) + if node == null then [] else [node]
      ensures forall n | n in nodes :: n.data == old(n.data)
    {
      if node == null {
        return;
      }
      if tail != null {
        assert Linked(|nodes| - 1);
        node.prev := tail;
        tail.next := node;
        tail := node;
        tail.next := null;
      } else {
        head := node;
        tail := node;
        node.next := null;
        node.prev := null;
      }
      nodes := nodes + [node];
      forall i | 0 <= i < |nodes|
        ensures Linked(i)
      {
        assert i < |nodes| - 1 ==> old(Linked(i));
      }
    }

    /** bi_list_insert_node_before; k is the position of the base node. */
    method InsertBefore(base: Node?, node: Node?, ghost k: int)
      requires Valid() && (node != null ==> node !in nodes)
      requires if base == null then k == |nodes| else 0 <= k < |nodes| && nodes[k] == base
      modifies this, nodes, node
      ensures Valid() && nodes == old(nodes[..k]) + (if node == null then [] else [node]) + old(nodes[k..])
      ensures forall n | n in nodes :: n.data == old(n.data)
    {
      if node == null {
        assert nodes == nodes[..k] + nodes[k..];
        return;
      }
      hide Distinct;
      Between(nodes, k, node);
      if base != null {
        assert Linked(k);
        HookBefore(base, node);
        ghost var was := nodes;
        nodes := was[..k] + [node] + was[k..];
        forall i | 0 <= i < |nodes|
          ensures Linked(i)
        {
          assert i != k ==> old(Linked(if i < k then i else i - 1));
          assert i + 1 < |nodes| ==>
              nodes[i + 1] == if i + 1 < k then was[i + 1] else if i + 1 == k then node else was[i];
          assert 0 < i ==> nodes[i - 1] == if i - 1 < k then was[i - 1] else if i - 1 == k then node else was[i - 2];
        }
      } else {
        InsertTail(node);
      }
    }

    /** The two cases in front of a node: behind its predecessor, or at the head. */
    method HookBefore(base: Node, node: Node)
      requires base != node && base.prev != base && base.prev != node
      modifies this`head, base, node, base.prev
      ensures node.next == base && node.prev == old(base.prev) && base.prev == node && base.next == old(base.next)
      ensures head == if old(base.prev) == null then node else old(head)
      ensures var prev := old(base.prev); prev != null ==> prev.next == node && prev.prev == old(base.prev.prev)
      ensures base.data == old(base.data) && node.data == old(node.data)
      ensures old(base.prev) != null ==> old(base.prev).data == old(base.prev.data)
    {
      if base.prev != null {
        var prev := base.prev;
        prev.next := node;
        node.next := base;
        base.prev := node;
        node.prev := prev;
      } else {
        base.prev := node;
        node.next := base;
        head := node;
        node.prev := null;
      }
    }

    /** bi_list_remove_node; k is the position of the node. The links of the node itself are
        left as they are. A node that is in no list, with both links null, is taken for the
        only member: the list then loses all of its members. */
    method Remove(node: Node?, ghost k: int)
      requires Valid()
      requires node != null ==> (0 <= k < |nodes| && nodes[k] == node)
                                || (node !in nodes && node.next == null && node.prev == null)
      modifies this, nodes
      ensures Valid()
      ensures nodes == if node == null then old(nodes)
                       else if node in old(nodes) then old(nodes[..k]) + old(nodes[k + 1..])
                       else []
      ensures node != null ==> node.next == old(node.next) && node.prev == old(node.prev)
      ensures forall n | n in nodes :: n.data == old(n.data)
    {
      if node == null {
        return;
      }
      hide Distinct;
      var next, prev := node.next, node.prev;
      if node in nodes {
        assert Linked(k);
        Apart(nodes, k);
      }
      Unhook(prev, next);
      ghost var was := nodes;
      if node !in nodes {
        nodes := [];
      } else {
        nodes := was[..k] + was[k + 1..];
        forall i | 0 <= i < |nodes|
          ensures Linked(i)
        {
          assert old(Linked(if i < k then i else i + 1));
          assert i + 1 < |nodes| ==> nodes[i + 1] == if i + 1 < k then was[i + 1] else was[i + 2];
          assert 0 < i ==> nodes[i - 1] == if i - 1 < k then was[i - 1] else was[i];
        }
      }
    }

    /** The four cases of removal: the two neighbours are joined to each other, or to the ends
        of the list where there is no neighbour. */
    method Unhook(prev: Node?, next: Node?)
      modifies this`head, this`tail, prev, next
      ensures prev != null ==> prev.next == next && prev.data == old(prev.data)
      ensures next != null ==> next.prev == prev && next.data == old(next.data)
      ensures prev != null && prev != next ==> prev.prev == old(prev.prev)
      ensures next != null && next != prev ==> next.next == old(next.next)
      ensures head == (if prev == null then next else old(head)) && tail == if next == null then prev else old(tail)
    {
      if next == null && prev == null {
        head := null;
        tail := null;
      } else if next == null {
        tail := prev;
        prev.next := null;
      } else if prev == null {
        head := next;
        next.prev := null;
      } else {
        prev.next := next;
        next.prev := prev;
      }
    }

    /** Following `next` from the head. */
    method Forward() returns (s: seq<Node>)
      requires Valid()
      ensures s == nodes
    {
      s := [];
      var n := head;
      while n != null
        invariant |s| <= |nodes| && s == nodes[..|s|]
        invariant n == if |s| < |nodes| then nodes[|s|] else null
        decreases |nodes| - |s|
      {
        assert Linked(|s|);
        s := s + [n];
        n := n.next;
      }
    }

    /** Following `prev` from the tail gives the reverse of following `next` from the head. */
    method Backward() returns (s: seq<Node>)
      requires Valid()
      ensures s == Reverse(nodes)
    {
      s := [];
      var n := tail;
      while n != null
        invariant |s| <= |nodes| && forall i | 0 <= i < |s| :: s[i] == nodes[|nodes| - 1 - i]
        invariant n == if |s| < |nodes| then nodes[|nodes| - 1 - |s|] else null
        decreases |nodes| - |s|
      {
        assert Linked(|nodes| - 1 - |s|);
        s := s + [n];
        n := n.prev;
      }
      if nodes != [] {
        ReverseAt(nodes, 0);
      }
      forall i | 0 <= i < |nodes|
        ensures Reverse(nodes)[i] == s[i]
      {
        ReverseAt(nodes, i);
      }
    }
  }
}
