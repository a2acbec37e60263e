/**
 * The doubly linked list of strings (LinkedList.cs). Nodes are added at the
 * front; `length` counts every node ever added and is not lowered when nodes
 * are removed, so it is an upper bound on the number of nodes, not their
 * number. The operations that dereference a null node in the source end in
 * `NullReference` here, with the list left as it was (every such dereference
 * happens before the first write).
 */
module LinkedLists {
  import opened Options

  /** How a call ends: it returns a value, or it throws on a null node. */
  datatype Run<+T> = Returned(value: T) | NullReference

  class LLNode {
    const key: string
    var next: LLNode?
    var prev: LLNode?

    constructor (key: string)
      ensures this.key == key && next == null && prev == null
    {
      this.key := key;
      next := null;
      prev := null;
    }
  }

  /** The keys of a chain of nodes, in order. */
  ghost function KeysOf(nodes: seq<LLNode>): seq<string>
    ensures |KeysOf(nodes)| == |nodes|
    ensures forall i :: 0 <= i < |nodes| ==> KeysOf(nodes)[i] == nodes[i].key
  {
    if nodes == [] then [] else [nodes[0].key] + KeysOf(nodes[1..])
  }

  /** No node occurs twice. */
  ghost predicate Distinct(nodes: seq<LLNode>)
  {
    forall i, j :: 0 <= i < j < |nodes| ==> nodes[i] != nodes[j]
  }

  lemma DistinctCons(node: LLNode, nodes: seq<LLNode>)
    requires Distinct(nodes) && node !in nodes
    ensures Distinct([node] + nodes)
  {
  }

  lemma KeysCons(node: LLNode, nodes: seq<LLNode>)
    ensures KeysOf([node] + nodes) == [node.key] + KeysOf(nodes)
  {
    assert ([node] + nodes)[1..] == nodes;
  }

  class LinkedList {
    var head: LLNode?
    var length: int
    /** The nodes reachable from `head`, in order. */
    ghost var Nodes: seq<LLNode>
    ghost var Repr: set<object>

    ghost predicate Valid()
      reads this, Repr
    {
      && this in Repr
      && (forall i :: 0 <= i < |Nodes| ==> Nodes[i] in Repr)
      && head == (if Nodes == [] then null else Nodes[0])
      && (forall i :: 0 < i < |Nodes| ==> Nodes[i - 1].next == Nodes[i] && Nodes[i].prev == Nodes[i - 1])
      && (Nodes != [] ==> Nodes[0].prev == null && Nodes[|Nodes| - 1].next == null)
      && Distinct(Nodes)
      && |Nodes| <= length
    }

    /** The keys in the list, head first. */
    ghost function Keys(): seq<string>
      reads this
    {
      KeysOf(Nodes)
    }

    constructor ()
      ensures Valid() && fresh(Repr) && Keys() == [] && length == 0
    {
      head := null;
      length := 0;
      Nodes := [];
      Repr := {this};
    }

    /** isEmpty: the list is empty exactly when it holds no keys (whatever
        `length` says). */
    function IsEmpty(): (empty: bool)
      requires Valid()
      reads this, Repr
      ensures empty <==> Keys() == []
    {
      head == null
    }

    /** listLength: the counter, which never falls below the number of keys. */
    function ListLength(): (n: int)
      requires Valid()
      reads this, Repr
      ensures |Keys()| <= n
      ensures IsEmpty() ==> 0 <= n
    {
      length
    }

    /** addNode: the new key goes in front and the counter grows by one; the
        old head, if any, now points back at the new node. */
    method AddNode(key: string)
      requires Valid()
      modifies Repr
      ensures Valid() && forall o :: o in Repr && o !in old(Repr) ==> fresh(o)
      ensures Keys() == [key] + old(Keys())
      ensures length == old(length) + 1
      ensures Nodes == [head] + old(Nodes)
      ensures old(head) != null ==> old(head).prev == head
    {
      length := length + 1;
      var newNode := new LLNode(key);
      LinkFront(newNode);
      KeysCons(newNode, old(Nodes));
    }

    /** The linking half of addNode: the old head points back at the new
        node, which points forward at the old head and becomes the head. */
    method LinkFront(newNode: LLNode)
      requires Valid() && |Nodes| < length
      requires newNode !in Repr && newNode.prev == null
      modifies Repr, newNode
      ensures Valid() && Repr == old(Repr) + {newNode} && length == old(length)
      ensures Nodes == [newNode] + old(Nodes) && head == newNode
      ensures old(head) != null ==> old(head).prev == newNode
    {
      ghost var ns := Nodes;
      assert newNode !in ns;
      if head != null {
        head.prev := newNode;
      }
      newNode.next := head;
      head, Nodes, Repr := newNode, [newNode] + ns, Repr + {newNode};
      forall i | 0 < i < |Nodes|
        ensures Nodes[i - 1].next == Nodes[i] && Nodes[i].prev == Nodes[i - 1]
      {
        if i > 1 {
          assert Nodes[i - 1] == ns[i - 2] && Nodes[i] == ns[i - 1];
        }
      }
      DistinctCons(newNode, ns);
    }

    /** deleteList: drops every node but leaves the counter as it was. */
    method DeleteList()
      requires Valid()
      modifies this
      ensures Valid() && Repr == old(Repr)
      ensures Keys() == [] && length == old(length)
    {
      head := null;
      Nodes := [];
    }

    /**
     * getKey as written: out of bounds (below 0 or not below the counter) it
     * returns null. Within bounds its loop never advances its counter, so
     * every index above 0 walks off the end of the list; index 0 gives the
     * head's key, or throws when the list was emptied while the counter
     * stayed up.
     */
    method GetKey(index: int) returns (r: Run<Option<string>>)
      requires Valid()
      ensures index < 0 || length <= index ==> r == Returned(None)
      ensures index == 0 < length && Keys() != [] ==> r == Returned(Some(Keys()[0]))
      ensures index == 0 < length && Keys() == [] ==> r == NullReference
      ensures 0 < index < length ==> r == NullReference
    {
      var walker: LLNode? := null;
      var i := 0;
      if index < length && index > -1 {
        walker := head;
        ghost var pos := 0;
        while i != index
          invariant i == 0 && 0 <= pos <= |Nodes| && (index == 0 ==> pos == 0)
          invariant walker == (if pos < |Nodes| then Nodes[pos] else null)
          decreases |Nodes| - pos
        {
          if walker == null {
            return NullReference;
          }
          walker := walker.next;
          pos := pos + 1;
        }
        if walker == null {
          return NullReference;
        }
        return Returned(Some(walker.key));
      }
      return Returned(None);
    }

    /** getKey with the counter advanced on each step: within the list it
        returns the key at the index; between the last node and the counter it
        still walks off the end. */
    method GetKeyAdvancing(index: int) returns (r: Run<Option<string>>)
      requires Valid()
      ensures index < 0 || length <= index ==> r == Returned(None)
      ensures 0 <= index < |Keys()| ==> r == Returned(Some(Keys()[index]))
      ensures |Keys()| <= index < length ==> r == NullReference
    {
      var walker: LLNode? := null;
      var i := 0;
      if index < length && index > -1 {
        walker := head;
        while i != index
          invariant 0 <= i <= |Nodes| && i <= index
          invariant walker == (if i < |Nodes| then Nodes[i] else null)
          decreases |Nodes| - i
        {
          if walker == null {
            return NullReference;
          }
          walker := walker.next;
          i := i + 1;
        }
        if walker == null {
          return NullReference;
        }
        return Returned(Some(walker.key));
      }
      return Returned(None);
    }

    /** The walk of deleteNode: advances from the head until the position
        equals the index, and reports `false` when it has to step past the
        last node (an index below 0 or beyond the nodes). */
    method WalkTo(index: int) returns (reached: bool, walker: LLNode?)
      requires Valid() && head != null
      ensures reached <==> 0 <= index <= |Nodes|
      ensures reached ==> walker == (if index < |Nodes| then Nodes[index] else null)
    {
      walker := head;
      var pos := 0;
      while pos != index
        invariant 0 <= pos <= |Nodes|
        invariant index >= 0 ==> pos <= index
        invariant walker == (if pos < |Nodes| then Nodes[pos] else null)
        decreases |Nodes| - pos
      {
        if walker == null {
          return false, null;
        }
        walker := walker.next;
        pos := pos + 1;
      }
      reached := true;
    }

    /** Unlinks a node other than the head: its predecessor skips it and its
        successor, if any, points back at the predecessor. */
    method Unlink(walker: LLNode, ghost index: int)
      requires Valid() && 0 < index < |Nodes| && walker == Nodes[index]
      modifies Repr
      ensures Valid() && Repr == old(Repr) && length == old(length)
      ensures Nodes == old(Nodes[..index] + Nodes[index + 1..])
    {
      ghost var ns := Nodes;
      var before, after := walker.prev, walker.next;
      assert before == ns[index - 1];
      assert after == if index + 1 < |ns| then ns[index + 1] else null;
      before.next := after;
      if after != null {
        after.prev := before;
      }
      Nodes := ns[..index] + ns[index + 1..];
      forall i | 0 <= i < |Nodes|
        ensures Nodes[i] == (if i < index then ns[i] else ns[i + 1])
      {
      }
      forall i | 0 < i < |Nodes|
        ensures Nodes[i - 1].next == Nodes[i] && Nodes[i].prev == Nodes[i - 1]
      {
        if i < index {
          assert ns[i - 1].next == old(ns[i - 1].next) == ns[i];
        } else if i > index {
          assert ns[i].next == old(ns[i].next) == ns[i + 1];
        }
      }
    }

    /** Drops the head of a list with at least two nodes. */
    method DropHead()
      requires Valid() && |Nodes| >= 2
      modifies Repr
      ensures Valid() && Repr == old(Repr) && length == old(length)
      ensures Nodes == old(Nodes[1..])
    {
      ghost var ns := Nodes;
      var second := head.next;
      assert second == ns[1];
      second.prev := null;
      head := second;
      Nodes := ns[1..];
      forall i | 0 < i < |Nodes|
        ensures Nodes[i - 1].next == Nodes[i] && Nodes[i].prev == Nodes[i - 1]
      {
        assert Nodes[i - 1] == ns[i] && Nodes[i] == ns[i + 1];
      }
    }

    /**
     * deleteNode as written. On an empty list or an index not below the
     * counter it only logs. Otherwise it removes the node at the index,
     * except that it throws when the walk steps past the last node (an index
     * below 0, or one the stale counter admits beyond the nodes) and when
     * the index is 0 on a one-node list, whose head has no successor to
     * update. The counter is never lowered.
     */
    method DeleteNode(index: int) returns (r: Run<bool>)
      requires Valid()
      modifies Repr
      ensures Valid() && Repr == old(Repr) && length == old(length)
      ensures old(head == null) || length <= index ==> r == Returned(false) && Nodes == old(Nodes)
      ensures old(head != null) && index < length && (index < 0 || |old(Nodes)| <= index) ==>
                r == NullReference && Nodes == old(Nodes)
      ensures index == 0 && |old(Nodes)| == 1 ==> r == NullReference && Nodes == old(Nodes)
      ensures 0 <= index < |old(Nodes)| && !(index == 0 && |old(Nodes)| == 1) ==>
                r == Returned(true) && Nodes == old(Nodes[..index] + Nodes[index + 1..])
    {
      if head != null && index < length {
        var reached, walker := WalkTo(index);
        if !reached {
          return NullReference;
        }
        if walker == head {
          assert head.next == if |Nodes| > 1 then Nodes[1] else null;
          if head.next == null {
            return NullReference;
          }
          DropHead();
          assert Nodes == old(Nodes[..index] + Nodes[index + 1..]);
        } else {
          if walker == null {
            return NullReference;
          }
          Unlink(walker, index);
        }
        return Returned(true);
      }
      return Returned(false);
    }

    /** deleteNode with the head case guarded: removing the only node empties
        the list. Every index within the list is then removed. */
    method DeleteNodeGuarded(index: int) returns (r: Run<bool>)
      requires Valid()
      modifies Repr
      ensures Valid() && Repr == old(Repr) && length == old(length)
      ensures old(head == null) || length <= index ==> r == Returned(false) && Nodes == old(Nodes)
      ensures old(head != null) && index < length && (index < 0 || |old(Nodes)| <= index) ==>
                r == NullReference && Nodes == old(Nodes)
      ensures 0 <= index < |old(Nodes)| ==>
                r == Returned(true) && Nodes == old(Nodes[..index] + Nodes[index + 1..])
    {
      if head != null && index < length {
        var reached, walker := WalkTo(index);
        if !reached {
          return NullReference;
        }
        if walker == head {
          assert head.next == if |Nodes| > 1 then Nodes[1] else null;
          if head.next == null {
            head := null;
            Nodes := [];
          } else {
            DropHead();
          }
          assert Nodes == old(Nodes[..index] + Nodes[index + 1..]);
        } else {
          if walker == null {
            return NullReference;
          }
          Unlink(walker, index);
        }
        return Returned(true);
      }
      return Returned(false);
    }
  }

  /** A two-key list: the source's getKey throws on index 1, the advancing
      walk returns the key stored there. */
  method SecondKeyAsWritten() returns (r: Run<Option<string>>)
    ensures r == NullReference
  {
    var list := new LinkedList();
    list.AddNode("a");
    list.AddNode("b");
    r := list.GetKey(1);
  }

  method SecondKeyAdvancing() returns (r: Run<Option<string>>)
    ensures r == Returned(Some("a"))
  {
    var list := new LinkedList();
    list.AddNode("a");
    list.AddNode("b");
    r := list.GetKeyAdvancing(1);
  }

  /** A one-key list: the source's deleteNode throws on index 0, the guarded
      head case empties the list. */
  method OnlyNodeAsWritten() returns (r: Run<bool>)
    ensures r == NullReference
  {
    var list := new LinkedList();
    list.AddNode("a");
    r := list.DeleteNode(0);
  }

  method OnlyNodeGuarded() returns (r: Run<bool>, empty: bool)
    ensures r == Returned(true) && empty
  {
    var list := new LinkedList();
    list.AddNode("a");
    r := list.DeleteNodeGuarded(0);
    empty := list.IsEmpty();
  }
}
