/** The doubly linked list behind changesets (aodbm_list.c). */
module LinkedList {
  class Node<T> {
    var next: Node?<T>
    var prev: Node?<T>
    const item: T

    /** create_list_node */
    constructor (item: T)
      ensures this.item == item && next == null && prev == null
    {
      this.item := item;
      next, prev := null, null;
    }
  }

  class List<T> {
    var head: Node?<T>
    var tail: Node?<T>
    var len: nat
    ghost var nodes: seq<Node<T>>
    ghost var Repr: set<object>

    /** The nodes are linked in both directions, from head to tail, and counted by len. */
    ghost predicate Valid()
      reads this, Repr
      ensures Valid() ==> this in Repr
    {
      && this in Repr && (forall i :: 0 <= i < |nodes| ==> nodes[i] in Repr)
      && len == |nodes|
      && head == (if nodes == [] then null else nodes[0])
      && tail == (if nodes == [] then null else nodes[|nodes| - 1])
      && (forall i, j :: 0 <= i < j < |nodes| ==> nodes[i] != nodes[j])
      && (nodes != [] ==> nodes[0].prev == null && nodes[|nodes| - 1].next == null)
      && (forall i :: 0 <= i < |nodes| - 1 ==> nodes[i].next == nodes[i + 1] && nodes[i + 1].prev == nodes[i])
    }

    static ghost function Items(ns: seq<Node<T>>): (r: seq<T>)
      ensures |r| == |ns|
    {
      seq(|ns|, i requires 0 <= i < |ns| => ns[i].item)
    }

    /** The items when the nodes from i to j are replaced. */
    static lemma ItemsReplaced(was: seq<Node<T>>, i: nat, now: seq<Node<T>>, j: nat)
      requires i <= j <= |was|
      ensures Items(was[..i] + now + was[j..]) == Items(was)[..i] + Items(now) + Items(was)[j..]
    {
    }

    static lemma OneItem(n: Node<T>)
      ensures Items([n]) == [n.item]
    {
    }

    ghost function Contents(): (r: seq<T>)
      reads this
      ensures |r| == |nodes|
    {
      Items(nodes)
    }

    /** aodbm_list_empty */
    constructor ()
      ensures Valid() && fresh(Repr) && Contents() == []
    {
      head, tail, len, nodes := null, null, 0, [];
      Repr := {this};
    }

    /** aodbm_list_push_front */
    method PushFront(item: T)
      requires Valid()
      modifies Repr
      ensures Valid() && fresh(Repr - old(Repr)) && Contents() == [item] + old(Contents())
    {
      var node := new Node(item);
      if head == null {
        head, tail := node, node;
      } else {
        head.prev := node;
        node.next := head;
        head := node;
      }
      len := len + 1;
      nodes, Repr := [node] + nodes, Repr + {node};
    }

    /** aodbm_list_push_back */
    method PushBack(item: T)
      requires Valid()
      modifies Repr
      ensures Valid() && fresh(Repr - old(Repr)) && Contents() == old(Contents()) + [item]
    {
      var node := new Node(item);
      if head == null {
        head, tail := node, node;
      } else {
        tail.next := node;
        node.prev := tail;
        tail := node;
      }
      len := len + 1;
      nodes, Repr := nodes + [node], Repr + {node};
    }

    /** aodbm_list_pop_front; None for an empty list. */
    method PopFront() returns (out: seq<T>)
      requires Valid()
      modifies Repr
      ensures Valid() && Repr == old(Repr)
      ensures if old(Contents()) == [] then out == [] && Contents() == []
              else [old(Contents())[0]] == out && out + Contents() == old(Contents())
    {
      if head == null {
        return [];
      }
      out := [head.item];
      head := head.next;
      assert head == if |nodes| > 1 then nodes[1] else null;
      if head != null {
        head.prev := null;
      } else {
        tail := null;
      }
      len := len - 1;
      nodes := nodes[1..];
    }

    /** aodbm_list_pop_back; None for an empty list. */
    method PopBack() returns (out: seq<T>)
      requires Valid()
      modifies Repr
      ensures Valid() && Repr == old(Repr)
      ensures if old(Contents()) == [] then out == [] && Contents() == []
              else |out| == 1 && Contents() + out == old(Contents())
    {
      if tail == null {
        return [];
      }
      out := [tail.item];
      tail := tail.prev;
      assert |nodes| > 1 ==> nodes[|nodes| - 2 + 1].prev == nodes[|nodes| - 2];
      assert tail == if |nodes| > 1 then nodes[|nodes| - 2] else null;
      if tail != null {
        tail.next := null;
      } else {
        head := null;
      }
      len := len - 1;
      nodes := nodes[..|nodes| - 1];
    }

    /** aodbm_list_is_empty */
    method IsEmpty() returns (empty: bool)
      requires Valid()
      ensures empty <==> Contents() == []
    {
      return head == null;
    }

    /** aodbm_list_length */
    method Length() returns (n: nat)
      requires Valid()
      ensures n == |Contents()|
    {
      return len;
    }

    /** aodbm_list_merge_di: b's nodes become the end of this list, and b is given up. */
    method Merge(b: List<T>)
      requires Valid() && b.Valid() && Repr !! b.Repr
      modifies Repr, b.Repr
      ensures Valid() && Repr == old(Repr) + (b.Repr - {b})
      ensures Contents() == old(Contents()) + old(b.Contents())
    {
      hide Items;
      ghost var was, rest := nodes, b.nodes;
      if tail != null {
        tail.next := b.head;
      }
      if b.head != null {
        b.head.prev := tail;
      }
      if head == null {
        head := b.head;
      }
      if b.tail != null {
        tail := b.tail;
      }
      len := len + b.len;
      nodes, Repr := was + rest, Repr + (b.Repr - {b});
      ItemsReplaced(was, |was|, rest, |was|);
      assert was[..|was|] + rest + was[|was|..] == was + rest;
    }

    /** The pointer changes of aodbm_list_remove at node i. */
    method Unlink(cur: Node<T>, ghost i: nat) returns (next: Node?<T>, prev: Node?<T>)
      requires Valid() && i < |nodes| && nodes[i] == cur
      modifies Repr
      ensures Valid() && Repr == old(Repr) && nodes == old(nodes)[..i] + old(nodes)[i + 1..]
      ensures next == if i + 1 < |old(nodes)| then old(nodes)[i + 1] else null
      ensures prev == if i > 0 then old(nodes)[i - 1] else null
    {
      ghost var was, n := nodes, |nodes|;
      assert i + 1 < n ==> was[i].next == was[i + 1];
      assert i > 0 ==> was[i - 1 + 1].prev == was[i - 1];
      next, prev := cur.next, cur.prev;
      if prev != null {
        prev.next := next;
      } else {
        head := next;
      }
      if next != null {
        next.prev := prev;
      } else {
        tail := prev;
      }
      len := len - 1;
      nodes := was[..i] + was[i + 1..];
    }

    /** The pointer changes of aodbm_list_insert behind node i. */
    method LinkBehind(cur: Node<T>, node: Node<T>, ghost i: nat)
      requires Valid() && i < |nodes| && nodes[i] == cur
      requires node !in Repr && node.next == null && node.prev == null
      modifies Repr, node
      ensures Repr == old(Repr) + {node} && nodes == old(nodes)[..i + 1] + [node] + old(nodes)[i + 1..]
      ensures Valid() <==> i + 1 != |old(nodes)|
      ensures i + 1 == |old(nodes)| ==> tail != null && tail.next != null
    {
      ghost var was := nodes;
      assert i + 1 < |was| ==> was[i].next == was[i + 1];
      var next := cur.next;
      if next != null {
        next.prev := node;
      }
      node.next := next;
      node.prev := cur;
      cur.next := node;
      nodes := was[..i + 1] + [node] + was[i + 1..];
      len := len + 1;
      Repr := Repr + {node};
      if i + 1 == |was| {
        assert tail == was[i] && nodes[i + 1] == node;
      }
    }
  }

  /** A position in a list; pos is ghost, and lies outside the list when the iterator is finished. */
  class ListIterator<T> {
    var cur: Node?<T>
    const list: List<T>
    ghost var pos: int

    ghost predicate Valid()
      reads this, list, list.Repr
    {
      && list.Valid() && this !in list.Repr && -1 <= pos <= |list.nodes|
      && cur == (if 0 <= pos < |list.nodes| then list.nodes[pos] else null)
    }

    /** aodbm_list_begin */
    constructor Begin(list: List<T>)
      requires list.Valid()
      ensures Valid() && this.list == list && pos == 0
    {
      this.list := list;
      cur := list.head;
      pos := 0;
    }

    /** aodbm_list_back */
    constructor Back(list: List<T>)
      requires list.Valid()
      ensures Valid() && this.list == list && pos == |list.Contents()| - 1
    {
      this.list := list;
      cur := list.tail;
      pos := |list.nodes| - 1;
    }

    /** aodbm_list_iterator_next */
    method Next()
      requires Valid()
      modifies this
      ensures Valid() && pos == if 0 <= old(pos) < |list.Contents()| then old(pos) + 1 else old(pos)
    {
      if cur == null {
        return;
      }
      assert pos + 1 < |list.nodes| ==> list.nodes[pos].next == list.nodes[pos + 1];
      cur := cur.next;
      pos := pos + 1;
    }

    /** aodbm_list_iterator_prev */
    method Prev()
      requires Valid()
      modifies this
      ensures Valid() && pos == if 0 <= old(pos) < |list.Contents()| then old(pos) - 1 else old(pos)
    {
      if cur == null {
        return;
      }
      assert pos > 0 ==> list.nodes[pos - 1 + 1].prev == list.nodes[pos - 1];
      cur := cur.prev;
      pos := pos - 1;
    }

    /** aodbm_list_iterator_is_finished */
    method IsFinished() returns (finished: bool)
      requires Valid()
      ensures finished <==> !(0 <= pos < |list.Contents()|)
    {
      return cur == null;
    }

    /** aodbm_list_iterator_get */
    method Get() returns (item: T)
      requires Valid() && 0 <= pos < |list.Contents()|
      ensures item == list.Contents()[pos]
    {
      return cur.item;
    }

    /** aodbm_list_remove: takes out the item at the position, which moves to the item behind it, or
        to the last item if there is none behind. */
    method Remove()
      requires Valid()
      modifies this, list.Repr
      ensures Valid() && list.Repr == old(list.Repr)
      ensures var was := old(list.Contents());
        if 0 <= old(pos) < |was| then
          && list.Contents() == was[..old(pos)] + was[old(pos) + 1..]
          && pos == if old(pos) + 1 < |was| then old(pos) else old(pos) - 1
        else list.Contents() == was && pos == old(pos)
    {
      hide List.Items;
      if cur != null {
        ghost var was := list.nodes;
        List.ItemsReplaced(was, pos, [], pos + 1);
        assert was[..pos] + [] + was[pos + 1..] == was[..pos] + was[pos + 1..];
        var next, prev := list.Unlink(cur, pos);
        if next != null {
          cur := next;
        } else {
          cur := prev;
        }
        pos := if pos + 1 < |was| then pos else pos - 1;
      }
    }

    /** aodbm_list_insert: puts item behind the position, and gives up at a finished iterator unless the
        list is empty.  Behind the last item the code leaves tail where it was, so the list is then no
        longer well formed, whatever its nodes are taken to be. */
    method Insert(item: T) returns (ok: bool)
      requires Valid()
      modifies this, list.Repr
      ensures var was := old(list.Contents());
        && (ok <==> was == [] || 0 <= old(pos) < |was|)
        && (!ok ==> list.Contents() == was)
        && (list.Valid() <==> !ok || was == [] || old(pos) + 1 != |was|)
        && (ok && was != [] && old(pos) + 1 == |was| ==> list.tail != null && list.tail.next != null)
      ensures ok && list.Valid() ==>
        var was := old(list.Contents());
        list.Contents() == if was == [] then [item] else was[..old(pos) + 1] + [item] + was[old(pos) + 1..]
    {
      hide List.Items;
      var node := new Node(item);
      ghost var was := list.nodes;
      List.OneItem(node);
      ok := true;
      if cur != null {
        List.ItemsReplaced(was, pos + 1, [node], pos + 1);
        list.LinkBehind(cur, node, pos);
      } else if list.head != null {
        ok := false;
      } else {
        list.head := node;
        list.tail := node;
        list.nodes := [node];
        list.len := list.len + 1;
        list.Repr := list.Repr + {node};
      }
    }
  }

  /** The failing input of aodbm_list_insert: in a list of one item, behind that item. */
  method InsertBehindOnlyItem<T>(first: T, second: T) returns (list: List<T>)
    ensures fresh(list) && !list.Valid() && list.tail != null && list.tail.next != null
  {
    list := new List();
    list.PushBack(first);
    var it := new ListIterator.Begin(list);
    var ok := it.Insert(second);
  }
}
