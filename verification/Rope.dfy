/** The rope in which blocks are laid out before they are written: a linked list of byte strings
    with a pointer to its last node (aodbm_rope.c). */
module RopeStructure {
  import opened Bytes

  ghost function Concat(chunks: seq<Bytes>): Bytes {
    if chunks == [] then [] else Concat(chunks[..|chunks| - 1]) + chunks[|chunks| - 1]
  }

  lemma ConcatMore(a: seq<Bytes>, d: Bytes)
    ensures Concat(a + [d]) == Concat(a) + d
  {
    assert (a + [d])[..|a|] == a;
  }

  lemma {:induction false} ConcatAppend(a: seq<Bytes>, b: seq<Bytes>)
    ensures Concat(a + b) == Concat(a) + Concat(b)
  {
    if b == [] {
      assert a + b == a;
    } else {
      hide Concat;
      var rest, last := b[..|b| - 1], b[|b| - 1];
      ConcatAppend(a, rest);
      ConcatMore(rest, last);
      ConcatMore(a + rest, last);
      assert b == rest + [last] && a + b == (a + rest) + [last];
      assert Concat(a) + (Concat(rest) + last) == (Concat(a) + Concat(rest)) + last;
    }
  }

  /** How far a walk over the pieces is after one more of them. */
  lemma ConcatNext(a: seq<Bytes>, i: nat)
    requires i < |a|
    ensures Concat(a[..i + 1]) == Concat(a[..i]) + a[i] && |Concat(a[..i + 1])| <= |Concat(a)|
  {
    hide Concat;
    assert a[..i + 1] == a[..i] + [a[i]] && a == a[..i + 1] + a[i + 1..];
    ConcatMore(a[..i], a[i]);
    ConcatAppend(a[..i + 1], a[i + 1..]);
  }

  lemma NoPieces(a: seq<Bytes>)
    ensures Concat(a[..0]) == []
  {
  }

  lemma ConcatOne(d: Bytes)
    ensures Concat([d]) == d
  {
    assert [d][..0] == [];
    assert [] + d == d;
  }

  class RopeNode {
    const dat: Bytes
    var next: RopeNode?

    constructor (dat: Bytes)
      ensures this.dat == dat && next == null
    {
      this.dat := dat;
      next := null;
    }
  }

  class Rope {
    var first: RopeNode
    var last: RopeNode
    ghost var nodes: seq<RopeNode>
    ghost var Contents: Bytes
    ghost var Repr: set<object>

    ghost predicate Valid()
      reads this, Repr
      ensures Valid() ==> this in Repr
    {
      && this in Repr && (forall i :: 0 <= i < |nodes| ==> nodes[i] in Repr)
      && nodes != []
      && first == nodes[0] && last == nodes[|nodes| - 1] && last.next == null
      && (forall i :: 0 <= i < |nodes| - 1 ==> nodes[i].next == nodes[i + 1])
      && (forall i, j :: 0 <= i < j < |nodes| ==> nodes[i] != nodes[j])
      && Contents == Concat(Chunks(nodes))
    }

    static ghost function Chunks(nodes: seq<RopeNode>): (c: seq<Bytes>)
      ensures |c| == |nodes|
    {
      seq(|nodes|, i requires 0 <= i < |nodes| => nodes[i].dat)
    }

    /** aodbm_data_to_rope_di */
    constructor (dat: Bytes)
      ensures Valid() && fresh(Repr) && Contents == dat
    {
      var node := new RopeNode(dat);
      first, last := node, node;
      nodes, Contents, Repr := [node], dat, {this, node};
      new;
      assert Chunks(nodes) == [dat];
      ConcatOne(dat);
    }

    /** aodbm_rope_empty */
    constructor Empty()
      ensures Valid() && fresh(Repr) && Contents == []
    {
      var node := new RopeNode([]);
      first, last := node, node;
      nodes, Contents, Repr := [node], [], {this, node};
      new;
      assert Chunks(nodes) == [[]];
      ConcatOne([]);
    }

    /** aodbm_data2_to_rope_di */
    constructor Two(a: Bytes, b: Bytes)
      ensures Valid() && fresh(Repr) && Contents == a + b
    {
      var node := new RopeNode(a);
      first, last := node, node;
      nodes, Contents, Repr := [node], a, {this, node};
      new;
      assert Chunks(nodes) == [a];
      ConcatOne(a);
      Append(b);
    }

    /** aodbm_rope_append_di */
    method Append(dat: Bytes)
      requires Valid()
      modifies Repr
      ensures Valid() && fresh(Repr - old(Repr))
      ensures Contents == old(Contents) + dat
    {
      var node := new RopeNode(dat);
      last.next := node;
      last := node;
      ghost var was := nodes;
      nodes, Contents, Repr := nodes + [node], Contents + dat, Repr + {node};
      assert Chunks(nodes) == Chunks(was) + [dat];
      ConcatAppend(Chunks(was), [dat]);
      ConcatOne(dat);
    }

    /** aodbm_rope_prepend_di */
    method Prepend(dat: Bytes)
      requires Valid()
      modifies Repr
      ensures Valid() && fresh(Repr - old(Repr))
      ensures Contents == dat + old(Contents)
    {
      var node := new RopeNode(dat);
      node.next := first;
      first := node;
      ghost var was := nodes;
      nodes, Contents, Repr := [node] + nodes, dat + Contents, Repr + {node};
      assert Chunks(nodes) == [dat] + Chunks(was);
      ConcatAppend([dat], Chunks(was));
      ConcatOne(dat);
    }

    /** aodbm_rope_merge_di: b's nodes become the tail of this rope, and b is given up. */
    method Merge(b: Rope)
      requires Valid() && b.Valid() && Repr !! b.Repr
      modifies Repr
      ensures Valid() && Repr == old(Repr) + (b.Repr - {b})
      ensures Contents == old(Contents) + old(b.Contents)
    {
      hide Concat, Chunks;
      ghost var was, rest := nodes, b.nodes;
      Disjoint(was, Repr, rest, b.Repr);
      assert last in was && last !in rest;
      last.next := b.first;
      last := b.last;
      nodes, Contents, Repr := was + rest, Contents + b.Contents, Repr + (b.Repr - {b});
      ChunksAppend(was, rest);
      ConcatAppend(Chunks(was), Chunks(rest));
      assert forall i :: 0 <= i < |rest| - 1 ==> rest[i].next == rest[i + 1];
      assert forall i :: 0 <= i < |was| - 1 ==> was[i].next == was[i + 1];
    }

    static lemma ChunksAppend(a: seq<RopeNode>, b: seq<RopeNode>)
      ensures Chunks(a + b) == Chunks(a) + Chunks(b)
    {
    }

    static lemma Disjoint(a: seq<RopeNode>, aRepr: set<object>, b: seq<RopeNode>, bRepr: set<object>)
      requires forall i :: 0 <= i < |a| ==> a[i] in aRepr
      requires forall i :: 0 <= i < |b| ==> b[i] in bRepr
      requires aRepr !! bRepr
      requires forall i, j :: 0 <= i < j < |a| ==> a[i] != a[j]
      requires forall i, j :: 0 <= i < j < |b| ==> b[i] != b[j]
      ensures forall i, j :: 0 <= i < j < |a + b| ==> (a + b)[i] != (a + b)[j]
    {
    }

    static lemma ChunkAt(nodes: seq<RopeNode>, i: nat)
      requires i < |nodes|
      ensures Chunks(nodes)[i] == nodes[i].dat
    {
    }

    /** aodbm_rope_size */
    method Size() returns (sz: nat)
      requires Valid()
      ensures sz == |Contents|
    {
      hide Concat, Chunks;
      sz := 0;
      var it: RopeNode? := first;
      ghost var i := 0;
      ghost var chunks := Chunks(nodes);
      NoPieces(chunks);
      while it != null
        invariant 0 <= i <= |nodes|
        invariant it == if i < |nodes| then nodes[i] else null
        invariant sz == |Concat(chunks[..i])|
        decreases |nodes| - i
      {
        ConcatNext(chunks, i);
        ChunkAt(nodes, i);
        sz := sz + |it.dat|;
        it := it.next;
        i := i + 1;
      }
      assert chunks[..i] == chunks;
    }

    /** memcpy of dat to buf + pos */
    static method CopyInto(buf: array<byte>, pos: nat, dat: Bytes)
      requires pos + |dat| <= buf.Length
      modifies buf
      ensures buf[..pos + |dat|] == old(buf[..pos]) + dat
    {
      forall k | 0 <= k < |dat| {
        buf[pos + k] := dat[k];
      }
    }

    /** aodbm_rope_to_data */
    method ToData() returns (dat: Bytes)
      requires Valid()
      ensures dat == Contents
    {
      hide Concat, Chunks;
      var sz := Size();
      var buf := new byte[sz];
      var pos := 0;
      var it: RopeNode? := first;
      ghost var i := 0;
      ghost var chunks := Chunks(nodes);
      NoPieces(chunks);
      while it != null
        invariant 0 <= i <= |nodes| == |chunks|
        invariant it == if i < |nodes| then nodes[i] else null
        invariant pos == |Concat(chunks[..i])| <= sz
        invariant buf[..pos] == Concat(chunks[..i])
        decreases |nodes| - i
      {
        ConcatNext(chunks, i);
        ChunkAt(nodes, i);
        CopyInto(buf, pos, it.dat);
        pos := pos + |it.dat|;
        it := it.next;
        i := i + 1;
      }
      assert chunks[..i] == chunks && pos == buf.Length;
      assert buf[..pos] == buf[..];
      return buf[..];
    }
  }
}
