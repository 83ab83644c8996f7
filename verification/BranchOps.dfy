/** Rebuilding a branch in ropes (branch, add_to_branches and modify_branch in aodbm.c). */
module BranchOps {
  import opened Bytes
  import opened Data
  import opened RopeStructure
  import opened Format
  import opened LeafOps

  lemma BodyBytesMore(ss: seq<Slot>, s: Slot)
    ensures BodyBytes(ss + [s]) == if ss == [] then Enc64(s.off) else BodyBytes(ss) + SlotBytes(s)
  {
    hide Enc64, SlotBytes;
    if ss == [] {
      assert BodyBytes([s]) == Enc64(s.off) + SlotsBytes([]);
    } else {
      assert (ss + [s])[1..] == ss[1..] + [s];
      SlotsBytesAppend(ss[1..], [s]);
      assert SlotsBytes([s]) == SlotBytes(s) + [];
    }
  }

  lemma BodyBytesMerge(a: seq<Slot>, b: seq<Slot>)
    requires a != [] && b != []
    ensures BodyBytes(a + b) == BodyBytes(a) + BlockBytes(b[0].key) + BodyBytes(b)
  {
    hide Enc64, BlockBytes, SlotsBytes;
    var first, rest := Enc64(a[0].off), SlotsBytes(a[1..]);
    assert (a + b)[1..] == a[1..] + b;
    SlotsBytesAppend(a[1..], b);
    SlotsBytesFirst(b);
    assert BodyBytes(a + b) == first + (rest + (BlockBytes(b[0].key) + BodyBytes(b)));
    assert BodyBytes(a) == first + rest;
  }

  lemma SlotsBytesFirst(b: seq<Slot>)
    requires b != []
    ensures SlotsBytes(b) == BlockBytes(b[0].key) + BodyBytes(b)
  {
    hide Enc64, BlockBytes;
    assert SlotsBytes(b) == BlockBytes(b[0].key) + Enc64(b[0].off) + SlotsBytes(b[1..]);
  }

  /** A branch under construction: the children added so far, and the key of the first. */
  class BranchBuilder {
    var data: Rope?
    var key: Option<Bytes>
    var sz: nat
    ghost var slots: seq<Slot>
    ghost var Repr: set<object>

    ghost predicate Valid()
      reads this, Repr
      ensures Valid() ==> this in Repr && sz == |slots|
    {
      && this in Repr && sz == |slots|
      && (slots == [] ==> key == None)
      && (slots != [] ==>
        && key == Some(slots[0].key)
        && data != null && data in Repr && data.Repr <= Repr && this !in data.Repr
        && data.Valid() && data.Contents == BodyBytes(slots))
    }

    /** branch_init */
    constructor ()
      ensures Valid() && fresh(Repr) && slots == []
    {
      data, key, sz, slots, Repr := null, None, 0, [], {this};
    }

    /** add_to_branch_di */
    method Add(key: Bytes, off: nat)
      requires Valid()
      modifies Repr
      ensures Valid() && fresh(Repr - old(Repr))
      ensures slots == old(slots) + [Slot(key, off)]
    {
      hide BodyBytes, BlockBytes, Enc64, Rope.Valid;
      BodyBytesMore(slots, Slot(key, off));
      var dOff := Enc64(off);
      if this.key == None {
        this.key := Some(key);
        data := new Rope(dOff);
      } else {
        var rec := MakeBlock(key);
        rec.Append(dOff);
        assert rec.Contents == SlotBytes(Slot(key, off));
        data.Merge(rec);
      }
      sz := sz + 1;
      slots := slots + [Slot(key, off)];
      Repr := Repr + data.Repr;
    }

    /** merge_branches */
    method MergeFrom(b: BranchBuilder)
      requires Valid() && b.Valid() && Repr !! b.Repr && (b.slots != [] ==> slots != [])
      modifies Repr, b.Repr
      ensures Valid() && fresh(Repr - old(Repr) - old(b.Repr))
      ensures slots == old(slots) + old(b.slots)
    {
      hide BodyBytes, BlockBytes, Rope.Valid;
      if b.sz > 0 {
        BodyBytesMerge(slots, b.slots);
        sz := sz + b.sz;
        var rec := MakeBlock(b.key.value);
        data.Merge(rec);
        data.Merge(b.data);
        slots := slots + b.slots;
        Repr := Repr + data.Repr;
        b.sz := 0;
      }
    }

    /** branch_to_rope */
    method ToRope() returns (r: Rope)
      requires Valid() && slots != []
      modifies Repr
      ensures r.Valid() && fresh(r.Repr - old(Repr)) && r.Contents == BranchBytes(old(slots))
    {
      hide BodyBytes, Rope.Valid;
      r := new Rope.Two([BRANCH], Enc32(sz - 1));
      r.Merge(data);
    }
  }

  /** The children l, the first m / 2 of them in a and the others in b. */
  ghost predicate Halves(m: nat, a: BranchBuilder, b: BranchBuilder, l: seq<Slot>)
    reads a, a.Repr, b, b.Repr
  {
    && a.Valid() && b.Valid() && a.Repr !! b.Repr
    && l == a.slots + b.slots && |a.slots| <= m / 2 && (b.slots != [] ==> |a.slots| == m / 2)
  }

  /** add_to_branches_di */
  method AddToBranches(m: nat, a: BranchBuilder, b: BranchBuilder, key: Bytes, off: nat, ghost l: seq<Slot>)
    requires Halves(m, a, b, l)
    modifies a.Repr, b.Repr
    ensures Halves(m, a, b, l + [Slot(key, off)])
    ensures fresh(a.Repr - old(a.Repr)) && fresh(b.Repr - old(b.Repr))
  {
    hide BranchBuilder.Valid;
    if a.sz < m / 2 {
      a.Add(key, off);
    } else {
      b.Add(key, off);
    }
  }

  // ----- modify_branch

  /** The children of a branch once child j is replaced by now, with n of the old children seen; now
      goes in when the child after j is seen. */
  ghost function Seen(all: seq<Slot>, j: nat, now: seq<Slot>, n: nat): seq<Slot>
    requires j < |all| && n <= |all|
  {
    if n <= j then all[..n]
    else if n == j + 1 then all[..j]
    else all[..j] + now + all[j + 1..n]
  }

  ghost function Replaced(all: seq<Slot>, j: nat, now: seq<Slot>): seq<Slot>
    requires j < |all|
  {
    all[..j] + now + all[j + 1..]
  }

  /** The slots that the caller puts in place of child j. */
  ghost function NewSlots(nodeA: nat, aKey: Option<Bytes>, nodeB: nat, bKey: Option<Bytes>): seq<Slot> {
    (if aKey.Some? then [Slot(aKey.value, nodeA)] else []) + (if bKey.Some? then [Slot(bKey.value, nodeB)] else [])
  }

  /** k belongs in place of child j. */
  ghost predicate Fills(all: seq<Slot>, j: nat, k: Option<Bytes>) {
    k.Some? ==> forall i :: 0 <= i < |all| ==> (Rank(k.value) < Rank(all[i].key) <==> j < i)
  }

  /** Child j is the one child at rmA, and no child is at rmB. */
  ghost predicate OnlyAt(ss: seq<Slot>, j: nat, rmA: nat, rmB: nat) {
    forall i :: 0 <= i < |ss| ==> (ss[i].off == rmA <==> i == j) && ss[i].off != rmB
  }

  /** The ropes of r spell the branches made of the children l. */
  ghost predicate HoldsSlots(m: nat, r: ModifyResult, l: seq<Slot>)
    requires m >= 4
    reads r.aNode, r.bNode, Footprint(r.aNode), Footprint(r.bNode)
  {
    if l == [] then r == ModifyResult(null, None, null, None)
    else if |l| < m then
      Spells(r.aNode, BranchBytes(l)) && r.aKey == Some(l[0].key) && r.bNode == null && r.bKey == None
    else
      && Spells(r.aNode, BranchBytes(l[..m / 2])) && r.aKey == Some(l[0].key)
      && Spells(r.bNode, BranchBytes(l[m / 2..])) && r.bKey == Some(l[m / 2].key)
      && Footprint(r.aNode) !! Footprint(r.bNode)
  }

  method Finish(m: nat, a: BranchBuilder, b: BranchBuilder, ghost l: seq<Slot>) returns (result: ModifyResult)
    requires m >= 4 && m % 2 == 0 && Halves(m, a, b, l)
    modifies a.Repr, b.Repr
    ensures HoldsSlots(m, result, l)
    ensures result.aNode != null ==> fresh(result.aNode.Repr - old(a.Repr) - old(b.Repr))
    ensures result.bNode != null ==> fresh(result.bNode.Repr - old(a.Repr) - old(b.Repr))
  {
    hide BranchBytes, Rope.Valid;
    if b.sz < m / 2 {
      assert a.slots + b.slots == l;
      a.MergeFrom(b);
      if a.sz == 0 {
        return ModifyResult(null, None, null, None);
      }
      var aKey := a.key;
      var aNode := a.ToRope();
      return ModifyResult(aNode, aKey, null, None);
    } else {
      var aKey, bKey := a.key, b.key;
      var aNode := a.ToRope();
      var bNode := b.ToRope();
      return ModifyResult(aNode, aKey, bNode, bKey);
    }
  }

  /** A branch with nodeKey as the key of its first child. */
  ghost function Keyed(ss: seq<Slot>, nodeKey: Bytes): seq<Slot>
    requires ss != []
  {
    [Slot(nodeKey, ss[0].off)] + ss[1..]
  }

  lemma BranchAtParts(log: Bytes, node: nat, ss: seq<Slot>)
    requires ss != [] && FitsNode(BranchNode(ss)) && At(log, node, BranchBytes(ss))
    ensures node + 13 <= |log| && log[node] == BRANCH
    ensures Read32(log, node + 1) == |ss| - 1 && Read64(log, node + 5) == ss[0].off
    ensures At(log, node + 13, SlotsBytes(ss[1..])) && FitsSlots(ss[1..])
  {
    hide SlotsBytes, Enc32, Enc64, Dec32, Dec64;
    HeaderAt(log, node, BRANCH, |ss| - 1, BodyBytes(ss));
    AtSplit(log, node + 5, Enc64(ss[0].off), SlotsBytes(ss[1..]));
    Read64Iff(log, node + 5, ss[0].off);
  }

  /** aodbm_read_data and aodbm_read64: child i of a branch after the first, and the position behind it. */
  method ReadSlot(log: Bytes, pos: nat, ghost start: nat, ghost ss: seq<Slot>, ghost i: nat)
      returns (key: Bytes, off: nat, next: nat)
    requires At(log, start, SlotsBytes(ss)) && FitsSlots(ss) && i < |ss|
    requires pos == start + |SlotsBytes(ss[..i])|
    ensures ss[i] == Slot(key, off) && next == start + |SlotsBytes(ss[..i + 1])|
  {
    hide At, SlotsBytes, HasData, ReadData, Read64, Enc64;
    SlotAt(log, start, ss, i);
    key := ReadData(log, pos);
    next := pos + 4 + |key|;
    off := Read64(log, next);
    next := next + 8;
  }

  lemma NoSlots(ss: seq<Slot>)
    ensures SlotsBytes(ss[..0]) == []
  {
  }

  /** The child with key k at off, if it is added. */
  ghost function Added(yes: bool, k: Option<Bytes>, off: nat): seq<Slot> {
    if yes && k.Some? then [Slot(k.value, off)] else []
  }

  /** Adds an old child, unless it is one of those to remove. */
  method KeepChild(
      m: nat, a: BranchBuilder, b: BranchBuilder, key: Bytes, off: nat, rmA: nat, rmB: nat, ghost l: seq<Slot>)
      returns (ghost l': seq<Slot>)
    requires Halves(m, a, b, l)
    modifies a.Repr, b.Repr
    ensures Halves(m, a, b, l') && l' == l + Added(off != rmA && off != rmB, Some(key), off)
    ensures fresh(a.Repr - old(a.Repr)) && fresh(b.Repr - old(b.Repr))
  {
    hide Halves, BranchBuilder.Valid;
    l' := l;
    if off != rmA && off != rmB {
      AddToBranches(m, a, b, key, off, l);
      l' := l + [Slot(key, off)];
    }
  }

  /** Adds the new child at off, with key k, if it belongs before key. */
  method PlaceBefore(m: nat, a: BranchBuilder, b: BranchBuilder, k: Bytes, off: nat, key: Bytes, ghost l: seq<Slot>)
      returns (placed: bool, ghost l': seq<Slot>)
    requires Halves(m, a, b, l)
    modifies a.Repr, b.Repr
    ensures Halves(m, a, b, l') && l' == l + if placed then [Slot(k, off)] else []
    ensures placed <==> Rank(k) < Rank(key)
    ensures fresh(a.Repr - old(a.Repr)) && fresh(b.Repr - old(b.Repr))
  {
    hide Halves, Rank, BranchBuilder.Valid;
    placed := DataLt(k, key);
    l' := l;
    if placed {
      AddToBranches(m, a, b, k, off, l);
      l' := l + [Slot(k, off)];
    }
  }

  /** Adds those new children, not placed yet, that belong before key. */
  method PlaceNew(
      m: nat, a: BranchBuilder, b: BranchBuilder, nodeA: nat, aKey: Option<Bytes>, nodeB: nat, bKey: Option<Bytes>,
      aPlaced: bool, bPlaced: bool, key: Bytes, ghost l: seq<Slot>)
      returns (aPlaced': bool, bPlaced': bool, ghost l': seq<Slot>)
    requires Halves(m, a, b, l) && (aPlaced || aKey.Some?) && (bPlaced || bKey.Some?)
    modifies a.Repr, b.Repr
    ensures aPlaced' == (aPlaced || Rank(aKey.value) < Rank(key))
    ensures bPlaced' == (bPlaced || Rank(bKey.value) < Rank(key))
    ensures Halves(m, a, b, l')
    ensures l' == l + Added(!aPlaced && aPlaced', aKey, nodeA) + Added(!bPlaced && bPlaced', bKey, nodeB)
    ensures fresh(a.Repr - old(a.Repr)) && fresh(b.Repr - old(b.Repr))
  {
    hide Halves, Rank, BranchBuilder.Valid;
    aPlaced', bPlaced', l' := aPlaced, bPlaced, l;
    if !aPlaced {
      aPlaced', l' := PlaceBefore(m, a, b, aKey.value, nodeA, key, l);
      if !bPlaced {
        bPlaced', l' := PlaceBefore(m, a, b, bKey.value, nodeB, key, l');
      }
    } else {
      if !bPlaced {
        bPlaced', l' := PlaceBefore(m, a, b, bKey.value, nodeB, key, l');
      }
    }
  }

  /** Adds those new children, not placed yet, that belong behind all other children. */
  method PlaceLast(
      m: nat, a: BranchBuilder, b: BranchBuilder, nodeA: nat, aKey: Option<Bytes>, nodeB: nat, bKey: Option<Bytes>,
      aPlaced: bool, bPlaced: bool, ghost l: seq<Slot>)
      returns (ghost l': seq<Slot>)
    requires Halves(m, a, b, l) && (aPlaced || aKey.Some?) && (bPlaced || bKey.Some?)
    modifies a.Repr, b.Repr
    ensures Halves(m, a, b, l') && l' == l + Added(!aPlaced, aKey, nodeA) + Added(!bPlaced, bKey, nodeB)
    ensures fresh(a.Repr - old(a.Repr)) && fresh(b.Repr - old(b.Repr))
  {
    hide Halves, BranchBuilder.Valid;
    l' := l;
    if !aPlaced {
      AddToBranches(m, a, b, aKey.value, nodeA, l');
      l' := l' + [Slot(aKey.value, nodeA)];
    }
    if !bPlaced {
      AddToBranches(m, a, b, bKey.value, nodeB, l');
      l' := l' + [Slot(bKey.value, nodeB)];
    }
  }

  /** The loop of modify_branch: the children of the branch at node without the one at rmA, and with
      one or two new children in its place, shared out to a and b. */
  method CollectChildren(
      m: nat, log: Bytes, node: nat, nodeKey: Bytes, nodeA: nat, aKey: Option<Bytes>, nodeB: nat, bKey: Option<Bytes>,
      rmA: nat, rmB: nat, ghost ss: seq<Slot>, ghost j: nat)
      returns (a: BranchBuilder, b: BranchBuilder, ghost l: seq<Slot>)
    requires m >= 4 && m % 2 == 0
    requires ss != [] && FitsNode(BranchNode(ss)) && At(log, node, BranchBytes(ss))
    requires j < |ss| && OnlyAt(ss, j, rmA, rmB)
    requires Fills(Keyed(ss, nodeKey), j, aKey) && Fills(Keyed(ss, nodeKey), j, bKey)
    ensures l == Replaced(Keyed(ss, nodeKey), j, NewSlots(nodeA, aKey, nodeB, bKey))
    ensures Halves(m, a, b, l) && fresh(a.Repr) && fresh(b.Repr)
  {
    hide At, SlotsBytes, Rank, FitsSlots, FitsNode, BranchBytes, BranchBuilder.Valid, Halves;
    hide OnlyAt, Fills, Seen, Keyed, Replaced, NewSlots, Added, Read32, Read64;
    ghost var all, now := Keyed(ss, nodeKey), NewSlots(nodeA, aKey, nodeB, bKey);
    l := [];
    a := new BranchBuilder();
    b := new BranchBuilder();
    NothingAdded(m, a, b);
    BranchAtParts(log, node, ss);
    NoSlots(ss[1..]);
    ChildFacts(ss, nodeKey, j, nodeA, aKey, nodeB, bKey, rmA, rmB, 0);
    FirstSeen(all, j, now);
    var pos := node + 1;
    var sz := Read32(log, pos);
    pos := pos + 4;
    var off := Read64(log, pos);
    pos := pos + 8;
    var aPlaced := aKey == None;
    var bPlaced := bKey == None;
    l := KeepChild(m, a, b, nodeKey, off, rmA, rmB, l);
    var i := 0;
    while i < sz
      invariant 0 <= i <= sz == |ss| - 1
      invariant Halves(m, a, b, l) && fresh(a.Repr) && fresh(b.Repr)
      invariant pos == node + 13 + |SlotsBytes(ss[1..][..i])|
      invariant l == Seen(all, j, now, i + 1)
      invariant aPlaced == (aKey == None || i > j) && bPlaced == (bKey == None || i > j)
    {
      var key, off, next := ReadSlot(log, pos, node + 13, ss[1..], i);
      pos := next;
      ChildFacts(ss, nodeKey, j, nodeA, aKey, nodeB, bKey, rmA, rmB, i + 1);
      SeenNext(all, j, nodeA, aKey, nodeB, bKey, i + 1);
      aPlaced, bPlaced, l := PlaceNew(m, a, b, nodeA, aKey, nodeB, bKey, aPlaced, bPlaced, key, l);
      l := KeepChild(m, a, b, key, off, rmA, rmB, l);
      i := i + 1;
    }
    AllSeen(all, j, nodeA, aKey, nodeB, bKey, aPlaced, bPlaced);
    l := PlaceLast(m, a, b, nodeA, aKey, nodeB, bKey, aPlaced, bPlaced, l);
  }

  /** modify_branch: rebuilds the branch at node without its child at rmA, and with one or two new
      children in its place. */
  method ModifyBranch(
      m: nat, log: Bytes, node: nat, nodeKey: Bytes, nodeA: nat, aKey: Option<Bytes>, nodeB: nat, bKey: Option<Bytes>,
      rmA: nat, rmB: nat, ghost ss: seq<Slot>, ghost j: nat)
      returns (result: ModifyResult)
    requires m >= 4 && m % 2 == 0
    requires ss != [] && FitsNode(BranchNode(ss)) && At(log, node, BranchBytes(ss))
    requires j < |ss| && OnlyAt(ss, j, rmA, rmB)
    requires Fills(Keyed(ss, nodeKey), j, aKey) && Fills(Keyed(ss, nodeKey), j, bKey)
    ensures HoldsSlots(m, result, Replaced(Keyed(ss, nodeKey), j, NewSlots(nodeA, aKey, nodeB, bKey)))
    ensures fresh(Footprint(result.aNode)) && fresh(Footprint(result.bNode))
  {
    hide At, FitsNode, BranchBytes, BranchBuilder.Valid, Halves, OnlyAt, Fills, Keyed, Replaced, NewSlots;
    var a, b, l := CollectChildren(m, log, node, nodeKey, nodeA, aKey, nodeB, bKey, rmA, rmB, ss, j);
    result := Finish(m, a, b, l);
  }

  lemma FirstSeen(all: seq<Slot>, j: nat, now: seq<Slot>)
    requires j < |all|
    ensures Seen(all, j, now, 1) == [] + Added(0 != j, Some(all[0].key), all[0].off)
  {
  }

  /** What is added after the loop. */
  lemma AllSeen(
      all: seq<Slot>, j: nat, nodeA: nat, aKey: Option<Bytes>, nodeB: nat, bKey: Option<Bytes>,
      aPlaced: bool, bPlaced: bool)
    requires j < |all|
    requires aPlaced == (aKey == None || |all| > j + 1) && bPlaced == (bKey == None || |all| > j + 1)
    ensures var now := NewSlots(nodeA, aKey, nodeB, bKey);
      Replaced(all, j, now) == Seen(all, j, now, |all|)
        + Added(!aPlaced, aKey, nodeA) + Added(!bPlaced, bKey, nodeB)
  {
  }

  /** What the loop needs to know about child n. */
  lemma ChildFacts(
      ss: seq<Slot>, nodeKey: Bytes, j: nat, nodeA: nat, aKey: Option<Bytes>, nodeB: nat, bKey: Option<Bytes>,
      rmA: nat, rmB: nat, n: nat)
    requires n < |ss| && j < |ss| && OnlyAt(ss, j, rmA, rmB)
    requires Fills(Keyed(ss, nodeKey), j, aKey) && Fills(Keyed(ss, nodeKey), j, bKey)
    ensures var all := Keyed(ss, nodeKey);
      && |all| == |ss| && all[n] == (if n == 0 then Slot(nodeKey, ss[0].off) else ss[1..][n - 1])
      && (ss[n].off != rmA && ss[n].off != rmB <==> n != j) && ss[n].off == all[n].off
      && (aKey.Some? ==> (Rank(aKey.value) < Rank(all[n].key) <==> j < n))
      && (bKey.Some? ==> (Rank(bKey.value) < Rank(all[n].key) <==> j < n))
  {
    hide Rank;
  }

  lemma NothingAdded(m: nat, a: BranchBuilder, b: BranchBuilder)
    requires a.Valid() && b.Valid() && a.Repr !! b.Repr && a.slots == [] && b.slots == []
    ensures Halves(m, a, b, [])
  {
  }

  /** What one more old child adds. */
  lemma SeenNext(all: seq<Slot>, j: nat, nodeA: nat, aKey: Option<Bytes>, nodeB: nat, bKey: Option<Bytes>, n: nat)
    requires j < |all| && n < |all|
    ensures var now := NewSlots(nodeA, aKey, nodeB, bKey);
      Seen(all, j, now, n + 1) == Seen(all, j, now, n)
        + Added(n == j + 1 && aKey.Some?, aKey, nodeA) + Added(n == j + 1 && bKey.Some?, bKey, nodeB)
        + Added(n != j, Some(all[n].key), all[n].off)
  {
    if n < j {
      assert all[..n + 1] == all[..n] + [all[n]];
    } else if n > j {
      assert all[j + 1..n + 1] == all[j + 1..n] + [all[n]];
    }
  }
}
