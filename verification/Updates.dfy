/** Laying out the block of a set or delete (construct_root_di and the bodies of aodbm_set and
    aodbm_del), proved to give exactly what the recursive edit gives. */
module Updates {
  import opened Bytes
  import opened Data
  import opened RopeStructure
  import opened Format
  import opened Trees
  import opened Records
  import opened Edit
  import opened Layout
  import opened Versions
  import opened LeafOps
  import opened BranchOps
  import opened Search

  // ----- From slots to trees

  lemma SlotsOfSplice(es: seq<Entry>, lo: Bytes, j: nat, parts: seq<Entry>)
    requires j < |es|
    ensures Slots(Splice(WithFirst(es, lo), j, parts)) == Replaced(Keyed(Slots(es), lo), j, Slots(parts))
  {
    var all := WithFirst(es, lo);
    assert Slots(all) == Keyed(Slots(es), lo);
    assert Slots(all[..j]) == Slots(all)[..j];
    assert Slots(all[j + 1..]) == Slots(all)[j + 1..];
    assert Slots(all[..j] + parts) == Slots(all[..j]) + Slots(parts);
  }

  lemma BranchPartBytes(es: seq<Entry>)
    requires es != []
    ensures RootBytes(BranchPart(es).kid) == BranchBytes(Slots(es)) && BranchPart(es).key == Slots(es)[0].key
  {
    hide Enc32, Enc64, SlotsBytes;
    assert Slots(WithFirst(es, []))[1..] == Slots(es)[1..];
  }

  lemma SlotsHold(m: nat, r: ModifyResult, es: seq<Entry>)
    requires m >= 4 && HoldsSlots(m, r, Slots(es))
    ensures Holds(r, SplitParts(m, es))
  {
    hide RootBytes, BranchBytes, BranchPart, Rope.Valid;
    if es == [] {
      assert Slots(es) == [];
    } else if |es| < m {
      BranchPartBytes(es);
    } else {
      assert Slots(es)[..m / 2] == Slots(es[..m / 2]) && Slots(es)[m / 2..] == Slots(es[m / 2..]);
      BranchPartBytes(es[..m / 2]);
      BranchPartBytes(es[m / 2..]);
    }
  }

  lemma PlacedOne(e: Entry, pos: nat)
    ensures Place([e], pos) == [Entry(e.key, e.kid.(off := pos))] && PartsBytes([e]) == RootBytes(e.kid)
  {
    hide RootBytes;
    assert [e][1..] == [] && RootBytes(e.kid) + [] == RootBytes(e.kid);
  }

  lemma PlacedTwo(a: Entry, b: Entry, pos: nat)
    ensures Place([a, b], pos) ==
      [Entry(a.key, a.kid.(off := pos)), Entry(b.key, b.kid.(off := pos + |RootBytes(a.kid)|))]
    ensures PartsBytes([a, b]) == RootBytes(a.kid) + RootBytes(b.kid)
  {
    hide RootBytes;
    PlacedOne(b, pos + |RootBytes(a.kid)|);
    assert [a, b][1..] == [b];
  }

  /** The slots of rebuilt nodes laid out from pos on. */
  lemma PlacedSlots(parts: seq<Entry>, pos: nat)
    requires |parts| <= 2
    ensures Slots(Place(parts, pos)) ==
      if parts == [] then []
      else if |parts| == 1 then [Slot(parts[0].key, pos)]
      else [Slot(parts[0].key, pos), Slot(parts[1].key, pos + |RootBytes(parts[0].kid)|)]
    ensures PartsBytes(parts) ==
      if parts == [] then []
      else if |parts| == 1 then RootBytes(parts[0].kid)
      else RootBytes(parts[0].kid) + RootBytes(parts[1].kid)
  {
    hide RootBytes;
    if |parts| == 1 {
      assert parts == [parts[0]];
      hide Place, PartsBytes;
      PlacedOne(parts[0], pos);
    } else if |parts| == 2 {
      assert parts == [parts[0], parts[1]];
      hide Place, PartsBytes;
      PlacedTwo(parts[0], parts[1], pos);
    }
  }

  // ----- The root

  /** aodbm_branch_di */
  method BranchDi(a: nat, key: Bytes, b: nat) returns (r: Rope)
    ensures r.Valid() && fresh(r.Repr) && r.Contents == BranchBytes([Slot([], a), Slot(key, b)])
  {
    hide Enc32, Enc64, Rope.Valid;
    r := new Rope.Two([BRANCH], Enc32(1));
    r.Append(Enc64(a));
    var block := MakeBlock(key);
    r.Merge(block);
    r.Append(Enc64(b));
    assert SlotsBytes([Slot(key, b)]) == SlotBytes(Slot(key, b)) + [];
    assert [Slot([], a), Slot(key, b)][1..] == [Slot(key, b)];
  }

  /** The block of an update, case by case. */
  lemma RootEditBytes(e: Edit, prev: nat, pos: nat)
    requires |e.parts| <= 2
    ensures var u, end := RootEdit(e, prev, pos), pos + |e.data|;
      if e.parts == [] then u.block == e.data + Enc64(prev) + [LEAF] + Enc32(0) && u.ver == end
      else
        var a := RootBytes(e.parts[0].kid);
        if |e.parts| == 1 then u.block == e.data + (Enc64(prev) + a) && u.ver == end
        else
          var b := RootBytes(e.parts[1].kid);
          var top := BranchBytes([Slot([], end), Slot(e.parts[1].key, end + |a|)]);
          u.block == e.data + a + b + (Enc64(prev) + top) && u.ver == end + |a| + |b|
  {
    hide RootBytes, BranchBytes, Enc32, Enc64, PartsBytes, Place;
    PlacedSlots(e.parts, pos + |e.data|);
    var number := Enc64(prev);
    if e.parts == [] {
      EmptyLeafBytes();
      Regroup(e.data + number, [LEAF], Enc32(0));
    } else if |e.parts| == 1 {
      Regroup(e.data, number, RootBytes(e.parts[0].kid));
    } else {
      TopBytes(e.parts, pos + |e.data|);
      var a, b := RootBytes(e.parts[0].kid), RootBytes(e.parts[1].kid);
      Regroup(e.data, a, b);
      Regroup(e.data + a + b, number, RootBytes(RootOf(e, pos).1));
    }
  }

  lemma Regroup(a: Bytes, b: Bytes, c: Bytes)
    ensures (a + b) + c == a + (b + c)
  {
  }

  lemma EmptyLeafBytes()
    ensures RootBytes(Leaf(0, [])) == [LEAF] + Enc32(0)
  {
    hide Enc32;
    assert [LEAF] + Enc32(0) + [] == [LEAF] + Enc32(0);
  }

  lemma TopBytes(parts: seq<Entry>, pos: nat)
    requires |parts| == 2
    ensures RootBytes(BranchPart(Place(parts, pos)).kid) ==
      BranchBytes([Slot([], pos), Slot(parts[1].key, pos + |RootBytes(parts[0].kid)|)])
  {
    hide Enc32, Enc64, Place;
    PlacedSlots(parts, pos);
    var placed := Place(parts, pos);
    assert Slots(WithFirst(placed, [])) == [Slot([], Slots(placed)[0].off), Slots(placed)[1]];
  }

  /** construct_root_di */
  method ConstructRoot(prev: nat, appendPos: nat, data: Rope, dataSz: nat, nodes: ModifyResult, ghost e: Edit)
      returns (dat: Bytes, root: nat)
    requires data.Valid() && data.Contents == e.data && dataSz == |e.data| && Holds(nodes, e.parts)
    requires e.parts != [] ==> data.Repr !! Footprint(nodes.aNode)
    requires |e.parts| == 2 ==> data.Repr !! Footprint(nodes.bNode)
    modifies data.Repr, Footprint(nodes.aNode), Footprint(nodes.bNode)
    ensures dat == RootEdit(e, prev, appendPos).block && root == RootEdit(e, prev, appendPos).ver
  {
    hide RootEdit, RootBytes, BranchBytes, Enc32, Enc64, Rope.Valid;
    RootEditBytes(e, prev, appendPos);
    var prevBytes := Enc64(prev);
    if nodes.bKey == None {
      if nodes.aKey == None {
        data.Append(prevBytes);
        data.Append([LEAF]);
        data.Append(Enc32(0));
        root := appendPos + dataSz;
      } else {
        nodes.aNode.Prepend(prevBytes);
        data.Merge(nodes.aNode);
        root := dataSz + appendPos;
      }
    } else {
      var aSz := nodes.aNode.Size();
      var a := dataSz + appendPos;
      data.Merge(nodes.aNode);
      var size := dataSz + aSz;
      var bSz := nodes.bNode.Size();
      var b := size + appendPos;
      data.Merge(nodes.bNode);
      size := size + bSz;
      var br := BranchDi(a, nodes.bKey.value, b);
      br.Prepend(prevBytes);
      root := size + appendPos;
      data.Merge(br);
    }
    dat := data.ToData();
  }

  // ----- The path

  /** e is a well-formed subtree, stored in log, to which the key k belongs. */
  ghost predicate OnPath(m: nat, log: Bytes, e: Entry, hi: Option<Bytes>, h: nat, k: Bytes) {
    WF(m, e.kid, e.key, hi, h) && Stored(log, e.kid) && Le(e.key, k) && Below(k, hi)
  }

  lemma OnPathNext(m: nat, log: Bytes, e: Entry, hi: Option<Bytes>, h: nat, k: Bytes)
      returns (next: Entry, hi': Option<Bytes>)
    requires OnPath(m, log, e, hi, h, k)
    ensures e.kid.Leaf? <==> h == 0
    ensures h == 0 ==> PathTo(e.kid, e.key, k) == [e]
    ensures h > 0 ==>
      && IsNext(e, next, k) && OnPath(m, log, next, hi', h - 1, k) && next.kid < e.kid
      && PathTo(e.kid, e.key, k) == [e] + PathTo(next.kid, next.key, k)
  {
    hide Rank, Stored, FindChild;
    hi', next := hi, e;
    if e.kid.Branch? {
      var j;
      StoredBranch(log, e.kid);
      j, hi' := KidShape(m, e.kid, e.key, hi, h, k);
      next := Entry(KeyAt(e.kid.es, j, e.key), e.kid.es[j].kid);
    }
  }

  /** Every node of the path to k is such a subtree, one level lower each time. */
  lemma {:induction false} PathAt(m: nat, log: Bytes, e: Entry, hi: Option<Bytes>, h: nat, k: Bytes, i: nat)
      returns (hi': Option<Bytes>)
    requires OnPath(m, log, e, hi, h, k) && i <= h
    ensures var path := PathTo(e.kid, e.key, k);
      |path| == h + 1 && OnPath(m, log, path[i], hi', h - i, k) && (i < h ==> IsNext(path[i], path[i + 1], k))
    decreases h
  {
    hide OnPath, IsNext, PathTo;
    var next, below := OnPathNext(m, log, e, hi, h, k);
    if h == 0 {
      hi' := hi;
    } else if i == 0 {
      var _ := PathAt(m, log, next, below, h - 1, k, 0);
      hi' := hi;
    } else {
      hi' := PathAt(m, log, next, below, h - 1, k, i - 1);
    }
  }

  /** next follows e on a path to k. */
  ghost predicate IsNext(e: Entry, next: Entry, k: Bytes) {
    && e.kid.Branch? && e.kid.es != []
    && var j := FindChild(e.kid.es, k, 0);
      next == Entry(KeyAt(e.kid.es, j, e.key), e.kid.es[j].kid)
  }

  /** What an edit below node i of the path lays out is part of what the whole edit lays out. */
  lemma {:induction false} PathData(m: nat, t: Tree, lo: Bytes, c: Change, pos: nat, i: nat)
    requires i < |PathTo(t, lo, c.key)|
    ensures var e := PathTo(t, lo, c.key)[i];
      var below := EditTree(m, e.kid, c, e.key, pos);
      |below.data| + (if i > 0 then |PartsBytes(below.parts)| else 0) <= |EditTree(m, t, c, lo, pos).data|
    decreases t
  {
    hide PartsBytes, EditLeaf, SplitParts, Place;
    if i > 0 {
      var j := FindChild(t.es, c.key, 0);
      var rest := PathTo(t.es[j].kid, KeyAt(t.es, j, lo), c.key);
      assert PathTo(t, lo, c.key)[1..] == rest;
      PathData(m, t.es[j].kid, KeyAt(t.es, j, lo), c, pos, i - 1);
    }
  }

  // ----- One step up the path

  lemma SameKids(es: seq<Entry>, key: Bytes, i: nat)
    requires i < |es|
    ensures WithFirst(es, key)[i].kid == es[i].kid
  {
  }

  lemma KidOffsets(m: nat, log: Bytes, t: Tree, lo: Bytes, hi: Option<Bytes>, h: nat, i: nat, j: nat)
    requires WF(m, t, lo, hi, h) && Stored(log, t) && t.Branch? && i < |t.es| && j < |t.es|
    ensures (t.es[i].kid.off == t.es[j].kid.off <==> i == j) && t.es[i].kid.off != 0
  {
    hide Rank, Stored, WF, Chain, RootBytes, NodeOf, WithFirst, BranchBytes, Slots;
    StoredBranch(log, t);
    BranchShape(m, t, lo, hi, h);
    var all := WithFirst(t.es, lo);
    SameKids(t.es, lo, i);
    SameKids(t.es, lo, j);
    StoredInside(log, t.es[i].kid);
    if i < j {
      KidsDiffer(m, log, all, hi, h - 1, i, j);
    } else if j < i {
      KidsDiffer(m, log, all, hi, h - 1, j, i);
    }
  }

  /** Child j is the only child at its offset, and no child is at offset 0. */
  lemma KidOnlyAt(m: nat, log: Bytes, t: Tree, lo: Bytes, hi: Option<Bytes>, h: nat, j: nat)
    requires WF(m, t, lo, hi, h) && Stored(log, t) && t.Branch? && j < |t.es|
    ensures OnlyAt(Slots(t.es), j, t.es[j].kid.off, 0)
  {
    hide Stored, WF;
    forall i | 0 <= i < |t.es|
      ensures (t.es[i].kid.off == t.es[j].kid.off <==> i == j) && t.es[i].kid.off != 0
    {
      KidOffsets(m, log, t, lo, hi, h, i, j);
    }
  }

  /** The keys of the rebuilt nodes belong in place of child j. */
  lemma PartsFill(m: nat, es: seq<Entry>, j: nat, parts: seq<Entry>, hi: Option<Bytes>, h: nat, rs: seq<Record>, n: nat)
    requires Chain(m, es, hi, h) && j < |es| && n < |parts|
    requires Replaces(m, parts, es[j].key, HiAt(es, j, hi), h, rs)
    ensures Fills(Slots(es), j, Some(parts[n].key))
  {
    hide Rank, WF, Chain;
    var hi' := HiAt(es, j, hi);
    KeysIncrease(m, parts, hi', h, 0, n);
    forall i | 0 <= i < |es|
      ensures Rank(parts[n].key) < Rank(es[i].key) <==> j < i
    {
      if i <= j {
        KeysIncrease(m, es, hi, h, i, j);
      } else {
        KeysIncrease(m, es, hi, h, j + 1, i);
      }
    }
  }

  /** The keys of the slots laid out for them belong there too. */
  lemma NewSlotsFill(
      m: nat, es: seq<Entry>, j: nat, parts: seq<Entry>, hi: Option<Bytes>, h: nat, rs: seq<Record>, pos: nat,
      a: nat, aKey: Option<Bytes>, b: nat, bKey: Option<Bytes>)
    requires Chain(m, es, hi, h) && j < |es|
    requires Replaces(m, parts, es[j].key, HiAt(es, j, hi), h, rs)
    requires Slots(Place(parts, pos)) == NewSlots(a, aKey, b, bKey)
    ensures Fills(Slots(es), j, aKey) && Fills(Slots(es), j, bKey)
  {
    hide Rank, WF, Chain, Fills, Place, Slots, PartsBytes, RootBytes, FlatEntries;
    PlacedSlots(parts, pos);
    NoneFills(Slots(es), j);
    var slots := NewSlots(a, aKey, b, bKey);
    if aKey.Some? {
      assert slots[0].key == aKey.value;
      PartsFill(m, es, j, parts, hi, h, rs, 0);
    }
    if bKey.Some? {
      var n := if aKey.Some? then 1 else 0;
      assert slots[n].key == bKey.value;
      PartsFill(m, es, j, parts, hi, h, rs, n);
    }
  }

  /** e is the branch above the child next, whose rebuilt nodes will be at a and b. */
  ghost predicate CanRebuild(
      m: nat, log: Bytes, e: Entry, next: Entry, hi: Option<Bytes>, h: nat, c: Change, pos: nat,
      a: nat, aKey: Option<Bytes>, b: nat, bKey: Option<Bytes>)
  {
    && OnPath(m, log, e, hi, h, c.key) && IsNext(e, next, c.key)
    && var below := EditTree(m, next.kid, c, next.key, pos);
      Slots(Place(below.parts, pos + |below.data|)) == NewSlots(a, aKey, b, bKey)
  }

  lemma RebuildReady(
      m: nat, log: Bytes, e: Entry, next: Entry, hi: Option<Bytes>, h: nat, c: Change, pos: nat,
      a: nat, aKey: Option<Bytes>, b: nat, bKey: Option<Bytes>) returns (j: nat)
    requires m >= 4 && m % 2 == 0 && CanRebuild(m, log, e, next, hi, h, c, pos, a, aKey, b, bKey)
    ensures e.kid.Branch? && e.kid.es != [] && j < |e.kid.es| && next.kid == e.kid.es[j].kid
    ensures var ss := Slots(e.kid.es);
      && FitsNode(BranchNode(ss)) && At(log, e.kid.off, BranchBytes(ss))
      && OnlyAt(ss, j, next.kid.off, 0)
      && Fills(Keyed(ss, e.key), j, aKey) && Fills(Keyed(ss, e.key), j, bKey)
  {
    hide Rank, WF, Chain, Stored, EditTree, BranchBytes, Fills, OnlyAt, FitsNode, Replaces, Apply, Flat;
    hide Place, NewSlots, FindChild;
    var t, below := e.kid, EditTree(m, next.kid, c, next.key, pos);
    StoredBranch(log, t);
    BranchShape(m, t, e.key, hi, h);
    var hi';
    j, hi' := KidShape(m, t, e.key, hi, h, c.key);
    KidOnlyAt(m, log, t, e.key, hi, h, j);
    var all := WithFirst(t.es, e.key);
    EditShape(m, next.kid, c, next.key, hi', h - 1, pos);
    assert Slots(all) == Keyed(Slots(t.es), e.key);
    NewSlotsFill(m, all, j, below.parts, hi, h - 1, Apply(Flat(next.kid), c), pos + |below.data|, a, aKey, b, bKey);
  }

  lemma Rebuilt(
      m: nat, log: Bytes, e: Entry, next: Entry, hi: Option<Bytes>, h: nat, c: Change, pos: nat,
      a: nat, aKey: Option<Bytes>, b: nat, bKey: Option<Bytes>, j: nat, nodes: ModifyResult)
    requires m >= 4 && m % 2 == 0 && CanRebuild(m, log, e, next, hi, h, c, pos, a, aKey, b, bKey)
    requires j < |e.kid.es| && next.kid == e.kid.es[j].kid && OnlyAt(Slots(e.kid.es), j, next.kid.off, 0)
    requires HoldsSlots(m, nodes, Replaced(Keyed(Slots(e.kid.es), e.key), j, NewSlots(a, aKey, b, bKey)))
    ensures Holds(nodes, EditTree(m, e.kid, c, e.key, pos).parts)
  {
    hide EditTree, Place, Rank, WF, Stored, FindChild, BranchBytes, Replaced, Keyed, NewSlots, Holds, HoldsSlots;
    assert j == FindChild(e.kid.es, c.key, 0) by {
      var j' := FindChild(e.kid.es, c.key, 0);
      assert Slots(e.kid.es)[j'].off == next.kid.off;
    }
    var below := EditTree(m, next.kid, c, next.key, pos);
    var placed := Place(below.parts, pos + |below.data|);
    EditTreeBranch(m, e.kid, c, e.key, pos);
    SlotsOfSplice(e.kid.es, e.key, j, placed);
    SlotsHold(m, nodes, Splice(WithFirst(e.kid.es, e.key), j, placed));
  }

  /** The call of modify_branch in aodbm_set and aodbm_del: from what is rebuilt below to what is
      rebuilt at the branch e. */
  method RebuildBranch(
      m: nat, log: Bytes, pn: PathNode, a: nat, aKey: Option<Bytes>, b: nat, bKey: Option<Bytes>, prevNode: nat,
      ghost e: Entry, ghost next: Entry, ghost hi: Option<Bytes>, ghost h: nat, ghost c: Change, ghost pos: nat)
      returns (nodes: ModifyResult)
    requires m >= 4 && m % 2 == 0 && CanRebuild(m, log, e, next, hi, h, c, pos, a, aKey, b, bKey)
    requires pn == PathNode(e.key, e.kid.off) && prevNode == next.kid.off
    ensures Holds(nodes, EditTree(m, e.kid, c, e.key, pos).parts)
    ensures fresh(Footprint(nodes.aNode)) && fresh(Footprint(nodes.bNode))
  {
    hide CanRebuild, EditTree, BranchBytes, Fills, OnlyAt, Replaced, FitsNode, Keyed, NewSlots, Holds, HoldsSlots, At;
    ghost var j := RebuildReady(m, log, e, next, hi, h, c, pos, a, aKey, b, bKey);
    nodes := ModifyBranch(m, log, pn.node, pn.key, a, aKey, b, bKey, prevNode, 0, Slots(e.kid.es), j);
    Rebuilt(m, log, e, next, hi, h, c, pos, a, aKey, b, bKey, j, nodes);
  }

  lemma NoneFills(ss: seq<Slot>, j: nat)
    ensures Fills(ss, j, None)
  {
  }

  // ----- aodbm_set and aodbm_del

  /** Lays a rebuilt node at the end of the data; its size, and the offset it will have. */
  method LayNode(data: Rope, dataSz: nat, appendPos: nat, node: Rope) returns (off: nat, sz: nat)
    requires data.Valid() && node.Valid() && data.Repr !! node.Repr
    modifies data.Repr
    ensures data.Valid() && data.Repr == old(data.Repr) + (node.Repr - {node})
    ensures data.Contents == old(data.Contents) + old(node.Contents)
    ensures sz == |old(node.Contents)| && off == dataSz + appendPos
  {
    hide Rope.Valid;
    sz := node.Size();
    off := dataSz + appendPos;
    data.Merge(node);
  }

  /** Lays both rebuilt nodes, of which there is at least one, at the end of the data. */
  method LayNodes(data: Rope, dataSz: nat, appendPos: nat, nodes: ModifyResult, ghost e: Edit)
      returns (a: nat, b: nat, sz: nat)
    requires 1 <= |e.parts| <= 2 && Holds(nodes, e.parts)
    requires data.Valid() && data.Contents == e.data && dataSz == |e.data|
    requires data.Repr !! Footprint(nodes.aNode) + Footprint(nodes.bNode)
    modifies data.Repr, Footprint(nodes.aNode)
    ensures data.Valid() && data.Contents == e.data + PartsBytes(e.parts) && sz == |PartsBytes(e.parts)|
    ensures data.Repr <= old(data.Repr + Footprint(nodes.aNode) + Footprint(nodes.bNode))
    ensures a == appendPos + |e.data| && (|e.parts| == 2 ==> b == a + |RootBytes(e.parts[0].kid)|)
  {
    hide RootBytes, PartsBytes, Place, Rope.Valid;
    PlacedSlots(e.parts, 0);
    a, sz := LayNode(data, dataSz, appendPos, nodes.aNode);
    b := 0;
    if nodes.bNode != null {
      var bSz;
      b, bSz := LayNode(data, dataSz + sz, appendPos, nodes.bNode);
      sz := sz + bSz;
    }
  }

  lemma LaidSlots(e: Edit, pos: nat, a: nat, aKey: Option<Bytes>, b: nat, bKey: Option<Bytes>)
    requires |e.parts| <= 2
    requires aKey == if e.parts == [] then None else Some(e.parts[0].key)
    requires bKey == if |e.parts| < 2 then None else Some(e.parts[1].key)
    requires aKey.Some? ==> a == pos + |e.data|
    requires bKey.Some? ==> b == pos + |e.data| + |RootBytes(e.parts[0].kid)|
    ensures Slots(Place(e.parts, pos + |e.data|)) == NewSlots(a, aKey, b, bKey)
  {
    hide RootBytes, Slots, Place;
    PlacedSlots(e.parts, pos + |e.data|);
  }

  /** The root of a version to which k belongs is the start of a path, unless it is an empty leaf. */
  lemma RootOnPath(m: nat, log: Bytes, ver: nat, k: Bytes)
    requires VersionOK(m, log, ver) && ver != 0 && TreeOf(log, ver).Branch?
    ensures OnPath(m, log, Entry([], TreeOf(log, ver)), None, Height(TreeOf(log, ver)), k)
  {
    hide Rank, WF, Stored;
    EmptyIsLeast(k);
    VersionTree(m, log, ver);
  }

  lemma RootLeafSize(m: nat, log: Bytes, ver: nat)
    requires VersionOK(m, log, ver) && TreeOf(log, ver).Leaf?
    ensures |TreeOf(log, ver).recs| <= m
  {
  }

  /** Node i of the path to the changed key, and the edit made there. */
  ghost function NodeAt(root: Entry, k: Bytes, i: nat): Entry
    requires i < |PathTo(root.kid, root.key, k)|
  {
    PathTo(root.kid, root.key, k)[i]
  }

  ghost function EditAt(m: nat, root: Entry, c: Change, pos: nat, i: nat): Edit
    requires i < |PathTo(root.kid, root.key, c.key)|
  {
    EditTree(m, NodeAt(root, c.key, i).kid, c, NodeAt(root, c.key, i).key, pos)
  }

  /** The stack holds the first nodes of the path to k. */
  ghost predicate PathIs(path: seq<PathNode>, root: Entry, k: Bytes) {
    && |path| <= |PathTo(root.kid, root.key, k)|
    && forall n :: 0 <= n < |path| ==> path[n] == PathNode(NodeAt(root, k, n).key, NodeAt(root, k, n).kid.off)
  }

  lemma PathPop(path: seq<PathNode>, root: Entry, k: Bytes)
    requires PathIs(path, root, k) && path != []
    ensures var n := |path| - 1;
      && n < |PathTo(root.kid, root.key, k)|
      && path[n] == PathNode(NodeAt(root, k, n).key, NodeAt(root, k, n).kid.off) && PathIs(path[..n], root, k)
  {
    hide NodeAt, PathTo;
  }

  lemma EditAtShape(m: nat, log: Bytes, root: Entry, h: nat, c: Change, pos: nat, i: nat)
    requires m >= 4 && m % 2 == 0 && OnPath(m, log, root, None, h, c.key) && i <= h
    ensures |PathTo(root.kid, root.key, c.key)| == h + 1
    ensures var parts := EditAt(m, root, c, pos, i).parts;
      |parts| <= 2 && (c.Modify? ==> parts != []) && (c.Remove? ==> |parts| <= 1)
  {
    hide Rank, WF, Stored, EditTree, Replaces, Apply, Flat;
    var hi := PathAt(m, log, root, None, h, c.key, i);
    var e := PathTo(root.kid, root.key, c.key)[i];
    EditShape(m, e.kid, c, e.key, hi, h - i, pos);
  }

  /** The edit one level up lays out what is rebuilt here after what was laid out before. */
  lemma EditAtData(m: nat, log: Bytes, root: Entry, h: nat, c: Change, pos: nat, i: nat)
    requires m >= 4 && m % 2 == 0 && OnPath(m, log, root, None, h, c.key) && 0 < i <= h
    ensures |PathTo(root.kid, root.key, c.key)| == h + 1
    ensures var below := EditAt(m, root, c, pos, i);
      && EditAt(m, root, c, pos, i - 1).data == below.data + PartsBytes(below.parts)
      && |below.data + PartsBytes(below.parts)| <= |EditTree(m, root.kid, c, root.key, pos).data|
  {
    hide Rank, WF, Stored, EditTree, PathTo, OnPath, PartsBytes, RootBytes, Place, FindChild;
    var hi := PathAt(m, log, root, None, h, c.key, i - 1);
    EditAtShape(m, log, root, h, c, pos, i);
    var up := NodeAt(root, c.key, i - 1);
    EditTreeBranch(m, up.kid, c, up.key, pos);
    PathData(m, root.kid, root.key, c, pos, i);
  }

  /** The end of the loop body in aodbm_set and aodbm_del: what is rebuilt at node i - 1 of the path. */
  method ClimbStep(
      m: nat, log: Bytes, pn: PathNode, a: nat, aKey: Option<Bytes>, b: nat, bKey: Option<Bytes>, prevNode: nat,
      ghost root: Entry, ghost h: nat, ghost c: Change, ghost pos: nat, ghost i: nat)
      returns (nodes: ModifyResult)
    requires m >= 4 && m % 2 == 0 && OnPath(m, log, root, None, h, c.key) && 0 < i <= h
    requires |PathTo(root.kid, root.key, c.key)| == h + 1
    requires var up := NodeAt(root, c.key, i - 1);
      pn == PathNode(up.key, up.kid.off) && prevNode == NodeAt(root, c.key, i).kid.off
    requires var below := EditAt(m, root, c, pos, i);
      && |below.parts| <= 2
      && aKey == (if below.parts == [] then None else Some(below.parts[0].key))
      && bKey == (if |below.parts| < 2 then None else Some(below.parts[1].key))
      && (aKey.Some? ==> a == pos + |below.data|)
      && (bKey.Some? ==> b == pos + |below.data| + |RootBytes(below.parts[0].kid)|)
    ensures Holds(nodes, EditAt(m, root, c, pos, i - 1).parts)
    ensures fresh(Footprint(nodes.aNode)) && fresh(Footprint(nodes.bNode))
  {
    hide Rank, WF, Stored, EditTree, PathTo, OnPath, IsNext, RootBytes, Place, FindChild, NewSlots, Slots, Holds, KeyAt;
    ghost var hi := PathAt(m, log, root, None, h, c.key, i - 1);
    LaidSlots(EditAt(m, root, c, pos, i), pos, a, aKey, b, bKey);
    nodes := RebuildBranch(m, log, pn, a, aKey, b, bKey, prevNode,
      NodeAt(root, c.key, i - 1), NodeAt(root, c.key, i), hi, h - (i - 1), c, pos);
  }

  /** The leaf at the end of the path. */
  lemma EditAtLeaf(m: nat, log: Bytes, root: Entry, h: nat, c: Change, pos: nat)
    requires m >= 4 && m % 2 == 0 && OnPath(m, log, root, None, h, c.key)
    ensures |PathTo(root.kid, root.key, c.key)| == h + 1
    ensures var leaf := NodeAt(root, c.key, h).kid;
      && leaf.Leaf? && |leaf.recs| <= m && LeafAt(log, leaf.off + 1, leaf.recs)
      && EditAt(m, root, c, pos, h) == Edit([], EditLeaf(m, leaf.recs, c))
  {
    hide Rank, Stored, EditLeaf, LeafAt;
    var hi := PathAt(m, log, root, None, h, c.key, h);
    StoredLeaf(log, NodeAt(root, c.key, h).kid);
  }

  /** The loop of aodbm_set: from the leaf at the end of the path up to the root. */
  method ClimbSet(m: nat, log: Bytes, ver: nat, key: Bytes, val: Bytes, appendPos: nat, ghost root: Entry, ghost h: nat)
      returns (data: Rope, dataSz: nat, nodes: ModifyResult)
    requires m >= 4 && m % 2 == 0 && OnPath(m, log, root, None, h, key)
    requires root.key == [] && root.kid.off == ver + 8
    requires |EditTree(m, root.kid, Modify(key, val), [], appendPos).data| < TWO_32
    ensures var e := EditTree(m, root.kid, Modify(key, val), [], appendPos);
      data.Valid() && data.Contents == e.data && dataSz == |e.data| && Holds(nodes, e.parts)
    ensures fresh(data.Repr) && fresh(Footprint(nodes.aNode)) && fresh(Footprint(nodes.bNode))
    ensures data.Repr !! Footprint(nodes.aNode) + Footprint(nodes.bNode)
  {
    hide Rank, WF, EditTree, OnPath, PathTo, PartsBytes, RootBytes, EditLeaf;
    hide NodeAt, EditAt, LeafAt, PathIs, Rope.Valid;
    ghost var c := Modify(key, val);
    EditAtLeaf(m, log, root, h, c, appendPos);
    data := new Rope.Empty();
    dataSz := 0;
    var path := RootPath(m, log, ver, key, root, h);
    // the leaf is on top of the stack
    PathPop(path, root, key);
    var node := path[|path| - 1];
    path := path[..|path| - 1];
    nodes := InsertIntoLeaf(m, log, key, val, node.node + 1, NodeAt(root, key, h).kid.recs);
    var prevNode := node.node;
    ghost var i := h;
    while path != []
      invariant i == |path| <= h && |PathTo(root.kid, root.key, key)| == h + 1
      invariant PathIs(path, root, key)
      invariant prevNode == NodeAt(root, key, i).kid.off
      invariant data.Valid() && fresh(data.Repr) && data.Contents == EditAt(m, root, c, appendPos, i).data
      invariant dataSz == |data.Contents| && Holds(nodes, EditAt(m, root, c, appendPos, i).parts)
      invariant fresh(Footprint(nodes.aNode)) && fresh(Footprint(nodes.bNode))
      invariant data.Repr !! Footprint(nodes.aNode) + Footprint(nodes.bNode)
    {
      PathPop(path, root, key);
      node := path[|path| - 1];
      path := path[..|path| - 1];
      EditAtShape(m, log, root, h, c, appendPos, i);
      EditAtData(m, log, root, h, c, appendPos, i);
      var a, b, sz := LayNodes(data, dataSz, appendPos, nodes, EditAt(m, root, c, appendPos, i));
      dataSz := (dataSz + sz) % TWO_32;
      nodes := ClimbStep(m, log, node, a, nodes.aKey, b, nodes.bKey, prevNode, root, h, c, appendPos, i);
      prevNode := node.node;
      i := i - 1;
    }
    FirstEdit(m, root, c, appendPos);
  }

  /** The loop of aodbm_del. */
  method ClimbDel(m: nat, log: Bytes, ver: nat, key: Bytes, appendPos: nat, ghost root: Entry, ghost h: nat)
      returns (data: Rope, dataSz: nat, nodes: ModifyResult)
    requires m >= 4 && m % 2 == 0 && OnPath(m, log, root, None, h, key)
    requires root.key == [] && root.kid.off == ver + 8
    ensures var e := EditTree(m, root.kid, Remove(key), [], appendPos);
      data.Valid() && data.Contents == e.data && dataSz == |e.data| && Holds(nodes, e.parts)
    ensures fresh(data.Repr) && fresh(Footprint(nodes.aNode)) && fresh(Footprint(nodes.bNode))
    ensures data.Repr !! Footprint(nodes.aNode) + Footprint(nodes.bNode)
  {
    hide Rank, WF, EditTree, OnPath, PathTo, PartsBytes, RootBytes, EditLeaf;
    hide NodeAt, EditAt, LeafAt, PathIs, Rope.Valid;
    ghost var c := Remove(key);
    EditAtLeaf(m, log, root, h, c, appendPos);
    data := new Rope.Empty();
    dataSz := 0;
    var path := RootPath(m, log, ver, key, root, h);
    // the leaf is on top of the stack
    PathPop(path, root, key);
    var node := path[|path| - 1];
    path := path[..|path| - 1];
    nodes := RemoveFromLeaf(m, log, key, node.node + 1, NodeAt(root, key, h).kid.recs);
    var prevNode := node.node;
    ghost var i := h;
    while path != []
      invariant i == |path| <= h && |PathTo(root.kid, root.key, key)| == h + 1
      invariant PathIs(path, root, key)
      invariant prevNode == NodeAt(root, key, i).kid.off
      invariant data.Valid() && fresh(data.Repr) && data.Contents == EditAt(m, root, c, appendPos, i).data
      invariant dataSz == |data.Contents| && Holds(nodes, EditAt(m, root, c, appendPos, i).parts)
      invariant fresh(Footprint(nodes.aNode)) && fresh(Footprint(nodes.bNode))
      invariant data.Repr !! Footprint(nodes.aNode) + Footprint(nodes.bNode)
    {
      PathPop(path, root, key);
      node := path[|path| - 1];
      path := path[..|path| - 1];
      EditAtShape(m, log, root, h, c, appendPos, i);
      EditAtData(m, log, root, h, c, appendPos, i);
      NoPartsBytes();
      var a, b, sz := 0, 0, 0;
      if nodes.aKey != None {
        a, b, sz := LayNodes(data, dataSz, appendPos, nodes, EditAt(m, root, c, appendPos, i));
      }
      dataSz := dataSz + sz;
      nodes := ClimbStep(m, log, node, a, nodes.aKey, b, nodes.bKey, prevNode, root, h, c, appendPos, i);
      prevNode := node.node;
      i := i - 1;
    }
    FirstEdit(m, root, c, appendPos);
  }

  lemma NoPartsBytes()
    ensures PartsBytes([]) == []
  {
  }

  lemma FirstEdit(m: nat, root: Entry, c: Change, pos: nat)
    ensures EditAt(m, root, c, pos, 0) == EditTree(m, root.kid, c, root.key, pos)
  {
  }

  /** aodbm_search_path */
  method RootPath(m: nat, log: Bytes, ver: nat, key: Bytes, ghost root: Entry, ghost h: nat)
      returns (path: seq<PathNode>)
    requires OnPath(m, log, root, None, h, key) && root.key == [] && root.kid.off == ver + 8
    ensures |path| == |PathTo(root.kid, root.key, key)| == h + 1 && PathIs(path, root, key)
  {
    hide Rank, WF, Stored, PathTo;
    ghost var _ := PathAt(m, log, root, None, h, key, 0);
    path := SearchPathRecursive(log, ver + 8, [], key, [], root.kid);
  }

  /** The body of aodbm_set: the block to append, and the number of the version it makes. */
  method SetUpdate(m: nat, log: Bytes, fileSize: nat, ver: nat, key: Bytes, val: Bytes)
      returns (dat: Bytes, root: nat)
    requires m >= 4 && m % 2 == 0 && VersionOK(m, log, ver) && fileSize == |log|
    requires FitsUpdate(m, log, ver, Modify(key, val))
    ensures var u := UpdateOf(m, log, ver, Modify(key, val)); dat == u.block && root == u.ver
  {
    hide Rank, WF, Stored, EditTree, EditLeaf, OnPath, RootBytes, LeafAt, RootEdit, VersionOK, LeafBytes, Rope.Valid;
    // where the nodes begin, behind the five bytes of the block's header
    var appendPos := fileSize + 5;
    ghost var t, c := TreeOf(log, ver), Modify(key, val);
    ghost var e := EditTree(m, t, c, [], appendPos);
    if ver == 0 {
      var node := MakeLeafNode(key, val);
      node.Prepend(Enc64(ver));
      FirstSet(m, log, key, val);
      dat := node.ToData();
      root := appendPos;
    } else {
      VersionTree(m, log, ver);
      NodeKind(log, t);
      UpdateLonger(e, ver, appendPos);
      if log[ver + 8] == LEAF {
        StoredLeaf(log, t);
        RootLeafSize(m, log, ver);
        EditTreeLeaf(m, t, c, [], appendPos);
        var leaf := InsertIntoLeaf(m, log, key, val, ver + 9, t.recs);
        var data := new Rope.Empty();
        dat, root := ConstructRoot(ver, appendPos, data, 0, leaf, e);
      } else {
        RootOnPath(m, log, ver, key);
        var data, dataSz, nodes := ClimbSet(m, log, ver, key, val, appendPos, Entry([], t), Height(t));
        dat, root := ConstructRoot(ver, appendPos, data, dataSz, nodes, e);
      }
    }
  }

  lemma FirstSet(m: nat, log: Bytes, key: Bytes, val: Bytes)
    requires m >= 4
    ensures var u := UpdateOf(m, log, 0, Modify(key, val));
      u.block == Enc64(0) + LeafBytes([Record(key, val)]) && u.ver == |log| + 5
  {
    hide LeafBytes, Enc64;
  }

  lemma UpdateLonger(e: Edit, prev: nat, pos: nat)
    ensures |e.data| <= |RootEdit(e, prev, pos).block|
  {
    hide RootBytes, PartsBytes, Enc64;
  }

  /** The body of aodbm_del for a key that is in the version. */
  method DelUpdate(m: nat, log: Bytes, fileSize: nat, ver: nat, key: Bytes) returns (dat: Bytes, root: nat)
    requires m >= 4 && m % 2 == 0 && VersionOK(m, log, ver) && ver != 0 && fileSize == |log|
    ensures var u := UpdateOf(m, log, ver, Remove(key)); dat == u.block && root == u.ver
  {
    hide Rank, WF, Stored, EditTree, EditLeaf, OnPath, RootBytes, LeafAt, RootEdit, VersionOK, LeafBytes, Rope.Valid;
    // where the nodes begin, behind the five bytes of the block's header
    var appendPos := fileSize + 5;
    ghost var t, c := TreeOf(log, ver), Remove(key);
    ghost var e := EditTree(m, t, c, [], appendPos);
    VersionTree(m, log, ver);
    NodeKind(log, t);
    if log[ver + 8] == LEAF {
      StoredLeaf(log, t);
      EditTreeLeaf(m, t, c, [], appendPos);
      var res := RemoveFromLeaf(m, log, key, ver + 9, t.recs);
      var data := new Rope.Empty();
      dat, root := ConstructRoot(ver, appendPos, data, 0, res, e);
    } else {
      RootOnPath(m, log, ver, key);
      var data, dataSz, nodes := ClimbDel(m, log, ver, key, appendPos, Entry([], t), Height(t));
      dat, root := ConstructRoot(ver, appendPos, data, dataSz, nodes, e);
    }
  }
}
