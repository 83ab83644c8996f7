/** Path copying: an update writes only the nodes on the search path, and shares every other subtree
    with the version it was made from. */
module Sharing {
  import opened Bytes
  import opened Data
  import opened Format
  import opened Trees
  import opened Records
  import opened Edit
  import opened Layout
  import opened Versions

  // ----- How much is written

  /** A number of nodes and the number of bytes they take. */
  datatype Amount = Amount(nodes: nat, bytes: nat)

  const NOTHING := Amount(0, 0)

  ghost function Plus(a: Amount, b: Amount): Amount {
    Amount(a.nodes + b.nodes, a.bytes + b.bytes)
  }

  ghost function OneNode(t: Tree): Amount {
    Amount(1, |RootBytes(t)|)
  }

  /** Those of t's nodes that lie at or behind position p of the file. */
  ghost function NewNodes(t: Tree, p: nat): Amount
    decreases t
  {
    if t.off < p then NOTHING else Plus(OneNode(t), NewBelow(t, p))
  }

  ghost function NewBelow(t: Tree, p: nat): Amount
    decreases t, 0
  {
    match t
    case Leaf(_, _) => NOTHING
    case Branch(_, es) => NewIn(es, p)
  }

  ghost function NewIn(es: seq<Entry>, p: nat): Amount
    decreases es
  {
    if es == [] then NOTHING else Plus(NewNodes(es[0].kid, p), NewIn(es[1..], p))
  }

  /** The new nodes once the nodes of parts are written as well. */
  ghost function Cost(parts: seq<Entry>, p: nat): Amount {
    if parts == [] then NOTHING
    else Plus(Plus(OneNode(parts[0].kid), NewBelow(parts[0].kid, p)), Cost(parts[1..], p))
  }

  /** The nodes of parts themselves. */
  ghost function Own(parts: seq<Entry>): Amount {
    Amount(|parts|, |PartsBytes(parts)|)
  }

  lemma PlusNothing(a: Amount)
    ensures Plus(NOTHING, a) == a && Plus(a, NOTHING) == a
  {
  }

  lemma PlusAssociates(a: Amount, b: Amount, c: Amount)
    ensures Plus(Plus(a, b), c) == Plus(a, Plus(b, c))
  {
  }

  lemma {:induction false} NewInAppend(a: seq<Entry>, b: seq<Entry>, p: nat)
    ensures NewIn(a + b, p) == Plus(NewIn(a, p), NewIn(b, p))
  {
    hide NewNodes, Plus;
    PlusNothing(NewIn(b, p));
    if a == [] {
      assert a + b == b;
    } else {
      assert (a + b)[1..] == a[1..] + b;
      NewInAppend(a[1..], b, p);
      PlusAssociates(NewNodes(a[0].kid, p), NewIn(a[1..], p), NewIn(b, p));
    }
  }

  lemma OldNode(t: Tree, p: nat)
    requires t.off < p
    ensures NewNodes(t, p) == NOTHING
  {
  }

  lemma NewInNone(p: nat)
    ensures NewIn([], p) == NOTHING && Cost([], p) == NOTHING && Own([]) == NOTHING
  {
  }

  lemma {:induction false} NoneNew(es: seq<Entry>, p: nat)
    requires forall i :: 0 <= i < |es| ==> es[i].kid.off < p
    ensures NewIn(es, p) == NOTHING
  {
    hide NewNodes;
    if es == [] {
      NewInNone(p);
    } else {
      OldNode(es[0].kid, p);
      assert forall i :: 0 <= i < |es[1..]| ==> es[1..][i] == es[i + 1];
      NoneNew(es[1..], p);
    }
  }

  /** A node that is placed at or behind p is new, with everything new below it. */
  lemma PlacedNode(t: Tree, pos: nat, p: nat)
    requires p <= pos
    ensures NewNodes(t.(off := pos), p) == Plus(OneNode(t), NewBelow(t, p))
  {
    hide NodeBytes, NewIn;
  }

  lemma {:induction false} PlacedCost(parts: seq<Entry>, pos: nat, p: nat)
    requires p <= pos
    ensures NewIn(Place(parts, pos), p) == Cost(parts, p)
    decreases |parts|
  {
    hide RootBytes, NewNodes, NewBelow, OneNode, Plus;
    if parts != [] {
      var placed, next := Place(parts, pos), pos + |RootBytes(parts[0].kid)|;
      assert placed[1..] == Place(parts[1..], next);
      PlacedNode(parts[0].kid, pos, p);
      PlacedCost(parts[1..], next, p);
    }
  }

  lemma BranchPartCost(es: seq<Entry>, p: nat)
    requires es != []
    ensures NewBelow(BranchPart(es).kid, p) == NewIn(es, p)
  {
    hide RootBytes, NewNodes;
    assert WithFirst(es, [])[1..] == es[1..];
  }

  lemma OneCost(e: Entry, p: nat)
    ensures Cost([e], p) == Plus(Own([e]), NewBelow(e.kid, p))
  {
    hide RootBytes, NewBelow;
    assert PartsBytes([e]) == RootBytes(e.kid) + [];
  }

  lemma TwoCost(a: Entry, b: Entry, p: nat)
    ensures Cost([a, b], p) == Plus(Own([a, b]), Plus(NewBelow(a.kid, p), NewBelow(b.kid, p)))
  {
    hide RootBytes, NewBelow;
    OneCost(b, p);
    assert [a, b][1..] == [b];
  }

  lemma SplitCost(m: nat, es: seq<Entry>, p: nat)
    requires m >= 4
    ensures Cost(SplitParts(m, es), p) == Plus(Own(SplitParts(m, es)), NewIn(es, p))
  {
    hide SplitParts, BranchPart, NewBelow, RootBytes, NewIn, PartsBytes, Cost, Own, Plus;
    var a, b := SplitCases(m, es);
    if es == [] {
      NewInNone(p);
      PlusNothing(NOTHING);
    } else if |es| < m {
      BranchPartCost(es, p);
      OneCost(BranchPart(es), p);
    } else {
      HalvesCost(a, b, p);
    }
  }

  lemma SplitCases(m: nat, es: seq<Entry>) returns (a: seq<Entry>, b: seq<Entry>)
    requires m >= 4
    ensures es == [] ==> SplitParts(m, es) == []
    ensures 0 < |es| < m ==> SplitParts(m, es) == [BranchPart(es)]
    ensures |es| >= m ==>
      SplitParts(m, es) == [BranchPart(a), BranchPart(b)] && a + b == es && a != [] && b != []
  {
    hide BranchPart;
    a, b := es, [];
    if |es| >= m {
      a, b := es[..m / 2], es[m / 2..];
    }
  }

  lemma HalvesCost(a: seq<Entry>, b: seq<Entry>, p: nat)
    requires a != [] && b != []
    ensures var parts := [BranchPart(a), BranchPart(b)]; Cost(parts, p) == Plus(Own(parts), NewIn(a + b, p))
  {
    hide BranchPart, NewBelow, RootBytes, NewIn, PartsBytes, Cost;
    BranchPartCost(a, p);
    BranchPartCost(b, p);
    NewInAppend(a, b, p);
    TwoCost(BranchPart(a), BranchPart(b), p);
  }

  lemma LeafCost(m: nat, rs: seq<Record>, c: Change, p: nat)
    ensures Cost(EditLeaf(m, rs, c), p) == Own(EditLeaf(m, rs, c))
  {
    hide Rank, Put, Delete, Cost, Own;
    LeavesCost(EditLeaf(m, rs, c), p);
  }

  lemma {:induction false} LeavesCost(parts: seq<Entry>, p: nat)
    requires forall i :: 0 <= i < |parts| ==> parts[i].kid.Leaf?
    ensures Cost(parts, p) == Own(parts)
  {
    hide RootBytes;
    if parts != [] {
      LeavesCost(parts[1..], p);
    }
  }

  /** The bytes laid out for an edit, and then those of the nodes that replace the root, are exactly the
      bytes of the new nodes, and each level of the path costs at most the nodes that replace the node on it. */
  lemma {:induction false} EditCost(
      m: nat, t: Tree, c: Change, lo: Bytes, hi: Option<Bytes>, h: nat, log: Bytes, pos: nat)
    requires m >= 4 && m % 2 == 0 && WF(m, t, lo, hi, h) && Stored(log, t)
    requires Le(lo, c.key) && Below(c.key, hi) && |log| <= pos
    ensures var e := EditTree(m, t, c, lo, pos);
      var n := Cost(e.parts, |log|);
      && n.bytes == |e.data| + |PartsBytes(e.parts)|
      && (c.Modify? ==> n.nodes <= 2 * (h + 1)) && (c.Remove? ==> n.nodes <= h + 1)
    decreases h
  {
    hide Rank, WF, Stored, Replaces, Apply, EditLeaf, SplitParts, Splice, Cost, PartsBytes, FindChild;
    hide Place, RootBytes, WithFirst, NewIn, At, FitsNode, BranchBytes, Slots;
    EditShape(m, t, c, lo, hi, h, pos);
    match t
    case Leaf(_, rs) =>
      LeafCost(m, rs, c, |log|);
    case Branch(_, es) =>
      var j, hi' := KidShape(m, t, lo, hi, h, c.key);
      var key := KeyAt(es, j, lo);
      StoredBranch(log, t);
      EditCost(m, es[j].kid, c, key, hi', h - 1, log, pos);
      var below := EditTree(m, es[j].kid, c, key, pos);
      var placed := Place(below.parts, pos + |below.data|);
      SpliceCost(log, es, lo, j, placed);
      PlacedCost(below.parts, pos + |below.data|, |log|);
      SplitCost(m, Splice(WithFirst(es, lo), j, placed), |log|);
  }

  lemma SpliceCost(log: Bytes, es: seq<Entry>, lo: Bytes, j: nat, placed: seq<Entry>)
    requires j < |es| && forall i :: 0 <= i < |es| ==> Stored(log, es[i].kid)
    ensures NewIn(Splice(WithFirst(es, lo), j, placed), |log|) == NewIn(placed, |log|)
  {
    hide Stored, NewIn, Plus;
    var all := WithFirst(es, lo);
    PlusNothing(NewIn(placed, |log|));
    forall i | 0 <= i < |es|
      ensures all[i].kid.off < |log|
    {
      StoredInside(log, es[i].kid);
    }
    NoneNew(all[..j], |log|);
    NoneNew(all[j + 1..], |log|);
    NewInAppend(all[..j] + placed, all[j + 1..], |log|);
    NewInAppend(all[..j], placed, |log|);
  }

  /** Every byte that an update writes, but for the eight of the previous version's number, belongs to a
      node of the new tree.  On a version of height d a set writes at most 2 (d + 1) + 1 of these nodes,
      and a delete at most d + 1. */
  lemma WriteBound(m: nat, log: Bytes, v: nat, c: Change)
    requires m >= 4 && m % 2 == 0 && VersionOK(m, log, v)
    ensures var u, d := UpdateOf(m, log, v, c), Height(TreeOf(log, v));
      var n := NewNodes(u.tree, |log|);
      && |u.block| == 8 + n.bytes
      && (c.Modify? ==> n.nodes <= 2 * (d + 1) + 1) && (c.Remove? ==> n.nodes <= d + 1)
  {
    hide Rank, WF, Stored, EditTree, EditLeaf, RootEdit, Cost, NewNodes, VersionOK, TreeOf, PartsBytes, Replaces;
    var t, d, pos := TreeOf(log, v), Height(TreeOf(log, v)), |log| + 5;
    RootIsTree(m, log, v, c.key);
    var e := EditTree(m, t, c, [], pos);
    if WF(m, t, [], None, d) {
      EditCost(m, t, c, [], None, d, log, pos);
      EditShape(m, t, c, [], None, d, pos);
    } else {
      LeafCost(m, t.recs, c, |log|);
      EmptyRootEdit(m, t, c, pos);
    }
    RootCost(e, v, pos, |log|);
  }

  lemma EmptyRootEdit(m: nat, t: Tree, c: Change, pos: nat)
    requires m >= 4 && m % 2 == 0 && t.Leaf? && t.recs == [] && Le([], c.key)
    ensures EditTree(m, t, c, [], pos) == Edit([], EditLeaf(m, t.recs, c))
    ensures |EditLeaf(m, t.recs, c)| <= 1
  {
    hide Rank;
  }

  lemma RootIsTree(m: nat, log: Bytes, v: nat, k: Bytes)
    requires VersionOK(m, log, v)
    ensures var t := TreeOf(log, v);
      && Le([], k) && Below(k, None)
      && if WF(m, t, [], None, Height(t)) then Stored(log, t) else t.Leaf? && t.recs == []
  {
    hide Rank, Stored;
    EmptyIsLeast(k);
    if WF(m, TreeOf(log, v), [], None, Height(TreeOf(log, v))) {
      VersionTree(m, log, v);
    }
  }

  lemma RootCost(e: Edit, prev: nat, pos: nat, p: nat)
    requires |e.parts| <= 2 && p <= pos
    requires Cost(e.parts, p).bytes == |e.data| + |PartsBytes(e.parts)|
    ensures var u := RootEdit(e, prev, pos);
      var n := NewNodes(u.tree, p);
      && |u.block| == 8 + n.bytes
      && n.nodes == if e.parts == [] then 1 else Cost(e.parts, p).nodes + |e.parts| - 1
  {
    hide RootBytes, Place, NewNodes, NewBelow, Enc64, BranchPart;
    var (data, root) := RootOf(e, pos);
    PlacedNode(root, pos + |data| + 8, p);
    if |e.parts| == 2 {
      var placed := Place(e.parts, pos + |e.data|);
      BranchPartCost(placed, p);
      PlacedCost(e.parts, pos + |e.data|, p);
    } else if |e.parts| == 1 {
      assert e.parts == [e.parts[0]];
      OneCost(e.parts[0], p);
      assert PartsBytes(e.parts) == RootBytes(e.parts[0].kid) + [];
    } else {
      LeafBelow(p);
    }
  }

  lemma LeafBelow(p: nat)
    ensures NewBelow(Leaf(0, []), p) == NOTHING
  {
  }

  // ----- What is shared

  ghost predicate SubtreeOf(s: Tree, t: Tree)
    decreases t
  {
    s == t || (t.Branch? && exists i :: 0 <= i < |t.es| && SubtreeOf(s, t.es[i].kid))
  }

  /** s lies below the root of t. */
  ghost predicate Under(s: Tree, t: Tree) {
    t.Branch? && exists i :: 0 <= i < |t.es| && SubtreeOf(s, t.es[i].kid)
  }

  ghost predicate UnderAny(s: Tree, parts: seq<Entry>) {
    exists i :: 0 <= i < |parts| && Under(s, parts[i].kid)
  }

  /** s hangs off the path to k in t: it is a child that the path passes by. */
  ghost predicate OffPath(s: Tree, t: Tree, k: Bytes)
    decreases t
  {
    t.Branch? && t.es != [] &&
    var j := FindChild(t.es, k, 0);
    || (exists i :: 0 <= i < |t.es| && i != j && t.es[i].kid == s)
    || OffPath(s, t.es[j].kid, k)
  }

  lemma InList(s: Tree, m: nat, l: seq<Entry>, i: nat)
    requires m >= 4 && i < |l| && SubtreeOf(s, l[i].kid)
    ensures UnderAny(s, SplitParts(m, l))
  {
    hide SubtreeOf;
    var parts := SplitParts(m, l);
    if |l| < m {
      UnderPart(s, l, i);
      assert Under(s, parts[0].kid);
    } else if i < m / 2 {
      UnderPart(s, l[..m / 2], i);
      assert Under(s, parts[0].kid);
    } else {
      UnderPart(s, l[m / 2..], i - m / 2);
      assert Under(s, parts[1].kid);
    }
  }

  lemma UnderPart(s: Tree, l: seq<Entry>, i: nat)
    requires i < |l| && SubtreeOf(s, l[i].kid)
    ensures Under(s, BranchPart(l).kid)
  {
    hide SubtreeOf;
    assert BranchPart(l).kid.es[i].kid == l[i].kid;
  }

  lemma {:induction false} PlacedUnder(s: Tree, parts: seq<Entry>, pos: nat) returns (i: nat)
    requires UnderAny(s, parts)
    ensures i < |parts| && SubtreeOf(s, Place(parts, pos)[i].kid)
    decreases |parts|
  {
    hide RootBytes;
    if Under(s, parts[0].kid) {
      i := 0;
      assert Place(parts, pos)[0].kid.es == parts[0].kid.es;
    } else {
      var n :| 0 <= n < |parts| && Under(s, parts[n].kid);
      assert parts[1..][n - 1] == parts[n];
      i := PlacedUnder(s, parts[1..], pos + |RootBytes(parts[0].kid)|);
      i := i + 1;
    }
  }

  /** Every subtree off the search path is a subtree, at the same offset, of what replaces the tree. */
  lemma {:induction false} EditShares(m: nat, t: Tree, c: Change, lo: Bytes, pos: nat, s: Tree)
    requires m >= 4 && OffPath(s, t, c.key)
    ensures UnderAny(s, EditTree(m, t, c, lo, pos).parts)
    decreases t
  {
    hide SubtreeOf, UnderAny, SplitParts, RootBytes, PartsBytes, EditLeaf, FindChild, Place, WithFirst, Splice;
    var es, j := t.es, FindChild(t.es, c.key, 0);
    var below := EditTree(m, es[j].kid, c, KeyAt(es, j, lo), pos);
    var placed := Place(below.parts, pos + |below.data|);
    var l := Splice(WithFirst(es, lo), j, placed);
    var n: nat;
    if i :| 0 <= i < |es| && i != j && es[i].kid == s {
      SubtreeSelf(s);
      n := SpliceKeeps(es, lo, j, placed, i);
    } else {
      EditShares(m, es[j].kid, c, KeyAt(es, j, lo), pos, s);
      var i := PlacedUnder(s, below.parts, pos + |below.data|);
      SplicePuts(es, lo, j, placed, i);
      n := j + i;
    }
    InList(s, m, l, n);
  }

  lemma SpliceKeeps(es: seq<Entry>, lo: Bytes, j: nat, placed: seq<Entry>, i: nat) returns (n: nat)
    requires j < |es| && i < |es| && i != j
    ensures var l := Splice(WithFirst(es, lo), j, placed); n < |l| && l[n].kid == es[i].kid
  {
    n := if i < j then i else i - 1 + |placed|;
    assert Splice(WithFirst(es, lo), j, placed)[n] == WithFirst(es, lo)[i];
  }

  lemma SplicePuts(es: seq<Entry>, lo: Bytes, j: nat, placed: seq<Entry>, i: nat)
    requires j < |es| && i < |placed|
    ensures var l := Splice(WithFirst(es, lo), j, placed); j + i < |l| && l[j + i] == placed[i]
  {
  }

  lemma SubtreeSelf(s: Tree)
    ensures SubtreeOf(s, s)
  {
  }

  lemma RootHasParts(e: Edit, prev: nat, pos: nat, s: Tree)
    requires 1 <= |e.parts| <= 2 && UnderAny(s, e.parts)
    ensures SubtreeOf(s, RootEdit(e, prev, pos).tree)
  {
    hide Place, PartsBytes, RootBytes;
    var root := RootOf(e, pos).1;
    assert Under(s, root) by {
      if |e.parts| == 1 {
        assert Under(s, e.parts[0].kid);
      } else {
        var i := PlacedUnder(s, e.parts, pos + |e.data|);
        UnderPart(s, Place(e.parts, pos + |e.data|), i);
      }
    }
    assert RootEdit(e, prev, pos).tree.es == root.es;
  }

  /** Every subtree that the path to the changed key passes by is shared, by its offset, between a
      version and the version made from it. */
  lemma UpdateShares(m: nat, log: Bytes, v: nat, c: Change, s: Tree)
    requires m >= 4 && m % 2 == 0 && VersionOK(m, log, v) && OffPath(s, TreeOf(log, v), c.key)
    ensures SubtreeOf(s, UpdateOf(m, log, v, c).tree)
  {
    hide EditTree, OffPath, VersionOK, RootEdit, TreeOf, SubtreeOf;
    var t, pos := TreeOf(log, v), |log| + 5;
    EditShares(m, t, c, [], pos, s);
    RootShapeOf(m, log, v, c, pos);
    RootHasParts(EditTree(m, t, c, [], pos), v, pos, s);
  }
}
