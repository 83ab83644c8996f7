/** Versions: the trees that a log holds, one built on another, and the update that makes a new one. */
module Versions {
  import opened Bytes
  import opened Data
  import opened Format
  import opened Trees
  import opened Records
  import opened Edit
  import opened Layout

  ghost function Height(t: Tree): nat
    decreases t
  {
    if t.Leaf? || t.es == [] then 0 else 1 + Height(t.es[0].kid)
  }

  lemma {:induction false} WFHeight(m: nat, t: Tree, lo: Bytes, hi: Option<Bytes>, h: nat)
    requires WF(m, t, lo, hi, h)
    ensures Height(t) == h
    decreases h
  {
    hide Rank;
    if t.Branch? {
      var all := WithFirst(t.es, lo);
      assert WF(m, all[0].kid, all[0].key, HiAt(all, 0, hi), h - 1);
      WFHeight(m, all[0].kid, all[0].key, HiAt(all, 0, hi), h - 1);
    }
  }

  /** The tree of version v.  Version 0 is the empty database, which no bytes represent. */
  ghost function TreeOf(log: Bytes, v: nat): Tree {
    if v == 0 then Leaf(0, [])
    else match Decode(log, v + 8)
      case Some(t) => t
      case None => Leaf(0, [])
  }

  /** aodbm_previous_version */
  function Previous(log: Bytes, v: nat): nat
    requires v + 8 <= |log|
  {
    Read64(log, v)
  }

  ghost function Contents(log: Bytes, v: nat): seq<Record> {
    Flat(TreeOf(log, v))
  }

  lemma EmptyContents(log: Bytes)
    ensures Contents(log, 0) == []
  {
  }

  ghost predicate OneChange(rs: seq<Record>, rs': seq<Record>) {
    exists c :: Apply(rs, c) == rs'
  }

  ghost predicate RootOK(m: nat, t: Tree) {
    RootWF(m, t, Height(t))
  }

  /** v is a version of log: 0, or the position of a well-formed tree that is one change away from
      an earlier version, which the eight bytes at v name. */
  ghost predicate VersionOK(m: nat, log: Bytes, v: nat)
    decreases v
  {
    v == 0 || (
      && v + 8 <= |log| && Decode(log, v + 8).Some? && RootOK(m, TreeOf(log, v))
      && Previous(log, v) < v
      && VersionOK(m, log, Previous(log, v))
      && OneChange(Contents(log, Previous(log, v)), Contents(log, v)))
  }

  lemma VersionTree(m: nat, log: Bytes, v: nat)
    requires VersionOK(m, log, v) && v != 0
    ensures Stored(log, TreeOf(log, v)) && TreeOf(log, v).off == v + 8
  {
    hide Stored;
    DecodeSound(log, v + 8);
  }

  /** The records of every version are sorted. */
  lemma ContentsSorted(m: nat, log: Bytes, v: nat)
    requires VersionOK(m, log, v)
    ensures Increasing(Contents(log, v))
  {
    var t := TreeOf(log, v);
    if WF(m, t, [], None, Height(t)) {
      FlatSorted(m, t, [], None, Height(t));
    }
  }

  /** Appending to the log changes no version: not its tree, its contents or its ancestry. */
  lemma {:induction false} VersionGrows(m: nat, log: Bytes, more: Bytes, v: nat)
    requires VersionOK(m, log, v)
    ensures VersionOK(m, log + more, v)
    ensures TreeOf(log + more, v) == TreeOf(log, v)
    ensures v != 0 ==> Previous(log + more, v) == Previous(log, v)
    decreases v
  {
    hide Stored, RootOK;
    if v != 0 {
      var t := TreeOf(log, v);
      VersionTree(m, log, v);
      StoredGrows(log, more, t);
      DecodeComplete(log + more, t);
      assert (log + more)[v..v + 8] == log[v..v + 8];
      VersionGrows(m, log, more, Previous(log, v));
    }
  }

  // ----- The update that a set or delete appends

  datatype Update = Update(block: Bytes, ver: nat, tree: Tree)

  /** The new root, which has no offset yet, and the bytes laid out before it. */
  ghost function RootOf(e: Edit, pos: nat): (r: (Bytes, Tree)) {
    if e.parts == [] then (e.data, Leaf(0, []))
    else if |e.parts| == 1 then (e.data, e.parts[0].kid)
    else (e.data + PartsBytes(e.parts), BranchPart(Place(e.parts, pos + |e.data|)).kid)
  }

  /** construct_root_di: the root node goes last, behind the number of the version it was made from. */
  ghost function RootEdit(e: Edit, prev: nat, pos: nat): Update {
    var (data, root) := RootOf(e, pos);
    Update(data + Enc64(prev) + RootBytes(root), pos + |data|, root.(off := pos + |data| + 8))
  }

  /** What changing version v by c appends to log, and the version this makes.  The nodes go right
      after the five bytes of the block's header. */
  ghost function UpdateOf(m: nat, log: Bytes, v: nat, c: Change): Update {
    RootEdit(EditTree(m, TreeOf(log, v), c, [], |log| + 5), v, |log| + 5)
  }

  ghost predicate FitsUpdate(m: nat, log: Bytes, v: nat, c: Change) {
    var u := UpdateOf(m, log, v, c);
    FitsChange(c) && |u.block| < TWO_32 && |log| + 5 + |u.block| <= TWO_64
  }

  lemma RootShape(m: nat, t: Tree, c: Change, pos: nat)
    requires m >= 4 && m % 2 == 0 && RootOK(m, t)
    ensures var e := EditTree(m, t, c, [], pos);
      var root := RootOf(e, pos).1;
      && |e.parts| <= 2
      && RootOK(m, root) && Flat(root) == Apply(Flat(t), c)
      && Height(root) <= Height(t) + 1
      && (c.Remove? ==> |e.parts| <= 1 && (Height(root) == Height(t) || root == Leaf(0, [])))
  {
    hide Rank, Apply;
    var e, h := EditTree(m, t, c, [], pos), Height(t);
    EmptyIsLeast(c.key);
    if WF(m, t, [], None, h) {
      EditShape(m, t, c, [], None, h, pos);
    } else {
      EditLeafShape(m, t.recs, c, [], None);
    }
    PartsRoot(m, e, pos, h, Apply(Flat(t), c));
  }

  lemma PartsRoot(m: nat, e: Edit, pos: nat, h: nat, rs: seq<Record>)
    requires m >= 4 && Replaces(m, e.parts, [], None, h, rs)
    ensures var root := RootOf(e, pos).1;
      && RootOK(m, root) && Flat(root) == rs
      && Height(root) <= h + 1
      && (|e.parts| <= 1 ==> Height(root) == h || root == Leaf(0, []))
  {
    hide Rank, RootBytes, WF, Chain, RootOK, Height, Flat, Place, PartsBytes, BranchPart;
    if e.parts == [] {
      EmptyRoot(m);
    } else if |e.parts| == 1 {
      assert e.parts == [e.parts[0]];
      FlatEntriesOne(e.parts[0]);
      OneRoot(m, e.parts[0], h);
    } else {
      TwoRoot(m, e.parts, pos + |e.data|, h);
    }
  }

  lemma EmptyRoot(m: nat)
    ensures RootOK(m, Leaf(0, [])) && Flat(Leaf(0, [])) == [] && Height(Leaf(0, [])) == 0
  {
  }

  lemma OneRoot(m: nat, part: Entry, h: nat)
    requires Chain(m, [part], None, h) && Le([], part.key)
    ensures RootOK(m, part.kid) && Height(part.kid) == h
  {
    hide Rank;
    assert WF(m, [part][0].kid, [part][0].key, HiAt([part], 0, None), h);
    Loosen(m, part.kid, part.key, None, [], None, h);
    WFHeight(m, part.kid, [], None, h);
  }

  lemma TwoRoot(m: nat, parts: seq<Entry>, pos: nat, h: nat)
    requires m >= 4 && |parts| == 2 && Chain(m, parts, None, h) && Le([], parts[0].key)
    ensures var root := BranchPart(Place(parts, pos)).kid;
      RootOK(m, root) && Height(root) == h + 1 && Flat(root) == FlatEntries(parts)
  {
    hide Rank, WF, Chain, BranchPart, RootOK, Place, Flat, FlatEntries;
    var placed := Place(parts, pos);
    PlaceShape(m, parts, pos, None, h);
    BranchPartShape(m, placed, None, h);
    FlatEntriesOne(BranchPart(placed));
    BranchPartKey(placed);
    OneRoot(m, BranchPart(placed), h + 1);
  }

  lemma BranchPartKey(es: seq<Entry>)
    requires es != []
    ensures BranchPart(es).key == es[0].key
  {
  }

  lemma EditReadyRoot(m: nat, log: Bytes, v: nat, c: Change, hdr: Bytes)
    requires m >= 4 && m % 2 == 0 && m < TWO_32 && VersionOK(m, log, v) && FitsChange(c) && |hdr| == 5
    requires |log| + 5 + |EditTree(m, TreeOf(log, v), c, [], |log| + 5).data| <= TWO_64
    ensures var e := EditTree(m, TreeOf(log, v), c, [], |log| + 5);
      AllReady(log + hdr + e.data, e.parts)
  {
    hide Rank, Stored, AllReady, WF, EditLeaf;
    var t := TreeOf(log, v);
    EmptyIsLeast(c.key);
    if WF(m, t, [], None, Height(t)) {
      NotEmpty(m, t);
      VersionTree(m, log, v);
      EditReady(m, t, c, [], None, Height(t), log, hdr);
    } else {
      assert t.Leaf? && t.recs == [];
      EditLeafReady(m, [], c, [], None, log + hdr + []);
    }
  }

  lemma NotEmpty(m: nat, t: Tree)
    requires WF(m, t, [], None, Height(t))
    ensures t != Leaf(0, [])
  {
  }

  lemma RootReady(e: Edit, file: Bytes, pos: nat)
    requires |e.parts| <= 2 && AllReady(file, e.parts) && |file| == pos + |e.data| && file != []
    requires |e.parts| == 2 ==> |file| + |PartsBytes(e.parts)| <= TWO_64
    ensures var (data, root) := RootOf(e, pos);
      Ready(if |e.parts| == 2 then file + PartsBytes(e.parts) else file, root)
  {
    hide Stored;
    if |e.parts| == 2 {
      var placed := Place(e.parts, |file|);
      WriteParts(file, e.parts);
      BranchReady(file + PartsBytes(e.parts), placed);
    }
  }

  lemma UpdateStored(m: nat, log: Bytes, v: nat, c: Change, hdr: Bytes)
    requires m >= 4 && m % 2 == 0 && m < TWO_32 && VersionOK(m, log, v)
    requires FitsUpdate(m, log, v, c) && |hdr| == 5
    ensures var u := UpdateOf(m, log, v, c);
      var log' := log + hdr + u.block;
      && Stored(log', u.tree) && u.tree.off == u.ver + 8 && |log| + 5 <= u.ver
      && u.ver + 8 <= |log'| && Previous(log', u.ver) == v
  {
    hide Rank, Stored, AllReady, Ready, RootBytes, EditTree, RootOf, Apply, RootOK, VersionOK, Place, TreeOf, Previous,
      Enc64, PartsBytes, FitsChange;
    var t, pos := TreeOf(log, v), |log| + 5;
    var e := EditTree(m, t, c, [], pos);
    var (data, root) := RootOf(e, pos);
    RootData(e, pos);
    RootShapeOf(m, log, v, c, pos);
    EditReadyRoot(m, log, v, c, hdr);
    RootReady(e, log + hdr + e.data, pos);
    assert log + hdr + e.data + PartsBytes(e.parts) == log + hdr + (e.data + PartsBytes(e.parts));
    VersionInside(m, log, v);
    LayRoot(log + hdr, data, v, root);
  }

  lemma RootData(e: Edit, pos: nat)
    ensures RootOf(e, pos).0 == if |e.parts| < 2 then e.data else e.data + PartsBytes(e.parts)
  {
  }

  lemma RootShapeOf(m: nat, log: Bytes, v: nat, c: Change, pos: nat)
    requires m >= 4 && m % 2 == 0 && VersionOK(m, log, v)
    ensures |EditTree(m, TreeOf(log, v), c, [], pos).parts| <= 2
  {
    hide Rank, WF, EditTree;
    RootShape(m, TreeOf(log, v), c, pos);
  }

  lemma VersionInside(m: nat, log: Bytes, v: nat)
    requires VersionOK(m, log, v)
    ensures v <= |log|
  {
  }

  lemma LayRoot(file: Bytes, data: Bytes, prev: nat, root: Tree)
    requires Ready(file + data, root) && file != [] && prev < TWO_64
    ensures var log' := file + (data + Enc64(prev) + RootBytes(root));
      var ver := |file| + |data|;
      Stored(log', root.(off := ver + 8)) && ver + 8 <= |log'| && Previous(log', ver) == prev
  {
    hide Stored, Ready, RootBytes, Enc64, Dec64;
    var before := file + data;
    var log' := file + (data + Enc64(prev) + RootBytes(root));
    ReadyGrows(before, Enc64(prev), root);
    WriteNode(before + Enc64(prev), root);
    assert log' == (before + Enc64(prev)) + RootBytes(root);
    AtEnd(before, Enc64(prev));
    AtGrows(before + Enc64(prev), RootBytes(root), |before|, Enc64(prev));
    Read64Iff(log', |before|, prev);
  }

  lemma NewVersion(m: nat, log: Bytes, v: nat, u: Update, c: Change)
    requires v < u.ver && u.ver + 8 <= |log| && Previous(log, u.ver) == v && VersionOK(m, log, v)
    requires Decode(log, u.ver + 8) == Some(u.tree) && RootOK(m, u.tree)
    requires Flat(u.tree) == Apply(Contents(log, v), c)
    ensures VersionOK(m, log, u.ver) && Contents(log, u.ver) == Flat(u.tree)
  {
    hide Rank, Decode, Apply, RootOK, Flat, Read64;
    assert OneChange(Contents(log, v), Contents(log, u.ver));
  }

  /** The central result for set and delete.  For every version v of every log, the block that a
      change of v appends makes u.ver a version: read back from the bytes of the file, its tree is
      well formed, its records are those of v with exactly that change made, and v is its predecessor. */
  lemma UpdateCorrect(m: nat, log: Bytes, v: nat, c: Change, hdr: Bytes)
    requires m >= 4 && m % 2 == 0 && m < TWO_32 && VersionOK(m, log, v)
    requires FitsUpdate(m, log, v, c) && |hdr| == 5
    ensures var u := UpdateOf(m, log, v, c);
      var log' := log + hdr + u.block;
      && |log| < u.ver && VersionOK(m, log', u.ver) && Previous(log', u.ver) == v
      && Decode(log', u.ver + 8) == Some(u.tree)
      && Contents(log', u.ver) == Apply(Contents(log, v), c)
      && MapOf(Contents(log', u.ver)) == ApplyMap(MapOf(Contents(log, v)), c)
  {
    hide Rank, Stored, Decode, Apply, UpdateOf, RootOK, MapOf, ApplyMap, Increasing, VersionOK, Flat, Height, Read64;
    var u := UpdateOf(m, log, v, c);
    var log' := log + hdr + u.block;
    UpdateStored(m, log, v, c, hdr);
    DecodeComplete(log', u.tree);
    UpdateShape(m, log, v, c);
    assert log' == log + (hdr + u.block);
    VersionGrows(m, log, hdr + u.block, v);
    VersionInside(m, log, v);
    NewVersion(m, log', v, u, c);
    ContentsSorted(m, log, v);
    ApplyIsMapChange(Contents(log, v), c);
  }

  /** A set raises the height by at most one; a removal keeps it unless it leaves an empty root. */
  lemma UpdateShape(m: nat, log: Bytes, v: nat, c: Change)
    requires m >= 4 && m % 2 == 0 && VersionOK(m, log, v)
    ensures var u, t := UpdateOf(m, log, v, c), TreeOf(log, v);
      && RootOK(m, u.tree) && Flat(u.tree) == Apply(Flat(t), c)
      && Height(u.tree) <= Height(t) + 1
      && (c.Remove? ==> Height(u.tree) == Height(t) || Flat(u.tree) == [])
  {
    hide Rank, Apply, EditTree, RootBytes, RootOf, TreeOf, VersionOK, Height, Flat;
    var t, pos := TreeOf(log, v), |log| + 5;
    assert RootOK(m, t) by { VersionRoot(m, log, v); }
    hide RootOK;
    RootShape(m, t, c, pos);
    var u := UpdateOf(m, log, v, c);
    MovedRoot(m, RootOf(EditTree(m, t, c, [], pos), pos).1, u.ver + 8);
    FlatEmpty(0);
  }

  lemma VersionRoot(m: nat, log: Bytes, v: nat)
    requires VersionOK(m, log, v)
    ensures RootOK(m, TreeOf(log, v))
  {
    hide WF;
  }

  lemma FlatEmpty(off: nat)
    ensures Flat(Leaf(off, [])) == []
  {
  }

  lemma MovedRoot(m: nat, t: Tree, off: nat)
    ensures RootOK(m, t.(off := off)) == RootOK(m, t)
    ensures Height(t.(off := off)) == Height(t) && Flat(t.(off := off)) == Flat(t)
  {
    hide Rank, WF, Flat;
    assert Height(t.(off := off)) == Height(t);
    Moved(m, t, off, [], None, Height(t));
  }
}
