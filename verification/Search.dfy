/** Finding a key in the file (aodbm_search, aodbm_search_path, aodbm_get and aodbm_has).  The log
    parameter is the file of the database; the ghost parameter t is the tree stored at node. */
module Search {
  import opened Bytes
  import opened Data
  import opened Format
  import opened Trees
  import opened Records
  import opened Edit
  import opened Versions
  import opened LeafOps
  import opened BranchOps

  ghost function LeafFor(t: Tree, k: Bytes): Tree
    decreases t
  {
    if t.Leaf? || t.es == [] then t else LeafFor(t.es[FindChild(t.es, k, 0)].kid, k)
  }

  /** The nodes from t down to the leaf where k belongs, each with the lower bound of its keys. */
  ghost function PathTo(t: Tree, lo: Bytes, k: Bytes): (p: seq<Entry>)
    ensures p != [] && p[0] == Entry(lo, t)
    decreases t
  {
    if t.Leaf? || t.es == [] then [Entry(lo, t)]
    else
      var j := FindChild(t.es, k, 0);
      [Entry(lo, t)] + PathTo(t.es[j].kid, KeyAt(t.es, j, lo), k)
  }

  /** aodbm_path_node */
  datatype PathNode = PathNode(key: Bytes, node: nat)

  ghost function Nodes(p: seq<Entry>): (r: seq<PathNode>)
    ensures |r| == |p|
  {
    seq(|p|, i requires 0 <= i < |p| => PathNode(p[i].key, p[i].kid.off))
  }

  lemma StoredLeaf(log: Bytes, t: Tree)
    requires Stored(log, t) && t.Leaf?
    ensures t.off < |log| && log[t.off] == LEAF && LeafAt(log, t.off + 1, t.recs)
  {
    hide Enc32, RecordsBytes;
    AtSplit(log, t.off, [LEAF] + Enc32(|t.recs|), RecordsBytes(t.recs));
    AtSplit(log, t.off, [LEAF], Enc32(|t.recs|));
    AtSplit(log, t.off + 1, Enc32(|t.recs|), RecordsBytes(t.recs));
  }

  /** Where a search in a branch ends: the child for key, its offset and its lower bound. */
  method SearchBranch(log: Bytes, node: nat, nodeKey: Bytes, key: Bytes, ghost t: Tree)
      returns (off: nat, prevKey: Bytes, ghost j: nat)
    requires Stored(log, t) && t.Branch? && t.off == node
    ensures t.es != [] && j == FindChild(t.es, key, 0) && Stored(log, t.es[j].kid)
    ensures off == t.es[FindChild(t.es, key, 0)].kid.off
    ensures prevKey == KeyAt(t.es, FindChild(t.es, key, 0), nodeKey)
  {
    hide At, Stored, BranchBytes, SlotsBytes, FitsNode, FitsSlots, Rank;
    StoredBranch(log, t);
    ghost var ss := Slots(t.es);
    BranchAtParts(log, node, ss);
    NoSlots(ss[1..]);
    prevKey := nodeKey;
    var sz := Read32(log, node + 1);
    var pos := node + 5;
    off := Read64(log, pos);
    pos := pos + 8;
    j := 0;
    var i := 0;
    while i < sz
      invariant 0 <= i <= sz == |t.es| - 1 && j == i
      invariant pos == node + 13 + |SlotsBytes(ss[1..][..i])|
      invariant off == t.es[i].kid.off && prevKey == KeyAt(t.es, i, nodeKey)
      invariant FindChild(t.es, key, i) == FindChild(t.es, key, 0)
    {
      var dat, next, p := ReadSlot(log, pos, node + 13, ss[1..], i);
      assert ss[1..][i] == ss[i + 1];
      pos := p;
      var lt := DataLt(key, dat);
      if lt {
        return;
      }
      prevKey := dat;
      off := next;
      i := i + 1;
      j := j + 1;
    }
  }

  /** aodbm_search_recursive: the leaf where key belongs. */
  method SearchRecursive(log: Bytes, node: nat, key: Bytes, ghost t: Tree) returns (leaf: nat)
    requires Stored(log, t) && t.off == node
    ensures leaf == LeafFor(t, key).off && LeafFor(t, key).Leaf? && Stored(log, LeafFor(t, key))
    decreases t
  {
    hide At, Stored, BranchBytes, FitsNode, LeafAt, Rank;
    NodeKind(log, t);
    var kind := log[node];
    if kind == LEAF {
      return node;
    }
    var off, prevKey, j := SearchBranch(log, node, [], key, t);
    leaf := SearchRecursive(log, off, key, t.es[j].kid);
  }

  lemma NodeKind(log: Bytes, t: Tree)
    requires Stored(log, t)
    ensures t.off < |log| && (t.Leaf? <==> log[t.off] == LEAF) && (t.Branch? <==> log[t.off] == BRANCH)
  {
    hide Stored, LeafAt;
    if t.Leaf? {
      StoredLeaf(log, t);
    } else {
      StoredBranch(log, t);
      BranchAtParts(log, t.off, Slots(t.es));
    }
  }

  /** aodbm_search_path_recursive: pushes the path to the leaf where key belongs, and never meets a
      node whose lower bound exceeds key. */
  method SearchPathRecursive(
      log: Bytes, node: nat, nodeKey: Bytes, key: Bytes, path: seq<PathNode>, ghost t: Tree)
      returns (path': seq<PathNode>)
    requires Stored(log, t) && t.off == node && Le(nodeKey, key)
    ensures path' == path + Nodes(PathTo(t, nodeKey, key))
    decreases t
  {
    hide At, Stored, BranchBytes, FitsNode, LeafAt, Rank;
    var le := DataLe(nodeKey, key);
    assert le;
    path' := path + [PathNode(nodeKey, node)];
    NodeKind(log, t);
    var kind := log[node];
    if kind == LEAF {
      return;
    }
    var off, prevKey, j := SearchBranch(log, node, nodeKey, key, t);
    path' := SearchPathRecursive(log, off, prevKey, key, path', t.es[j].kid);
    assert Nodes(PathTo(t, nodeKey, key)) == [PathNode(nodeKey, node)] + Nodes(PathTo(t.es[j].kid, prevKey, key));
  }

  // ----- Looking a key up

  lemma {:induction false} LookupAfter(a: seq<Record>, rs: seq<Record>, k: Bytes)
    requires AllBelow(a, k)
    ensures Lookup(a + rs, k) == Lookup(rs, k)
  {
    hide Rank;
    if a == [] {
      assert a + rs == rs;
    } else {
      assert (a + rs)[1..] == a[1..] + rs && Rank(a[0].key) < Rank(k);
      LookupAfter(a[1..], rs, k);
    }
  }

  lemma {:induction false} LookupBefore(rs: seq<Record>, b: seq<Record>, k: Bytes)
    requires AllAbove(b, k)
    ensures Lookup(rs + b, k) == Lookup(rs, k)
  {
    hide Rank;
    if rs == [] {
      assert rs + b == b;
      LookupAbsent(b, k);
    } else {
      assert (rs + b)[1..] == rs[1..] + b;
      LookupBefore(rs[1..], b, k);
    }
  }

  lemma {:induction false} LookupAbsent(rs: seq<Record>, k: Bytes)
    requires forall i :: 0 <= i < |rs| ==> rs[i].key != k
    ensures Lookup(rs, k) == None
  {
    if rs != [] {
      LookupAbsent(rs[1..], k);
    }
  }

  /** In a well-formed tree a key is found, with its value, exactly when it is in the leaf where it
      belongs. */
  lemma {:induction false} LookupInLeaf(m: nat, t: Tree, k: Bytes, lo: Bytes, hi: Option<Bytes>, h: nat)
    requires WF(m, t, lo, hi, h) && Le(lo, k) && Below(k, hi)
    ensures LeafFor(t, k).Leaf? && Lookup(Flat(t), k) == Lookup(LeafFor(t, k).recs, k)
    decreases h
  {
    hide Rank, WF;
    if t.Branch? {
      var j, hi' := KidShape(m, t, lo, hi, h, k);
      LookupInLeaf(m, t.es[j].kid, k, KeyAt(t.es, j, lo), hi', h - 1);
      LookupBelow(m, t, j, k, lo, hi, h);
    }
  }

  lemma LookupBelow(m: nat, t: Tree, j: nat, k: Bytes, lo: Bytes, hi: Option<Bytes>, h: nat)
    requires WF(m, t, lo, hi, h) && t.Branch? && Le(lo, k) && Below(k, hi)
    requires t.es != [] && j == FindChild(t.es, k, 0)
    ensures Lookup(Flat(t), k) == Lookup(Flat(t.es[j].kid), k)
  {
    hide Rank, Lookup;
    var all := WithFirst(t.es, lo);
    Around(m, all, j, k, hi, h - 1);
    assert FlatEntries(all) == Flat(t) by { assert all[1..] == t.es[1..]; }
    LookupBefore(FlatEntries(all[..j]) + Flat(all[j].kid), FlatEntries(all[j + 1..]), k);
    LookupAfter(FlatEntries(all[..j]), Flat(all[j].kid), k);
  }

  lemma VersionLookup(m: nat, log: Bytes, ver: nat, key: Bytes)
    requires VersionOK(m, log, ver)
    ensures var t := TreeOf(log, ver);
      LeafFor(t, key).Leaf? && Lookup(Contents(log, ver), key) == Lookup(LeafFor(t, key).recs, key)
  {
    hide Rank, WF;
    var t := TreeOf(log, ver);
    EmptyIsLeast(key);
    if WF(m, t, [], None, Height(t)) {
      LookupInLeaf(m, t, key, [], None, Height(t));
    }
  }

  /** aodbm_search: the leaf of version ver where key belongs, which alone decides whether key is in
      the version. */
  method SearchVersion(m: nat, log: Bytes, ver: nat, key: Bytes) returns (leaf: nat, ghost rs: seq<Record>)
    requires VersionOK(m, log, ver) && ver != 0
    ensures leaf + 5 <= |log| && Read32(log, leaf + 1) == |rs|
    ensures At(log, leaf + 5, RecordsBytes(rs)) && FitsRecords(rs)
    ensures Lookup(Contents(log, ver), key) == Lookup(rs, key)
  {
    hide At, Stored, LeafAt, FitsRecords, RecordsBytes, VersionOK, Lookup;
    ghost var t := TreeOf(log, ver);
    VersionTree(m, log, ver);
    leaf := SearchRecursive(log, ver + 8, key, t);
    rs := LeafFor(t, key).recs;
    VersionLookup(m, log, ver, key);
    StoredLeaf(log, LeafFor(t, key));
    LeafAtParts(log, leaf + 1, rs);
  }

  /** aodbm_get: the value of key in version ver, or None if it has none. */
  method Get(m: nat, log: Bytes, ver: nat, key: Bytes) returns (val: Option<Bytes>)
    requires VersionOK(m, log, ver)
    ensures val == Lookup(Contents(log, ver), key)
    ensures val == if key in MapOf(Contents(log, ver)) then Some(MapOf(Contents(log, ver))[key]) else None
  {
    hide At, FitsRecords, RecordsBytes, VersionOK, MapOf;
    MapOfKeys(Contents(log, ver), key);
    if ver == 0 {
      return None;
    }
    var leaf, rs := SearchVersion(m, log, ver, key);
    var sz := Read32(log, leaf + 1);
    var pos := leaf + 5;
    NoRecords(rs);
    assert rs[0..] == rs;
    var i := 0;
    while i < sz
      invariant 0 <= i <= sz == |rs|
      invariant pos == leaf + 5 + |RecordsBytes(rs[..i])|
      invariant Lookup(rs, key) == Lookup(rs[i..], key)
    {
      var rKey, rVal, next := ReadRecord(log, pos, leaf + 5, rs, i);
      pos := next;
      assert rs[i..][0] == rs[i] && rs[i..][1..] == rs[i + 1..];
      var eq := DataEq(key, rKey);
      if eq {
        return Some(rVal);
      }
      i := i + 1;
    }
    return None;
  }

  /** aodbm_has */
  method HasKey(m: nat, log: Bytes, ver: nat, key: Bytes) returns (has: bool)
    requires VersionOK(m, log, ver)
    ensures has <==> Lookup(Contents(log, ver), key).Some?
    ensures has <==> key in MapOf(Contents(log, ver))
  {
    hide At, FitsRecords, RecordsBytes, VersionOK, MapOf;
    MapOfKeys(Contents(log, ver), key);
    if ver == 0 {
      return false;
    }
    var leaf, rs := SearchVersion(m, log, ver, key);
    var sz := Read32(log, leaf + 1);
    var pos := leaf + 5;
    NoRecords(rs);
    assert rs[0..] == rs;
    var i := 0;
    while i < sz
      invariant 0 <= i <= sz == |rs|
      invariant pos == leaf + 5 + |RecordsBytes(rs[..i])|
      invariant Lookup(rs, key) == Lookup(rs[i..], key)
    {
      var rKey, rVal, next := ReadRecord(log, pos, leaf + 5, rs, i);
      pos := next;
      assert rs[i..][0] == rs[i] && rs[i..][1..] == rs[i + 1..];
      var eq := DataEq(key, rKey);
      if eq {
        return true;
      }
      i := i + 1;
    }
    return false;
  }
}
