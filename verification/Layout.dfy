/** Where the bytes of an edit land in the file, and the block that a set or delete appends. */
module Layout {
  import opened Bytes
  import opened Data
  import opened Format
  import opened Trees
  import opened Records
  import opened Edit

  // ----- Rebuilt nodes are stored where Place says

  ghost predicate FitsTree(t: Tree) {
    FitsNode(NodeOf(t))
  }

  /** t's node can be written at the end of file: what it points to is already there. */
  ghost predicate Ready(file: Bytes, t: Tree) {
    FitsTree(t) && (t.Branch? ==> forall i :: 0 <= i < |t.es| ==> Stored(file, t.es[i].kid))
  }

  ghost predicate AllReady(file: Bytes, parts: seq<Entry>) {
    forall i :: 0 <= i < |parts| ==> Ready(file, parts[i].kid) && |parts[i].key| < TWO_32
  }

  ghost predicate AllStored(file: Bytes, es: seq<Entry>) {
    forall i :: 0 <= i < |es| ==> Stored(file, es[i].kid) && |es[i].key| < TWO_32
  }

  lemma StoredInside(file: Bytes, t: Tree)
    requires Stored(file, t)
    ensures 0 < t.off < |file|
  {
    hide Enc32, Enc64;
  }

  lemma ReadyGrows(file: Bytes, more: Bytes, t: Tree)
    requires Ready(file, t)
    ensures Ready(file + more, t)
  {
    hide Stored, FitsTree;
    if t.Branch? {
      forall i | 0 <= i < |t.es|
        ensures Stored(file + more, t.es[i].kid)
      {
        StoredGrows(file, more, t.es[i].kid);
      }
    }
  }

  lemma AllStoredGrows(file: Bytes, more: Bytes, es: seq<Entry>)
    requires AllStored(file, es)
    ensures AllStored(file + more, es)
  {
    hide Stored;
    forall i | 0 <= i < |es|
      ensures Stored(file + more, es[i].kid)
    {
      StoredGrows(file, more, es[i].kid);
    }
  }

  /** Writing a ready node at the end of a file stores it there. */
  lemma WriteNode(file: Bytes, t: Tree)
    requires Ready(file, t) && file != []
    ensures Stored(file + RootBytes(t), t.(off := |file|))
  {
    hide NodeBytes, FitsNode, At;
    var file', t' := file + RootBytes(t), t.(off := |file|);
    assert NodeOf(t') == NodeOf(t);
    AtEnd(file, RootBytes(t));
    if t.Branch? {
      forall i | 0 <= i < |t.es|
        ensures t.es[i].kid.off < |file| && Stored(file', t.es[i].kid)
      {
        StoredInside(file, t.es[i].kid);
        StoredGrows(file, RootBytes(t), t.es[i].kid);
      }
    }
  }

  lemma AtEnd(file: Bytes, b: Bytes)
    ensures At(file + b, |file|, b)
  {
  }

  lemma {:induction false} WriteParts(file: Bytes, parts: seq<Entry>)
    requires AllReady(file, parts) && file != []
    ensures AllStored(file + PartsBytes(parts), Place(parts, |file|))
    decreases |parts|
  {
    hide Stored, RootBytes, Ready;
    if parts == [] {
      assert file + PartsBytes(parts) == file;
    } else {
      var first, rest := parts[0], parts[1..];
      var next := file + RootBytes(first.kid);
      WriteNode(file, first.kid);
      forall i | 0 <= i < |rest|
        ensures Ready(next, rest[i].kid) && |rest[i].key| < TWO_32
      {
        assert rest[i] == parts[i + 1];
        ReadyGrows(file, RootBytes(first.kid), rest[i].kid);
      }
      WriteParts(next, rest);
      StoredGrows(next, PartsBytes(rest), first.kid.(off := |file|));
      assert file + PartsBytes(parts) == next + PartsBytes(rest);
      var placed := Place(parts, |file|);
      assert placed[1..] == Place(rest, |next|);
      assert forall i :: 1 <= i < |parts| ==> placed[i] == placed[1..][i - 1];
    }
  }

  lemma BranchReady(file: Bytes, es: seq<Entry>)
    requires AllStored(file, es) && 1 <= |es| <= TWO_32 && |file| <= TWO_64
    ensures Ready(file, BranchPart(es).kid)
  {
    hide Stored;
    var t := BranchPart(es).kid;
    forall i | 0 <= i < |es|
      ensures FitsSlot(Slots(t.es)[i]) && Stored(file, t.es[i].kid)
    {
      StoredInside(file, es[i].kid);
    }
  }

  predicate FitsChange(c: Change) {
    |c.key| < TWO_32 && (c.Modify? ==> |c.val| < TWO_32)
  }

  lemma {:induction false} ApplyFits(rs: seq<Record>, c: Change)
    requires FitsRecords(rs) && FitsChange(c)
    ensures FitsRecords(Apply(rs, c))
  {
    hide Rank;
    if rs != [] {
      assert FitsRecord(rs[0]);
      assert FitsRecords(rs[1..]) by {
        assert forall i :: 0 <= i < |rs[1..]| ==> rs[1..][i] == rs[i + 1];
      }
      ApplyFits(rs[1..], c);
    }
  }

  lemma EditLeafReady(m: nat, rs: seq<Record>, c: Change, lo: Bytes, hi: Option<Bytes>, file: Bytes)
    requires m >= 4 && m % 2 == 0 && m < TWO_32 && |rs| <= m && SortedIn(rs, lo, hi)
    requires Le(lo, c.key) && Below(c.key, hi) && FitsRecords(rs) && FitsChange(c)
    ensures AllReady(file, EditLeaf(m, rs, c))
  {
    hide Rank, Apply, FitsRecords;
    EditLeafShape(m, rs, c, lo, hi);
    EditLeafFits(m, rs, c);
    var parts := EditLeaf(m, rs, c);
    forall i | 0 <= i < |parts|
      ensures Ready(file, parts[i].kid) && |parts[i].key| < TWO_32
    {
      assert WF(m, parts[i].kid, parts[i].key, HiAt(parts, i, hi), 0);
      FirstFits(parts[i].kid.recs);
    }
  }

  lemma FirstFits(rs: seq<Record>)
    requires FitsRecords(rs) && rs != []
    ensures FitsRecord(rs[0])
  {
  }

  lemma EditLeafFits(m: nat, rs: seq<Record>, c: Change)
    requires |rs| <= m && FitsRecords(rs) && FitsChange(c)
    ensures var parts := EditLeaf(m, rs, c);
      forall i :: 0 <= i < |parts| ==>
        parts[i].kid.Leaf? && FitsRecords(parts[i].kid.recs) && parts[i] == LeafPart(parts[i].kid.recs)
  {
    hide Rank, Delete, Put;
    ApplyFits(rs, c);
    if |rs| == m {
      var a, b := rs[..m / 2], rs[m / 2..];
      assert FitsRecords(a) && FitsRecords(b);
      ApplyFits(a, c);
      ApplyFits(b, c);
    }
  }

  /** Offsets: when the data of an edit are written right after a five-byte block header at the end
      of the log, the nodes that replace the root point to nodes that are stored where they say. */
  lemma {:induction false} EditReady(
      m: nat, t: Tree, c: Change, lo: Bytes, hi: Option<Bytes>, h: nat, log: Bytes, hdr: Bytes)
    requires m >= 4 && m % 2 == 0 && m < TWO_32 && WF(m, t, lo, hi, h)
    requires Le(lo, c.key) && Below(c.key, hi) && FitsChange(c) && |lo| < TWO_32
    requires Stored(log, t) && |hdr| == 5
    requires |log| + 5 + |EditTree(m, t, c, lo, |log| + 5).data| <= TWO_64
    ensures var e := EditTree(m, t, c, lo, |log| + 5);
      AllReady(log + hdr + e.data, e.parts)
    decreases h
  {
    hide Rank, WF, Stored, AllReady, AllStored, Replaces, EditBranch, EditLeaf;
    var pos := |log| + 5;
    match t
    case Leaf(_, rs) =>
      LeafReady(m, t, c, lo, hi, h, log, log + hdr + []);
    case Branch(_, es) =>
      var j, hi' := KidShape(m, t, lo, hi, h, c.key);
      var key := KeyAt(es, j, lo);
      var below := EditTree(m, es[j].kid, c, key, pos);
      EntriesStored(log, t, lo);
      KidStored(log, WithFirst(es, lo), j);
      EditBranchData(m, es, j, lo, below, pos);
      EditReady(m, es[j].kid, c, key, hi', h - 1, log, hdr);
      EditShape(m, es[j].kid, c, key, hi', h - 1, pos);
      EditBranchReady(m, es, j, lo, below, log, hdr);
  }

  lemma LeafReady(m: nat, t: Tree, c: Change, lo: Bytes, hi: Option<Bytes>, h: nat, log: Bytes, file: Bytes)
    requires m >= 4 && m % 2 == 0 && m < TWO_32 && WF(m, t, lo, hi, h) && t.Leaf?
    requires Le(lo, c.key) && Below(c.key, hi) && FitsChange(c) && Stored(log, t)
    ensures AllReady(file, EditLeaf(m, t.recs, c))
  {
    hide Rank, AllReady, EditLeaf;
    StoredFits(log, t);
    EditLeafReady(m, t.recs, c, lo, hi, file);
  }

  lemma StoredFits(log: Bytes, t: Tree)
    requires Stored(log, t)
    ensures FitsTree(t)
  {
    hide FitsNode;
  }

  lemma KidStored(log: Bytes, es: seq<Entry>, j: nat)
    requires AllStored(log, es) && j < |es|
    ensures Stored(log, es[j].kid) && |es[j].key| < TWO_32
  {
    hide Stored;
  }

  lemma EditBranchData(m: nat, es: seq<Entry>, j: nat, lo: Bytes, below: Edit, pos: nat)
    requires j < |es|
    ensures EditBranch(m, es, j, lo, below, pos).data == below.data + PartsBytes(below.parts)
  {
  }

  lemma EntriesStored(log: Bytes, t: Tree, lo: Bytes)
    requires Stored(log, t) && t.Branch? && |lo| < TWO_32
    ensures t.es != [] && AllStored(log, WithFirst(t.es, lo))
  {
    hide NodeBytes;
    var all := WithFirst(t.es, lo);
    forall i | 0 <= i < |t.es|
      ensures Stored(log, all[i].kid) && |all[i].key| < TWO_32
    {
      assert FitsSlot(Slots(t.es)[i]);
    }
  }

  lemma SpliceStored(file: Bytes, es: seq<Entry>, j: nat, parts: seq<Entry>)
    requires j < |es| && AllStored(file, es) && AllStored(file, parts)
    ensures AllStored(file, Splice(es, j, parts))
  {
    hide Stored;
    var l := Splice(es, j, parts);
    forall i | 0 <= i < |l|
      ensures Stored(file, l[i].kid) && |l[i].key| < TWO_32
    {
      if i < j {
        assert l[i] == es[i];
      } else if i < j + |parts| {
        assert l[i] == parts[i - j];
      } else {
        assert l[i] == es[i - |parts| + 1];
      }
    }
  }

  lemma EditBranchReady(m: nat, es: seq<Entry>, j: nat, lo: Bytes, below: Edit, log: Bytes, hdr: Bytes)
    requires m >= 4 && m < TWO_32 && j < |es| < m && |below.parts| <= 2
    requires AllStored(log, WithFirst(es, lo)) && |hdr| == 5
    requires AllReady(log + hdr + below.data, below.parts)
    requires |log| + 5 + |EditBranch(m, es, j, lo, below, |log| + 5).data| <= TWO_64
    ensures var e := EditBranch(m, es, j, lo, below, |log| + 5);
      AllReady(log + hdr + e.data, e.parts)
  {
    hide Stored, Ready, RootBytes;
    var all := WithFirst(es, lo);
    var file, more := log + hdr + below.data, PartsBytes(below.parts);
    var file' := log + hdr + (below.data + more);
    assert file' == file + more && file' == log + (hdr + below.data + more);
    WriteParts(file, below.parts);
    AllStoredGrows(log, hdr + below.data + more, all);
    var placed := Place(below.parts, |file|);
    var l := Splice(all, j, placed);
    SpliceStored(file', all, j, placed);
    if l != [] {
      if |l| < m {
        BranchReady(file', l);
      } else {
        BranchReady(file', l[..m / 2]);
        BranchReady(file', l[m / 2..]);
      }
    }
  }
}
