/** Iteration over the records of a version (the aodbm_iterator functions of aodbm.c). */
module Iteration {
  import opened Bytes
  import opened Data
  import opened Format
  import opened Trees
  import opened Records
  import opened Edit
  import opened Versions
  import opened LeafOps
  import opened BranchOps
  import opened Search

  /** it_node_info: a position in a node, the number of records or children passed, and their total. */
  datatype ItNode = ItNode(pos: nat, n: nat, sz: nat)

  /** What an ItNode stands for: in a leaf, n records are passed; in a branch, child n is being visited. */
  datatype Frame = Frame(t: Tree, n: nat)

  /** No leaf of t is empty. */
  ghost predicate Full(t: Tree)
    decreases t
  {
    match t
    case Leaf(_, recs) => recs != []
    case Branch(_, es) => es != [] && forall i :: 0 <= i < |es| ==> Full(es[i].kid)
  }

  lemma {:induction false} WFFull(m: nat, t: Tree, lo: Bytes, hi: Option<Bytes>, h: nat)
    requires WF(m, t, lo, hi, h)
    ensures Full(t)
    decreases h
  {
    hide Rank;
    if t.Branch? {
      var all := WithFirst(t.es, lo);
      forall i | 0 <= i < |t.es|
        ensures Full(t.es[i].kid)
      {
        assert WF(m, all[i].kid, all[i].key, HiAt(all, i, hi), h - 1);
        WFFull(m, all[i].kid, all[i].key, HiAt(all, i, hi), h - 1);
      }
    }
  }

  /** The position that info gives in f's node. */
  ghost predicate FrameAt(log: Bytes, f: Frame, info: ItNode) {
    && Stored(log, f.t) && info.n == f.n
    && match f.t
      case Leaf(off, recs) => info.sz == |recs| && f.n <= |recs| && info.pos == off + 5 + |RecordsBytes(recs[..f.n])|
      case Branch(off, es) =>
        && Full(f.t) && info.sz == |es| - 1 && f.n < |es|
        && info.pos == off + 13 + |SlotsBytes(Slots(es)[1..][..f.n])|
  }

  ghost function Remaining(f: Frame): seq<Record> {
    match f.t
    case Leaf(_, recs) => if f.n <= |recs| then recs[f.n..] else []
    case Branch(_, es) => if f.n < |es| then FlatEntries(es[f.n + 1..]) else []
  }

  /** The records that are still to come: those after the position in the deepest node, then those
      after it in the node above, and so on. */
  ghost function Rest(fs: seq<Frame>): seq<Record> {
    if fs == [] then [] else Remaining(fs[|fs| - 1]) + Rest(fs[..|fs| - 1])
  }

  ghost predicate PathOK(log: Bytes, fs: seq<Frame>, path: seq<ItNode>) {
    && |fs| == |path|
    && (forall i :: 0 <= i < |fs| ==> FrameAt(log, fs[i], path[i]))
    && (forall i :: 0 <= i < |fs| - 1 ==> fs[i].t.Branch?)
  }

  /** The path of an iterator between calls: empty, or down to a leaf. */
  ghost predicate IteratorOK(log: Bytes, fs: seq<Frame>, path: seq<ItNode>) {
    PathOK(log, fs, path) && (fs != [] ==> fs[|fs| - 1].t.Leaf?)
  }

  /** Whatever is appended to the file, an iterator in progress stays where it is. */
  lemma IteratorGrows(log: Bytes, more: Bytes, fs: seq<Frame>, path: seq<ItNode>)
    requires IteratorOK(log, fs, path)
    ensures IteratorOK(log + more, fs, path)
  {
    hide Stored, Full, SlotsBytes, RecordsBytes;
    forall i | 0 <= i < |fs|
      ensures FrameAt(log + more, fs[i], path[i])
    {
      assert FrameAt(log, fs[i], path[i]);
      StoredGrows(log, more, fs[i].t);
    }
  }

  lemma RestPush(fs: seq<Frame>, f: Frame)
    ensures Rest(fs + [f]) == Remaining(f) + Rest(fs)
  {
    assert (fs + [f])[..|fs|] == fs;
  }

  lemma PathPush(log: Bytes, fs: seq<Frame>, path: seq<ItNode>, f: Frame, info: ItNode)
    requires PathOK(log, fs, path) && FrameAt(log, f, info)
    requires forall i :: 0 <= i < |fs| ==> fs[i].t.Branch?
    ensures PathOK(log, fs + [f], path + [info])
  {
    hide FrameAt;
  }

  lemma PathPop(log: Bytes, fs: seq<Frame>, path: seq<ItNode>)
    requires PathOK(log, fs, path) && fs != []
    ensures var k := |fs| - 1;
      && PathOK(log, fs[..k], path[..k]) && (forall i :: 0 <= i < k ==> fs[..k][i].t.Branch?)
      && FrameAt(log, fs[k], path[k]) && Rest(fs) == Remaining(fs[k]) + Rest(fs[..k])
  {
    hide FrameAt, Remaining;
  }

  /** From which record on the keys are at least k. */
  ghost function From(rs: seq<Record>, k: Bytes): seq<Record> {
    if rs == [] || Rank(k) <= Rank(rs[0].key) then rs else From(rs[1..], k)
  }

  /** In sorted records, From gives exactly the records with keys at least k, in order. */
  lemma {:induction false} FromIsSuffix(rs: seq<Record>, k: Bytes) returns (n: nat)
    requires Increasing(rs)
    ensures n <= |rs| && From(rs, k) == rs[n..] && AllBelow(rs[..n], k)
    ensures forall i :: n <= i < |rs| ==> Le(k, rs[i].key)
  {
    hide Rank;
    n := 0;
    if rs != [] && Rank(rs[0].key) < Rank(k) {
      assert forall i :: 0 <= i < |rs[1..]| ==> rs[1..][i] == rs[i + 1];
      n := FromIsSuffix(rs[1..], k);
      n := n + 1;
      assert rs[1..][n - 1..] == rs[n..];
      assert forall i :: 0 < i < n ==> rs[..n][i] == rs[1..][..n - 1][i - 1];
    }
  }

  lemma {:induction false} FromAfter(a: seq<Record>, rs: seq<Record>, k: Bytes)
    requires AllBelow(a, k)
    ensures From(a + rs, k) == From(rs, k)
  {
    hide Rank;
    if a == [] {
      assert a + rs == rs;
    } else {
      assert (a + rs)[1..] == a[1..] + rs && Rank(a[0].key) < Rank(k);
      FromAfter(a[1..], rs, k);
    }
  }

  lemma {:induction false} FromBefore(rs: seq<Record>, b: seq<Record>, k: Bytes)
    requires AllAbove(b, k)
    ensures From(rs + b, k) == From(rs, k) + b
  {
    hide Rank;
    if rs == [] {
      assert rs + b == b;
    } else {
      assert (rs + b)[1..] == rs[1..] + b;
      FromBefore(rs[1..], b, k);
    }
  }

  /** Seeking in a branch is seeking in the child where k belongs; all later children are to come. */
  lemma FromBelow(m: nat, t: Tree, j: nat, k: Bytes, lo: Bytes, hi: Option<Bytes>, h: nat)
    requires WF(m, t, lo, hi, h) && t.Branch? && Le(lo, k) && Below(k, hi)
    requires t.es != [] && j == FindChild(t.es, k, 0)
    ensures From(Flat(t), k) == From(Flat(t.es[j].kid), k) + FlatEntries(t.es[j + 1..])
  {
    hide Rank, From, WF;
    BranchShape(m, t, lo, hi, h);
    var all := WithFirst(t.es, lo);
    Around(m, all, j, k, hi, h - 1);
    assert all[1..] == t.es[1..] && all[j + 1..] == t.es[j + 1..];
    assert FlatEntries(all) == Flat(t);
    var a, mid, b := FlatEntries(all[..j]), Flat(all[j].kid), FlatEntries(all[j + 1..]);
    FromBefore(a + mid, b, k);
    FromAfter(a, mid, k);
  }

  lemma SeekBelow(m: nat, t: Tree, j: nat, k: Bytes, lo: Bytes, hi: Option<Bytes>, h: nat, rest: seq<Record>)
    requires WF(m, t, lo, hi, h) && t.Branch? && Le(lo, k) && Below(k, hi)
    requires t.es != [] && j == FindChild(t.es, k, 0)
    ensures From(Flat(t), k) + rest == From(Flat(t.es[j].kid), k) + (Remaining(Frame(t, j)) + rest)
  {
    hide Rank, From, WF, Flat, FlatEntries;
    FromBelow(m, t, j, k, lo, hi, h);
  }

  lemma FlatLeaf(t: Tree)
    requires t.Leaf?
    ensures Flat(t) == t.recs
  {
  }

  // ----- The iterator

  class Iterator {
    var path: seq<ItNode>
    var ver: nat
    ghost var frames: seq<Frame>

    ghost predicate Valid(log: Bytes)
      reads this
    {
      IteratorOK(log, frames, path)
    }

    /** aodbm_new_iterator */
    constructor (m: nat, log: Bytes, ver: nat)
      requires VersionOK(m, log, ver)
      ensures Valid(log) && Rest(frames) == Contents(log, ver) && this.ver == ver
    {
      hide VersionOK, Full, FrameAt, PathOK, Flat;
      path, frames, this.ver := [], [], ver;
      new;
      NoFrames(log);
      EmptyContents(log);
      if ver != 0 {
        ghost var t := TreeOf(log, ver);
        VersionTree(m, log, ver);
        VersionFull(m, log, ver);
        Construct(log, ver + 8, t);
      }
    }

    /** construct_iterator: pushes the path to the first record below node. */
    method Construct(log: Bytes, node: nat, ghost t: Tree)
      requires Stored(log, t) && t.off == node && (Full(t) || t.Leaf?)
      requires PathOK(log, frames, path) && forall i :: 0 <= i < |frames| ==> frames[i].t.Branch?
      modifies this
      ensures IteratorOK(log, frames, path) && ver == old(ver)
      ensures Rest(frames) == Flat(t) + Rest(old(frames))
      ensures |frames| > |old(frames)| && (Full(t) ==> Remaining(frames[|frames| - 1]) != [])
      decreases t
    {
      hide Stored, PathOK, Rest, At, LeafAt, SlotsBytes, RecordsBytes, FitsNode, BranchBytes;
      NodeKind(log, t);
      var kind := log[node];
      NodeSize(log, t);
      var size := Read32(log, node + 1);
      if kind == LEAF {
        var info := ItNode(node + 5, 0, size);
        NoRecords(t.recs);
        PathPush(log, frames, path, Frame(t, 0), info);
        RestPush(frames, Frame(t, 0));
        assert t.recs[0..] == t.recs;
        path, frames := path + [info], frames + [Frame(t, 0)];
      } else {
        StoredBranch(log, t);
        BranchAtParts(log, node, Slots(t.es));
        NoSlots(Slots(t.es)[1..]);
        var n := Read64(log, node + 5);
        var info := ItNode(node + 13, 0, size);
        PathPush(log, frames, path, Frame(t, 0), info);
        RestPush(frames, Frame(t, 0));
        ghost var rest := Rest(frames);
        path, frames := path + [info], frames + [Frame(t, 0)];
        Construct(log, n, t.es[0].kid);
        assert Flat(t.es[0].kid) + (FlatEntries(t.es[1..]) + rest) == Flat(t) + rest;
      }
    }

    /** The loop of aodbm_iterator_goto_recursive over a leaf: to the first record not before key. */
    static method GotoInLeaf(log: Bytes, key: Bytes, node: nat, size: nat, ghost t: Tree) returns (info: ItNode)
      requires Stored(log, t) && t.Leaf? && t.off == node && size == |t.recs|
      ensures FrameAt(log, Frame(t, info.n), info) && Remaining(Frame(t, info.n)) == From(t.recs, key)
    {
      hide Stored, At, LeafAt, FitsRecords, RecordsBytes, RecordBytes, HasData, ReadData, Rank;
      ghost var rs := t.recs;
      StoredLeaf(log, t);
      LeafAtParts(log, node + 1, rs);
      NoRecords(rs);
      assert rs[0..] == rs;
      var pos := node + 5;
      var n := 0;
      while n < size
        invariant 0 <= n <= size
        invariant pos == node + 5 + |RecordsBytes(rs[..n])|
        invariant From(rs, key) == From(rs[n..], key)
      {
        RecordFits(rs, n);
        RecordAt(log, node + 5, rs, n);
        RecordLength(rs[n]);
        assert rs[n..][0] == rs[n] && rs[n..][1..] == rs[n + 1..];
        var sKey := ReadData(log, pos);
        var le := DataLe(key, sKey);
        if le {
          break;
        }
        pos := pos + 4 + |sKey|;
        var sVal := ReadData(log, pos);
        pos := pos + 4 + |sVal|;
        n := n + 1;
      }
      info := ItNode(pos, n, size);
    }

    /** The loop of aodbm_iterator_goto_recursive over a branch: to the child where key belongs. */
    static method GotoInBranch(log: Bytes, key: Bytes, node: nat, size: nat, ghost t: Tree)
        returns (info: ItNode, off: nat)
      requires Stored(log, t) && t.Branch? && t.off == node && size == |t.es| - 1 && Full(t)
      ensures t.es != [] && info.n == FindChild(t.es, key, 0) && off == t.es[info.n].kid.off
      ensures FrameAt(log, Frame(t, info.n), info) && Stored(log, t.es[info.n].kid)
    {
      hide Stored, At, BranchBytes, SlotsBytes, SlotBytes, FitsNode, FitsSlots, Rank, HasData, ReadData, Read64, Full;
      StoredBranch(log, t);
      ghost var ss := Slots(t.es);
      BranchAtParts(log, node, ss);
      NoSlots(ss[1..]);
      var pos := node + 5;
      off := Read64(log, pos);
      pos := pos + 8;
      var n := 0;
      while n < size
        invariant 0 <= n <= size
        invariant pos == node + 13 + |SlotsBytes(ss[1..][..n])|
        invariant off == t.es[n].kid.off && FindChild(t.es, key, n) == FindChild(t.es, key, 0)
      {
        SlotFits(ss[1..], n);
        SlotAt(log, node + 13, ss[1..], n);
        SlotLength(ss[1..][n]);
        assert ss[1..][n] == ss[n + 1];
        var sKey := ReadData(log, pos);
        var lt := DataLt(key, sKey);
        if lt {
          break;
        }
        pos := pos + 4 + |sKey|;
        off := Read64(log, pos);
        pos := pos + 8;
        n := n + 1;
      }
      info := ItNode(pos, n, size);
    }

    /** aodbm_iterator_goto_recursive */
    method GotoRecursive(
        m: nat, log: Bytes, key: Bytes, node: nat,
        ghost t: Tree, ghost lo: Bytes, ghost hi: Option<Bytes>, ghost h: nat)
      requires Stored(log, t) && t.off == node
      requires t.Branch? ==> WF(m, t, lo, hi, h) && Le(lo, key) && Below(key, hi)
      requires PathOK(log, frames, path) && forall i :: 0 <= i < |frames| ==> frames[i].t.Branch?
      modifies this
      ensures IteratorOK(log, frames, path) && ver == old(ver)
      ensures Rest(frames) == From(Flat(t), key) + Rest(old(frames))
      decreases t
    {
      hide Stored, PathOK, Rest, Rank, WF, From, FrameAt, Full, FindChild, Flat, Remaining, FlatEntries;
      hide LeafAt, BranchBytes;
      NodeKind(log, t);
      var kind := log[node];
      NodeSize(log, t);
      var size := Read32(log, node + 1);
      if kind == LEAF {
        var info := GotoInLeaf(log, key, node, size, t);
        FlatLeaf(t);
        PathPush(log, frames, path, Frame(t, info.n), info);
        RestPush(frames, Frame(t, info.n));
        path, frames := path + [info], frames + [Frame(t, info.n)];
      } else {
        WFFull(m, t, lo, hi, h);
        var info, off := GotoInBranch(log, key, node, size, t);
        ghost var j, hi' := KidShape(m, t, lo, hi, h, key);
        SeekBelow(m, t, j, key, lo, hi, h, Rest(frames));
        PathPush(log, frames, path, Frame(t, info.n), info);
        RestPush(frames, Frame(t, info.n));
        path, frames := path + [info], frames + [Frame(t, info.n)];
        GotoRecursive(m, log, key, off, t.es[j].kid, KeyAt(t.es, j, lo), hi', h - 1);
      }
    }

    /** aodbm_iterator_goto: what is to come is then every record with a key from key on. */
    method Goto(m: nat, log: Bytes, key: Bytes)
      requires VersionOK(m, log, ver) && ver != 0
      modifies this
      ensures Valid(log) && Rest(frames) == From(Contents(log, ver), key) && ver == old(ver)
    {
      hide VersionOK, Stored, PathOK, Rest, Rank, WF, From, Flat;
      while path != []
        decreases |path|
        invariant ver == old(ver)
      {
        path := path[..|path| - 1];
      }
      frames := [];
      NoFrames(log);
      ghost var t := TreeOf(log, ver);
      VersionTree(m, log, ver);
      if t.Branch? {
        RootSeek(m, log, ver, key);
      }
      GotoRecursive(m, log, key, ver + 8, t, [], None, Height(t));
    }

    /** aodbm_iterate_from */
    constructor IterateFrom(m: nat, log: Bytes, ver: nat, key: Bytes)
      requires VersionOK(m, log, ver) && ver != 0
      ensures Valid(log) && Rest(frames) == From(Contents(log, ver), key) && this.ver == ver
    {
      path, frames, this.ver := [], [], ver;
      new;
      Goto(m, log, key);
    }

    /** Moves a branch position on to the next child. */
    static method Advance(log: Bytes, branch: ItNode, ghost f: Frame) returns (next: ItNode, node: nat)
      requires FrameAt(log, f, branch) && f.t.Branch? && branch.n < branch.sz
      ensures FrameAt(log, Frame(f.t, f.n + 1), next) && f.n + 1 < |f.t.es|
      ensures var kid := f.t.es[f.n + 1].kid; node == kid.off && Stored(log, kid) && Full(kid)
      ensures Remaining(f) == Flat(f.t.es[f.n + 1].kid) + Remaining(Frame(f.t, f.n + 1))
    {
      hide Stored, At, BranchBytes, SlotsBytes, SlotBytes, FitsNode, FitsSlots, HasData, ReadData, Read64;
      StoredBranch(log, f.t);
      ghost var ss, n := Slots(f.t.es), f.n;
      BranchAtParts(log, f.t.off, ss);
      SlotFits(ss[1..], n);
      SlotAt(log, f.t.off + 13, ss[1..], n);
      SlotLength(ss[1..][n]);
      assert ss[1..][n] == ss[n + 1] && f.t.es[n + 1..][1..] == f.t.es[n + 2..];
      var key := ReadData(log, branch.pos);
      var pos := branch.pos + 4 + |key|;
      node := Read64(log, pos);
      next := ItNode(pos + 8, branch.n + 1, branch.sz);
    }

    /** Reads the record at a leaf position and moves the position behind it. */
    static method ReadNext(log: Bytes, leaf: ItNode, ghost f: Frame) returns (r: Record, next: ItNode)
      requires FrameAt(log, f, leaf) && f.t.Leaf? && Remaining(f) != []
      ensures FrameAt(log, Frame(f.t, f.n + 1), next) && Remaining(f) == [r] + Remaining(Frame(f.t, f.n + 1))
    {
      hide Stored, At, LeafAt, FitsRecords, RecordsBytes, RecordBytes, HasData, ReadData;
      ghost var rs := f.t.recs;
      StoredLeaf(log, f.t);
      LeafAtParts(log, f.t.off + 1, rs);
      RecordFits(rs, f.n);
      RecordAt(log, f.t.off + 5, rs, f.n);
      RecordLength(rs[f.n]);
      var key := ReadData(log, leaf.pos);
      var pos := leaf.pos + 4 + |key|;
      var val := ReadData(log, pos);
      r := Record(key, val);
      next := ItNode(pos + 4 + |val|, leaf.n + 1, leaf.sz);
    }

    /** The loop of aodbm_iterator_next: leaves the branches that are done, and pops the next leaf. */
    method NextLeaf(log: Bytes) returns (leaf: ItNode, ghost f: Frame)
      requires PathOK(log, frames, path) && forall i :: 0 <= i < |frames| ==> frames[i].t.Branch?
      modifies this
      ensures PathOK(log, frames, path) && (forall i :: 0 <= i < |frames| ==> frames[i].t.Branch?) && ver == old(ver)
      ensures if Rest(old(frames)) == [] then path == [] && Rest(frames) == []
        else
          && path != [] && FrameAt(log, f, leaf) && f.t.Leaf? && Remaining(f) != []
          && Rest(old(frames)) == Remaining(f) + Rest(frames)
    {
      hide Stored, PathOK, Rest, FrameAt, Full, Remaining, Flat;
      leaf, f := ItNode(0, 0, 0), Frame(Leaf(0, []), 0);
      NoFrames(log);
      ghost var rest := Rest(frames);
      PathLengths(log, frames, path);
      while path != []
        invariant |path| == |frames| && PathOK(log, frames, path) && ver == old(ver)
        invariant forall i :: 0 <= i < |frames| ==> frames[i].t.Branch?
        invariant rest == Rest(frames)
        decreases |path|
      {
        PathPop(log, frames, path);
        var branch := path[|path| - 1];
        ghost var bf := frames[|frames| - 1];
        path, frames := path[..|path| - 1], frames[..|frames| - 1];
        BranchDone(log, bf, branch);
        if branch.n < branch.sz {
          // this branch has another child
          var next, node := Advance(log, branch, bf);
          ghost var nf := Frame(bf.t, bf.n + 1);
          PathPush(log, frames, path, nf, next);
          RestPush(frames, nf);
          path, frames := path + [next], frames + [nf];
          Construct(log, node, bf.t.es[nf.n].kid);
          assert rest == Rest(frames);
          PathLengths(log, frames, path);
          PathPop(log, frames, path);
          leaf := path[|path| - 1];
          f := frames[|frames| - 1];
          path, frames := path[..|path| - 1], frames[..|frames| - 1];
          return;
        }
      }
    }

    /** aodbm_iterator_next: the next record, or None when there is none left. */
    method Next(log: Bytes) returns (r: Option<Record>)
      requires Valid(log)
      modifies this
      ensures Valid(log) && ver == old(ver)
      ensures if Rest(old(frames)) == [] then r == None && Rest(frames) == []
              else r == Some(Rest(old(frames))[0]) && Rest(frames) == Rest(old(frames))[1..]
    {
      hide Stored, PathOK, Rest, FrameAt, Full, Remaining, Flat;
      NoFrames(log);
      PathLengths(log, frames, path);
      if path == [] {
        return None;
      }
      PathPop(log, frames, path);
      var leaf := path[|path| - 1];
      ghost var f := frames[|frames| - 1];
      path, frames := path[..|path| - 1], frames[..|frames| - 1];
      LeafDone(log, f, leaf);
      if leaf.n == leaf.sz {
        leaf, f := NextLeaf(log);
        PathLengths(log, frames, path);
        if path == [] {
          return None;
        }
      }
      var rec, next := ReadNext(log, leaf, f);
      ghost var nf := Frame(f.t, f.n + 1);
      PathPush(log, frames, path, nf, next);
      RestPush(frames, nf);
      path, frames := path + [next], frames + [nf];
      return Some(rec);
    }
  }

  lemma PathLengths(log: Bytes, fs: seq<Frame>, path: seq<ItNode>)
    requires PathOK(log, fs, path)
    ensures |fs| == |path|
  {
  }

  lemma LeafDone(log: Bytes, f: Frame, leaf: ItNode)
    requires FrameAt(log, f, leaf) && f.t.Leaf?
    ensures leaf.n == leaf.sz <==> Remaining(f) == []
  {
  }

  lemma BranchDone(log: Bytes, f: Frame, branch: ItNode)
    requires FrameAt(log, f, branch) && f.t.Branch?
    ensures branch.n >= branch.sz ==> Remaining(f) == []
  {
  }

  lemma RecordFits(rs: seq<Record>, i: nat)
    requires FitsRecords(rs) && i < |rs|
    ensures FitsRecord(rs[i])
  {
  }

  lemma SlotFits(ss: seq<Slot>, i: nat)
    requires FitsSlots(ss) && i < |ss|
    ensures FitsSlot(ss[i])
  {
  }

  lemma SlotLength(s: Slot)
    ensures |SlotBytes(s)| == 12 + |s.key|
  {
  }

  lemma RootSeek(m: nat, log: Bytes, ver: nat, key: Bytes)
    requires VersionOK(m, log, ver) && ver != 0 && TreeOf(log, ver).Branch?
    ensures var t := TreeOf(log, ver); WF(m, t, [], None, Height(t)) && Le([], key) && Below(key, None)
  {
    hide WF;
    EmptyIsLeast(key);
  }

  lemma NoFrames(log: Bytes)
    ensures PathOK(log, [], []) && Rest([]) == []
  {
  }

  lemma VersionFull(m: nat, log: Bytes, ver: nat)
    requires VersionOK(m, log, ver) && ver != 0
    ensures Full(TreeOf(log, ver)) || TreeOf(log, ver).Leaf?
  {
    hide Rank, WF, Full;
    var t := TreeOf(log, ver);
    if WF(m, t, [], None, Height(t)) {
      WFFull(m, t, [], None, Height(t));
    }
  }

  lemma NodeSize(log: Bytes, t: Tree)
    requires Stored(log, t)
    ensures t.off + 5 <= |log| && Read32(log, t.off + 1) == if t.Leaf? then |t.recs| else |t.es| - 1
  {
    hide Stored, LeafAt, At, RecordsBytes, SlotsBytes, BranchBytes;
    if t.Leaf? {
      StoredLeaf(log, t);
      LeafAtParts(log, t.off + 1, t.recs);
    } else {
      StoredBranch(log, t);
      BranchAtParts(log, t.off, Slots(t.es));
    }
  }

  // ----- A whole iteration

  /** Calling the iterator until it gives None yields every record of the version once, in increasing
      order of key, whatever is appended to the file between the calls; and then None for ever. */
  method Iterate(m: nat, log: Bytes, ver: nat, appends: seq<Bytes>) returns (out: seq<Record>)
    requires VersionOK(m, log, ver) && |appends| > |Contents(log, ver)|
    ensures out == Contents(log, ver)
    ensures forall a, b :: 0 <= a < b < |out| ==> Lt(out[a].key, out[b].key)
  {
    hide Lt, Increasing, VersionOK, IteratorOK, Contents, Rest;
    ContentsSorted(m, log, ver);
    IncreasingIsOrdered(Contents(log, ver));
    var it := new Iterator(m, log, ver);
    out := [];
    var now, i := log, 0;
    var more := true;
    while more
      invariant i <= |appends| && it.Valid(now) && fresh(it)
      invariant Contents(log, ver) == out + Rest(it.frames)
      invariant if more then i == |out| else Rest(it.frames) == []
      decreases more, |appends| - i
    {
      IteratorGrows(now, appends[i], it.frames, it.path);
      now := now + appends[i];
      i := i + 1;
      var r := it.Next(now);
      if r.Some? {
        out := out + [r.value];
      } else {
        more := false;
      }
    }
  }
}
