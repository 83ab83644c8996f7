/** The bytes of the file, spelled out: which byte stands where, and what numbers they make. */
module OnDisk {
  import opened Bytes
  import opened Data
  import opened Format
  import opened Trees
  import opened Versions
  import opened Log

  /** A size and that many bytes lie at pos. */
  ghost predicate DataAt(log: Bytes, pos: nat, d: Bytes) {
    pos + 4 + |d| <= |log| && U32(log, pos) == |d| && log[pos + 4..pos + 4 + |d|] == d
  }

  ghost predicate NumberAt(log: Bytes, pos: nat, n: nat) {
    pos + 8 <= |log| && U64(log, pos) == n
  }

  lemma SameU32(a: Bytes, p: nat, b: Bytes, q: nat)
    requires p + 4 <= |a| && q + 4 <= |b| && a[p..p + 4] == b[q..q + 4]
    ensures U32(a, p) == U32(b, q)
  {
    var c := a[p..p + 4];
    assert c[0] == a[p] == b[q] && c[1] == a[p + 1] == b[q + 1];
    assert c[2] == a[p + 2] == b[q + 2] && c[3] == a[p + 3] == b[q + 3];
  }

  /** aodbm_read32 and aodbm_read64 give these numbers. */
  lemma ReadsBigEndian(log: Bytes, pos: nat)
    ensures pos + 4 <= |log| ==> Read32(log, pos) == U32(log, pos)
    ensures pos + 8 <= |log| ==> Read64(log, pos) == U64(log, pos)
  {
    hide DecBE, U32;
    if pos + 4 <= |log| {
      var b := log[pos..pos + 4];
      Dec32IsU32(b);
      assert b[..4] == b == b[0..4];
      SameU32(b, 0, log, pos);
    }
    if pos + 8 <= |log| {
      var b := log[pos..pos + 8];
      Dec64IsU64(b);
      assert b[0..4] == log[pos..pos + 4] && b[4..8] == log[pos + 4..pos + 8];
      SameU32(b, 0, log, pos);
      SameU32(b, 4, log, pos + 4);
    }
  }

  lemma U32At(log: Bytes, pos: nat, n: nat)
    requires n < TWO_32 && At(log, pos, Enc32(n))
    ensures pos + 4 <= |log| && U32(log, pos) == n
  {
    hide Enc32, Dec32, U32, At;
    Read32Iff(log, pos, n);
    ReadsBigEndian(log, pos);
  }

  lemma U64At(log: Bytes, pos: nat, n: nat)
    requires n < TWO_64 && At(log, pos, Enc64(n))
    ensures NumberAt(log, pos, n)
  {
    hide Enc64, Dec64, U64, At;
    Read64Iff(log, pos, n);
    ReadsBigEndian(log, pos);
  }

  lemma BlockAt(log: Bytes, pos: nat, d: Bytes)
    requires |d| < TWO_32 && At(log, pos, BlockBytes(d))
    ensures DataAt(log, pos, d)
  {
    hide Enc32, U32;
    AtSplit(log, pos, Enc32(|d|), d);
    U32At(log, pos, |d|);
  }

  /** The file ends with a block of nodes that begins at pos: the letter d, a size and that many bytes. */
  ghost predicate LastBlockAt(log: Bytes, pos: nat) {
    pos + 5 <= |log| && log[pos] == 'd' as int && U32(log, pos + 1) == |log| - pos - 5
  }

  /** At v lie the number of the version it was made from and the first letter of a node. */
  ghost predicate VersionAt(log: Bytes, v: nat, prev: nat) {
    v + 8 < |log| && U64(log, v) == prev && (log[v + 8] == 'l' as int || log[v + 8] == 'b' as int)
  }

  // ----- Nodes

  /** How many bytes the first i records take. */
  ghost function RecordSpan(rs: seq<Record>, i: nat): nat
    requires i <= |rs|
  {
    if i == 0 then 0 else RecordSpan(rs, i - 1) + 8 + |rs[i - 1].key| + |rs[i - 1].val|
  }

  lemma {:induction false} RecordSpanIs(rs: seq<Record>, i: nat)
    requires i <= |rs|
    ensures |RecordsBytes(rs[..i])| == RecordSpan(rs, i)
  {
    hide RecordsBytes;
    if i == 0 {
      assert |RecordsBytes([])| == 0 by { NoBytes(); }
      assert rs[..0] == [];
    } else {
      RecordSpanIs(rs, i - 1);
      RecordsBytesNext(rs, i - 1);
    }
  }

  lemma NoBytes()
    ensures RecordsBytes([]) == [] && SlotsBytes([]) == []
  {
  }

  /** A leaf: the letter l, the number of records, and each record as a key and a value with their sizes,
      one record after the other. */
  lemma LeafOnDisk(log: Bytes, t: Tree, i: nat)
    requires Stored(log, t) && t.Leaf?
    ensures t.off + 5 <= |log| && log[t.off] == 'l' as int && U32(log, t.off + 1) == |t.recs|
    ensures i < |t.recs| ==>
      var p, r := t.off + 5 + RecordSpan(t.recs, i), t.recs[i];
      DataAt(log, p, r.key) && DataAt(log, p + 4 + |r.key|, r.val)
  {
    hide Enc32, U32, RecordsBytes, DataAt, RecordSpan;
    AtSplit(log, t.off, [LEAF] + Enc32(|t.recs|), RecordsBytes(t.recs));
    AtSplit(log, t.off, [LEAF], Enc32(|t.recs|));
    U32At(log, t.off + 1, |t.recs|);
    if i < |t.recs| {
      hide At;
      RecordOnDisk(log, t.off + 5, t.recs, i);
    }
  }

  lemma RecordOnDisk(log: Bytes, pos: nat, rs: seq<Record>, i: nat)
    requires At(log, pos, RecordsBytes(rs)) && i < |rs| && FitsRecord(rs[i])
    ensures var p, r := pos + RecordSpan(rs, i), rs[i];
      DataAt(log, p, r.key) && DataAt(log, p + 4 + |r.key|, r.val)
  {
    hide At, RecordsBytes, DataAt, RecordSpan;
    var p, r := pos + RecordSpan(rs, i), rs[i];
    RecordAt(log, pos, rs, i);
    RecordSpanIs(rs, i);
    RecordIsIff(log, p, r);
    AtSplit(log, p, BlockBytes(r.key), BlockBytes(r.val));
    BlockAt(log, p, r.key);
    BlockAt(log, p + 4 + |r.key|, r.val);
  }

  /** How many bytes the first i children after the first child of a branch take. */
  ghost function SlotSpan(ss: seq<Slot>, i: nat): nat
    requires i <= |ss|
  {
    if i == 0 then 0 else SlotSpan(ss, i - 1) + 12 + |ss[i - 1].key|
  }

  lemma {:induction false} SlotSpanIs(ss: seq<Slot>, i: nat)
    requires i <= |ss|
    ensures |SlotsBytes(ss[..i])| == SlotSpan(ss, i)
  {
    hide SlotsBytes;
    if i == 0 {
      assert |SlotsBytes([])| == 0 by { NoBytes(); }
      assert ss[..0] == [];
    } else {
      SlotSpanIs(ss, i - 1);
      SlotsBytesNext(ss, i - 1);
    }
  }

  /** A branch: the letter b, the number of children without the first, the first child's offset, and for
      each other child its key with its size and its offset. */
  lemma BranchOnDisk(log: Bytes, t: Tree, i: nat)
    requires Stored(log, t) && t.Branch?
    ensures t.es != [] && t.off + 13 <= |log| && log[t.off] == 'b' as int
    ensures U32(log, t.off + 1) == |t.es| - 1 && U64(log, t.off + 5) == t.es[0].kid.off
    ensures 0 < i < |t.es| ==>
      var p, e := t.off + 13 + SlotSpan(Slots(t.es)[1..], i - 1), t.es[i];
      DataAt(log, p, e.key) && NumberAt(log, p + 4 + |e.key|, e.kid.off)
  {
    hide At, Stored, BranchBytes, SlotsBytes, DataAt, NumberAt, SlotSpan, U32, U64, FitsNode, FitsSlots;
    var ss := Slots(t.es);
    StoredBranch(log, t);
    BranchHeader(log, t.off, ss);
    if 0 < i < |t.es| {
      assert ss[1..][i - 1] == ss[i] && FitsSlot(ss[i]) by { FitsNodeSlot(ss, i); }
      SlotOnDisk(log, t.off + 13, ss[1..], i - 1);
    }
  }

  lemma FitsNodeSlot(ss: seq<Slot>, i: nat)
    requires FitsNode(BranchNode(ss)) && i < |ss|
    ensures FitsSlot(ss[i])
  {
  }

  lemma BranchHeader(log: Bytes, off: nat, ss: seq<Slot>)
    requires ss != [] && FitsNode(BranchNode(ss)) && At(log, off, BranchBytes(ss))
    ensures off + 13 <= |log| && log[off] == 'b' as int
    ensures U32(log, off + 1) == |ss| - 1 && U64(log, off + 5) == ss[0].off
    ensures At(log, off + 13, SlotsBytes(ss[1..]))
  {
    hide At, Enc32, Enc64, Read32, Read64, U32, U64, SlotsBytes;
    HeaderAt(log, off, BRANCH, |ss| - 1, BodyBytes(ss));
    AtSplit(log, off + 5, Enc64(ss[0].off), SlotsBytes(ss[1..]));
    Read64Iff(log, off + 5, ss[0].off);
    ReadsBigEndian(log, off + 1);
    ReadsBigEndian(log, off + 5);
  }

  lemma SlotOnDisk(log: Bytes, pos: nat, ss: seq<Slot>, i: nat)
    requires At(log, pos, SlotsBytes(ss)) && i < |ss| && FitsSlot(ss[i])
    ensures var p, s := pos + SlotSpan(ss, i), ss[i];
      DataAt(log, p, s.key) && NumberAt(log, p + 4 + |s.key|, s.off)
  {
    hide At, SlotsBytes, DataAt, NumberAt, SlotSpan, Enc64;
    var p, s := pos + SlotSpan(ss, i), ss[i];
    SlotAt(log, pos, ss, i);
    SlotSpanIs(ss, i);
    SlotIsIff(log, p, s);
    AtSplit(log, p, BlockBytes(s.key), Enc64(s.off));
    BlockAt(log, p, s.key);
    U64At(log, p + 4 + |s.key|, s.off);
  }

  /** A version: the number of the version it was made from, and then its root, which begins with the
      letter l or b. */
  lemma VersionOnDisk(m: nat, log: Bytes, v: nat)
    requires VersionOK(m, log, v) && v != 0
    ensures v + 8 < |log| && U64(log, v) == Previous(log, v)
    ensures log[v + 8] == if TreeOf(log, v).Leaf? then 'l' as int else 'b' as int
  {
    hide U32, U64, Stored, TreeOf, VersionOK, Read64;
    VersionTree(m, log, v);
    var t := TreeOf(log, v);
    if t.Leaf? {
      LeafOnDisk(log, t, 0);
    } else {
      BranchOnDisk(log, t, 0);
    }
    ReadsBigEndian(log, v);
  }

  // ----- Blocks

  lemma TagFirst(file: Bytes, tag: byte, rest: Bytes)
    ensures var all := file + ([tag] + rest); all[|file|] == tag && At(all, |file| + 1, rest)
  {
    var all := file + ([tag] + rest);
    assert all == (file + [tag]) + rest;
  }

  lemma EncodeShape(b: Block)
    ensures Encode(b) == match b
      case Nodes(body) => ['d' as int] + BlockBytes(body)
      case Head(ver) => ['v' as int] + Enc64(ver)
  {
    hide Enc32, Enc64;
  }

  /** A block that follows the bytes of a file: the letter d, the size of the body and the body, or the
      letter v and the number of the version that becomes current. */
  lemma BlockOnDisk(file: Bytes, b: Block)
    requires FitsBlock(b)
    ensures var n, all := |file|, file + Encode(b);
      match b
      case Nodes(body) => |all| == n + 5 + |body| && all[n] == 'd' as int && DataAt(all, n + 1, body)
      case Head(ver) => |all| == n + 9 && all[n] == 'v' as int && NumberAt(all, n + 1, ver)
  {
    hide At, Encode, BlockBytes, Enc64, DataAt, NumberAt;
    var n, all := |file|, file + Encode(b);
    EncodeShape(b);
    match b {
      case Nodes(body) =>
        TagFirst(file, 'd' as int, BlockBytes(body));
        BlockAt(all, n + 1, body);
        BlockLength(body);
      case Head(ver) =>
        TagFirst(file, 'v' as int, Enc64(ver));
        U64At(all, n + 1, ver);
    }
  }

  lemma BlockLength(d: Bytes)
    ensures |BlockBytes(d)| == 4 + |d|
  {
  }
}
