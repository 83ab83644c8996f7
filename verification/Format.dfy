/** How tree nodes are written as bytes and read back (the "data format" of aodbm_internal.c). */
module Format {
  import opened Bytes
  import opened Data

  datatype Record = Record(key: Bytes, val: Bytes)

  /** A child of a branch: the lower bound of its keys, and its offset in the file.  The first
      child of a branch is written without its key, which is represented by the empty key. */
  datatype Slot = Slot(key: Bytes, off: nat)

  datatype Node = LeafNode(recs: seq<Record>) | BranchNode(slots: seq<Slot>)

  const LEAF: byte := 108  // 'l'
  const BRANCH: byte := 98  // 'b'

  // ----- Reading

  /** aodbm_read32 */
  function Read32(log: Bytes, off: nat): nat
    requires off + 4 <= |log|
  {
    Dec32(log[off..off + 4])
  }

  /** aodbm_read64 */
  function Read64(log: Bytes, off: nat): nat
    requires off + 8 <= |log|
  {
    Dec64(log[off..off + 8])
  }

  predicate HasData(log: Bytes, off: nat) {
    off + 4 <= |log| && off + 4 + Read32(log, off) <= |log|
  }

  /** aodbm_read_data */
  function ReadData(log: Bytes, off: nat): Bytes
    requires HasData(log, off)
  {
    log[off + 4..off + 4 + Read32(log, off)]
  }

  // ----- Writing

  /** make_block */
  function BlockBytes(d: Bytes): Bytes {
    Enc32(|d|) + d
  }

  /** make_record */
  function RecordBytes(r: Record): Bytes {
    BlockBytes(r.key) + BlockBytes(r.val)
  }

  function RecordsBytes(rs: seq<Record>): Bytes {
    if rs == [] then [] else RecordBytes(rs[0]) + RecordsBytes(rs[1..])
  }

  function SlotBytes(s: Slot): Bytes {
    BlockBytes(s.key) + Enc64(s.off)
  }

  function SlotsBytes(ss: seq<Slot>): Bytes {
    if ss == [] then [] else SlotBytes(ss[0]) + SlotsBytes(ss[1..])
  }

  /** A branch's children: the first offset, then the other children with their keys. */
  function BodyBytes(ss: seq<Slot>): Bytes {
    if ss == [] then [] else Enc64(ss[0].off) + SlotsBytes(ss[1..])
  }

  function LeafBytes(rs: seq<Record>): Bytes {
    [LEAF] + Enc32(|rs|) + RecordsBytes(rs)
  }

  function BranchBytes(ss: seq<Slot>): Bytes
    requires ss != []
  {
    [BRANCH] + Enc32(|ss| - 1) + BodyBytes(ss)
  }

  function NodeBytes(node: Node): Bytes {
    match node
    case LeafNode(recs) => LeafBytes(recs)
    case BranchNode(slots) => if slots == [] then [] else BranchBytes(slots)
  }

  lemma {:induction false} RecordsBytesAppend(a: seq<Record>, b: seq<Record>)
    ensures RecordsBytes(a + b) == RecordsBytes(a) + RecordsBytes(b)
  {
    if a == [] {
      assert a + b == b;
    } else {
      assert (a + b)[1..] == a[1..] + b;
      RecordsBytesAppend(a[1..], b);
    }
  }

  lemma {:induction false} SlotsBytesAppend(a: seq<Slot>, b: seq<Slot>)
    ensures SlotsBytes(a + b) == SlotsBytes(a) + SlotsBytes(b)
  {
    if a == [] {
      assert a + b == b;
    } else {
      assert (a + b)[1..] == a[1..] + b;
      SlotsBytesAppend(a[1..], b);
    }
  }

  // ----- Sizes that fit their fields

  predicate FitsRecord(r: Record) {
    |r.key| < TWO_32 && |r.val| < TWO_32
  }

  predicate FitsSlot(s: Slot) {
    |s.key| < TWO_32 && s.off < TWO_64
  }

  predicate FitsRecords(rs: seq<Record>) {
    forall i :: 0 <= i < |rs| ==> FitsRecord(rs[i])
  }

  predicate FitsSlots(ss: seq<Slot>) {
    forall i :: 0 <= i < |ss| ==> FitsSlot(ss[i])
  }

  predicate FitsNode(node: Node) {
    match node
    case LeafNode(recs) => |recs| < TWO_32 && FitsRecords(recs)
    case BranchNode(slots) => 1 <= |slots| <= TWO_32 && slots[0].key == [] && FitsSlots(slots)
  }

  // ----- Parsing a node of an arbitrary file

  function ParseRecords(log: Bytes, pos: nat, n: nat): Option<seq<Record>>
    decreases n
  {
    if n == 0 then Some([])
    else if !HasData(log, pos) then None
    else
      var key := ReadData(log, pos);
      var mid := pos + 4 + |key|;
      if !HasData(log, mid) then None
      else
        var val := ReadData(log, mid);
        match ParseRecords(log, mid + 4 + |val|, n - 1)
        case None => None
        case Some(rest) => Some([Record(key, val)] + rest)
  }

  function ParseSlots(log: Bytes, pos: nat, n: nat): Option<seq<Slot>>
    decreases n
  {
    if n == 0 then Some([])
    else if !HasData(log, pos) then None
    else
      var key := ReadData(log, pos);
      var mid := pos + 4 + |key|;
      if mid + 8 > |log| then None
      else
        match ParseSlots(log, mid + 8, n - 1)
        case None => None
        case Some(rest) => Some([Slot(key, Read64(log, mid))] + rest)
  }

  function ParseNode(log: Bytes, off: nat): Option<Node> {
    if off + 5 > |log| then None
    else if log[off] == LEAF then
      match ParseRecords(log, off + 5, Read32(log, off + 1))
      case None => None
      case Some(recs) => Some(LeafNode(recs))
    else if log[off] == BRANCH && off + 13 <= |log| then
      match ParseSlots(log, off + 13, Read32(log, off + 1))
      case None => None
      case Some(rest) => Some(BranchNode([Slot([], Read64(log, off + 5))] + rest))
    else None
  }

  // ----- Reading and writing are inverse

  lemma Read32Iff(log: Bytes, pos: nat, n: nat)
    ensures n < TWO_32 && At(log, pos, Enc32(n)) <==> pos + 4 <= |log| && Read32(log, pos) == n
  {
    if pos + 4 <= |log| {
      Enc32Dec32(log[pos..pos + 4]);
    }
  }

  lemma Read64Iff(log: Bytes, pos: nat, n: nat)
    ensures n < TWO_64 && At(log, pos, Enc64(n)) <==> pos + 8 <= |log| && Read64(log, pos) == n
  {
    if pos + 8 <= |log| {
      Enc64Dec64(log[pos..pos + 8]);
    }
  }

  lemma ReadDataIff(log: Bytes, pos: nat, d: Bytes)
    ensures |d| < TWO_32 && At(log, pos, BlockBytes(d)) <==> HasData(log, pos) && ReadData(log, pos) == d
  {
    AtSplit(log, pos, Enc32(|d|), d);
    Read32Iff(log, pos, |d|);
  }

  /** The record r is read at pos. */
  ghost predicate RecordIs(log: Bytes, pos: nat, r: Record) {
    var mid := pos + 4 + |r.key|;
    && HasData(log, pos) && ReadData(log, pos) == r.key
    && HasData(log, mid) && ReadData(log, mid) == r.val
  }

  lemma RecordIsIff(log: Bytes, pos: nat, r: Record)
    ensures RecordIs(log, pos, r) <==> FitsRecord(r) && At(log, pos, RecordBytes(r))
  {
    ReadDataIff(log, pos, r.key);
    ReadDataIff(log, pos + 4 + |r.key|, r.val);
    AtSplit(log, pos, BlockBytes(r.key), BlockBytes(r.val));
  }

  /** The child s is read at pos. */
  ghost predicate SlotIs(log: Bytes, pos: nat, s: Slot) {
    var mid := pos + 4 + |s.key|;
    && HasData(log, pos) && ReadData(log, pos) == s.key
    && mid + 8 <= |log| && Read64(log, mid) == s.off
  }

  lemma SlotIsIff(log: Bytes, pos: nat, s: Slot)
    ensures SlotIs(log, pos, s) <==> FitsSlot(s) && At(log, pos, SlotBytes(s))
  {
    ReadDataIff(log, pos, s.key);
    Read64Iff(log, pos + 4 + |s.key|, s.off);
    AtSplit(log, pos, BlockBytes(s.key), Enc64(s.off));
  }

  lemma {:induction false} ParseRecordsIff(log: Bytes, pos: nat, n: nat, rs: seq<Record>)
    requires pos <= |log|
    ensures ParseRecords(log, pos, n) == Some(rs)
       <==> |rs| == n && FitsRecords(rs) && At(log, pos, RecordsBytes(rs))
    decreases n
  {
    hide At, Read32, Read64, Enc32, Enc64, Dec32, Dec64;
    if n > 0 && |rs| > 0 {
      var r, next := rs[0], pos + |RecordBytes(rs[0])|;
      RecordIsIff(log, pos, r);
      AtSplit(log, pos, RecordBytes(r), RecordsBytes(rs[1..]));
      assert rs == [r] + rs[1..];
      if RecordIs(log, pos, r) {
        ParseRecordsIff(log, next, n - 1, rs[1..]);
        assert forall i :: 1 <= i < |rs| ==> rs[i] == rs[1..][i - 1];
      }
    } else {
      AtNothing(log, pos);
    }
  }

  lemma {:induction false} ParseSlotsIff(log: Bytes, pos: nat, n: nat, ss: seq<Slot>)
    requires pos <= |log|
    ensures ParseSlots(log, pos, n) == Some(ss)
       <==> |ss| == n && FitsSlots(ss) && At(log, pos, SlotsBytes(ss))
    decreases n
  {
    hide At, Read32, Read64, Enc32, Enc64, Dec32, Dec64;
    if n > 0 && |ss| > 0 {
      var s, next := ss[0], pos + |SlotBytes(ss[0])|;
      SlotIsIff(log, pos, s);
      AtSplit(log, pos, SlotBytes(s), SlotsBytes(ss[1..]));
      assert ss == [s] + ss[1..];
      if SlotIs(log, pos, s) {
        ParseSlotsIff(log, next, n - 1, ss[1..]);
        assert forall i :: 1 <= i < |ss| ==> ss[i] == ss[1..][i - 1];
      }
    } else {
      AtNothing(log, pos);
    }
  }

  lemma HeaderAt(log: Bytes, off: nat, kind: byte, n: nat, body: Bytes)
    ensures n < TWO_32 && At(log, off, [kind] + Enc32(n) + body)
       <==> off + 5 <= |log| && log[off] == kind && Read32(log, off + 1) == n && At(log, off + 5, body)
  {
    AtSplit(log, off, [kind] + Enc32(n), body);
    AtSplit(log, off, [kind], Enc32(n));
    Read32Iff(log, off + 1, n);
  }

  lemma ParseLeafIff(log: Bytes, off: nat, recs: seq<Record>)
    ensures ParseNode(log, off) == Some(LeafNode(recs))
       <==> FitsNode(LeafNode(recs)) && At(log, off, LeafBytes(recs))
  {
    HeaderAt(log, off, LEAF, |recs|, RecordsBytes(recs));
    if off + 5 <= |log| && log[off] == LEAF {
      ParseRecordsIff(log, off + 5, Read32(log, off + 1), recs);
    }
  }

  lemma ParsedBranch(log: Bytes, off: nat, slots: seq<Slot>)
    requires slots != []
    ensures ParseNode(log, off) == Some(BranchNode(slots))
       <==> && off + 13 <= |log| && log[off] == BRANCH
            && slots[0] == Slot([], Read64(log, off + 5))
            && ParseSlots(log, off + 13, Read32(log, off + 1)) == Some(slots[1..])
  {
    hide ParseSlots, ParseRecords, Read32, Read64;
    assert slots == [slots[0]] + slots[1..];
    if off + 13 <= |log| && log[off] == BRANCH {
      var parsed := ParseSlots(log, off + 13, Read32(log, off + 1));
      if parsed.Some? {
        assert ([Slot([], Read64(log, off + 5))] + parsed.value)[1..] == parsed.value;
      }
    }
  }

  lemma FittingBranch(slots: seq<Slot>)
    requires slots != []
    ensures FitsNode(BranchNode(slots))
       <==> |slots| <= TWO_32 && slots[0].key == [] && slots[0].off < TWO_64 && FitsSlots(slots[1..])
  {
    assert forall i :: 1 <= i < |slots| ==> slots[i] == slots[1..][i - 1];
  }

  lemma ParseBranchIff(log: Bytes, off: nat, slots: seq<Slot>)
    requires slots != []
    ensures ParseNode(log, off) == Some(BranchNode(slots))
       <==> FitsNode(BranchNode(slots)) && At(log, off, BranchBytes(slots))
  {
    hide Enc32, Enc64, Dec32, Dec64, Read32, Read64, ParseNode, ParseSlots, SlotsBytes, FitsNode, FitsSlots, At;
    var first, rest := slots[0], slots[1..];
    ParsedBranch(log, off, slots);
    FittingBranch(slots);
    HeaderAt(log, off, BRANCH, |rest|, BodyBytes(slots));
    AtSplit(log, off + 5, Enc64(first.off), SlotsBytes(rest));
    Read64Iff(log, off + 5, first.off);
    if off + 13 <= |log| {
      ParseSlotsIff(log, off + 13, Read32(log, off + 1), rest);
    }
  }

  /** A node is read at an offset exactly when its bytes are there: what was written is what is
      read, and nothing else parses. */
  lemma ParseNodeIff(log: Bytes, off: nat, node: Node)
    ensures ParseNode(log, off) == Some(node) <==> FitsNode(node) && At(log, off, NodeBytes(node))
  {
    match node
    case LeafNode(recs) => ParseLeafIff(log, off, recs);
    case BranchNode(slots) => if slots != [] { ParseBranchIff(log, off, slots); }
  }

  // ----- Reading a node from left to right

  lemma RecordsSplit(log: Bytes, pos: nat, rs: seq<Record>, i: nat)
    requires At(log, pos, RecordsBytes(rs)) && i <= |rs|
    ensures At(log, pos + |RecordsBytes(rs[..i])|, RecordsBytes(rs[i..]))
    ensures i < |rs| ==> RecordsBytes(rs[..i + 1]) == RecordsBytes(rs[..i]) + RecordBytes(rs[i])
  {
    hide At, RecordBytes, RecordsBytes;
    assert rs == rs[..i] + rs[i..];
    RecordsBytesAppend(rs[..i], rs[i..]);
    AtSplit(log, pos, RecordsBytes(rs[..i]), RecordsBytes(rs[i..]));
    if i < |rs| {
      RecordsBytesNext(rs, i);
    }
  }

  lemma RecordsBytesNext(rs: seq<Record>, i: nat)
    requires i < |rs|
    ensures RecordsBytes(rs[..i + 1]) == RecordsBytes(rs[..i]) + RecordBytes(rs[i])
  {
    hide RecordBytes;
    assert rs[..i + 1] == rs[..i] + [rs[i]];
    RecordsBytesAppend(rs[..i], [rs[i]]);
    assert RecordsBytes([rs[i]]) == RecordBytes(rs[i]) + [];
  }

  lemma FirstRecordAt(log: Bytes, pos: nat, rs: seq<Record>)
    requires At(log, pos, RecordsBytes(rs)) && rs != [] && FitsRecord(rs[0])
    ensures RecordIs(log, pos, rs[0])
  {
    hide At, RecordBytes, RecordIs;
    AtSplit(log, pos, RecordBytes(rs[0]), RecordsBytes(rs[1..]));
    RecordIsIff(log, pos, rs[0]);
  }

  /** Where a loop over a leaf's records finds record i, and where it goes next. */
  lemma RecordAt(log: Bytes, pos: nat, rs: seq<Record>, i: nat)
    requires At(log, pos, RecordsBytes(rs)) && i < |rs| && FitsRecord(rs[i])
    ensures var p := pos + |RecordsBytes(rs[..i])|;
      RecordIs(log, p, rs[i]) && p + |RecordBytes(rs[i])| == pos + |RecordsBytes(rs[..i + 1])|
    ensures RecordsBytes(rs[..i + 1]) == RecordsBytes(rs[..i]) + RecordBytes(rs[i])
  {
    hide At, RecordBytes, RecordsBytes, RecordIs;
    RecordsSplit(log, pos, rs, i);
    FirstRecordAt(log, pos + |RecordsBytes(rs[..i])|, rs[i..]);
  }

  lemma SlotsSplit(log: Bytes, pos: nat, ss: seq<Slot>, i: nat)
    requires At(log, pos, SlotsBytes(ss)) && i <= |ss|
    ensures At(log, pos + |SlotsBytes(ss[..i])|, SlotsBytes(ss[i..]))
    ensures i < |ss| ==> SlotsBytes(ss[..i + 1]) == SlotsBytes(ss[..i]) + SlotBytes(ss[i])
  {
    hide At, SlotBytes, SlotsBytes;
    assert ss == ss[..i] + ss[i..];
    SlotsBytesAppend(ss[..i], ss[i..]);
    AtSplit(log, pos, SlotsBytes(ss[..i]), SlotsBytes(ss[i..]));
    if i < |ss| {
      SlotsBytesNext(ss, i);
    }
  }

  lemma SlotsBytesNext(ss: seq<Slot>, i: nat)
    requires i < |ss|
    ensures SlotsBytes(ss[..i + 1]) == SlotsBytes(ss[..i]) + SlotBytes(ss[i])
  {
    hide SlotBytes;
    assert ss[..i + 1] == ss[..i] + [ss[i]];
    SlotsBytesAppend(ss[..i], [ss[i]]);
    assert SlotsBytes([ss[i]]) == SlotBytes(ss[i]) + [];
  }

  lemma FirstSlotAt(log: Bytes, pos: nat, ss: seq<Slot>)
    requires At(log, pos, SlotsBytes(ss)) && ss != [] && FitsSlot(ss[0])
    ensures SlotIs(log, pos, ss[0])
  {
    hide At, SlotBytes, SlotIs;
    AtSplit(log, pos, SlotBytes(ss[0]), SlotsBytes(ss[1..]));
    SlotIsIff(log, pos, ss[0]);
  }

  /** Where a loop over a branch's children finds child i. */
  lemma SlotAt(log: Bytes, pos: nat, ss: seq<Slot>, i: nat)
    requires At(log, pos, SlotsBytes(ss)) && i < |ss| && FitsSlot(ss[i])
    ensures var p := pos + |SlotsBytes(ss[..i])|;
      SlotIs(log, p, ss[i]) && p + |SlotBytes(ss[i])| == pos + |SlotsBytes(ss[..i + 1])|
    ensures SlotsBytes(ss[..i + 1]) == SlotsBytes(ss[..i]) + SlotBytes(ss[i])
  {
    hide At, SlotBytes, SlotsBytes, SlotIs;
    SlotsSplit(log, pos, ss, i);
    FirstSlotAt(log, pos + |SlotsBytes(ss[..i])|, ss[i..]);
  }
}
