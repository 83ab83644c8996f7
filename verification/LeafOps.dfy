/** Rebuilding a leaf in ropes (insert_into_leaf, remove_from_leaf and their helpers in aodbm.c).
    The log parameter is the file of the database, which these functions only read; the ghost
    parameter rs holds the records that are written there from the given position on. */
module LeafOps {
  import opened Bytes
  import opened Data
  import opened RopeStructure
  import opened Format
  import opened Trees
  import opened Records
  import opened Edit

  datatype RangeResult = RangeResult(node: Rope, key: Option<Bytes>, endPos: nat, sz: nat, inserted: bool)

  /** One or two rebuilt nodes with their keys; aKey is None when nothing is left of the node. */
  datatype ModifyResult = ModifyResult(aNode: Rope?, aKey: Option<Bytes>, bNode: Rope?, bKey: Option<Bytes>)

  ghost predicate Spells(r: Rope?, b: Bytes)
    reads r, if r != null then r.Repr else {}
  {
    r != null && r.Valid() && r.Contents == b
  }

  ghost function Footprint(r: Rope?): set<object>
    reads r
  {
    if r != null then r.Repr else {}
  }

  /** The ropes of r spell the nodes of parts. */
  ghost predicate Holds(r: ModifyResult, parts: seq<Entry>)
    reads r.aNode, r.bNode, Footprint(r.aNode), Footprint(r.bNode)
  {
    && |parts| <= 2
    && (|parts| == 0 ==> r.aKey == None)
    && (|parts| >= 1 ==> Spells(r.aNode, RootBytes(parts[0].kid)) && r.aKey == Some(parts[0].key))
    && (|parts| <= 1 ==> r.bNode == null && r.bKey == None)
    && (|parts| == 2 ==> Spells(r.bNode, RootBytes(parts[1].kid)) && r.bKey == Some(parts[1].key)
                         && Footprint(r.aNode) !! Footprint(r.bNode))
  }

  /** make_block */
  method MakeBlock(dat: Bytes) returns (r: Rope)
    ensures r.Valid() && fresh(r.Repr) && r.Contents == BlockBytes(dat)
  {
    r := new Rope.Two(Enc32(|dat|), dat);
  }

  /** make_record */
  method MakeRecord(key: Bytes, val: Bytes) returns (r: Rope)
    ensures r.Valid() && fresh(r.Repr) && r.Contents == RecordBytes(Record(key, val))
  {
    r := MakeBlock(key);
    var v := MakeBlock(val);
    r.Merge(v);
  }

  /** aodbm_leaf_node */
  method MakeLeafNode(key: Bytes, val: Bytes) returns (r: Rope)
    ensures r.Valid() && fresh(r.Repr) && r.Contents == LeafBytes([Record(key, val)])
  {
    r := new Rope.Two([LEAF], Enc32(1));
    var rec := MakeRecord(key, val);
    r.Merge(rec);
    assert RecordsBytes([Record(key, val)]) == RecordBytes(Record(key, val)) + [];
  }

  /** add_header */
  method AddHeader(result: RangeResult) returns (r: RangeResult)
    requires result.node.Valid()
    modifies result.node.Repr
    ensures r.node.Valid() && fresh(r.node.Repr - old(result.node.Repr))
    ensures r.node.Contents == [LEAF] + Enc32(result.sz) + old(result.node.Contents)
    ensures r == result.(node := r.node)
  {
    var header := new Rope.Two([LEAF], Enc32(result.sz));
    header.Merge(result.node);
    r := result.(node := header);
  }

  /** Two calls of aodbm_read_data: record i of a leaf, and the position behind it. */
  method ReadRecord(log: Bytes, pos: nat, ghost start: nat, ghost rs: seq<Record>, ghost i: nat)
      returns (key: Bytes, val: Bytes, next: nat)
    requires At(log, start, RecordsBytes(rs)) && FitsRecords(rs) && i < |rs|
    requires pos == start + |RecordsBytes(rs[..i])|
    ensures rs[i] == Record(key, val) && next == start + |RecordsBytes(rs[..i + 1])|
    ensures RecordsBytes(rs[..i + 1]) == RecordsBytes(rs[..i]) + RecordBytes(rs[i])
  {
    hide At, RecordsBytes, RecordBytes, HasData, ReadData;
    RecordAt(log, start, rs, i);
    RecordLength(rs[i]);
    key := ReadData(log, pos);
    next := pos + |key| + 4;
    val := ReadData(log, next);
    next := next + |val| + 4;
  }

  /** duplicate_leaf_range */
  method DuplicateLeafRange(log: Bytes, startPos: nat, num: nat, ghost rs: seq<Record>) returns (r: RangeResult)
    requires At(log, startPos, RecordsBytes(rs)) && FitsRecords(rs) && num <= |rs|
    ensures r.node.Valid() && fresh(r.node.Repr) && r.node.Contents == RecordsBytes(rs[..num])
    ensures (num > 0 ==> r.key == Some(rs[0].key)) && r.endPos == startPos + |RecordsBytes(rs[..num])|
    ensures r.sz == num && !r.inserted
  {
    hide At, RecordsBytes, RecordBytes, HasData, ReadData, Rope.Valid;
    var data := new Rope.Empty();
    var key1: Option<Bytes> := None;
    var pos := startPos;
    NoRecords(rs);
    var i := 0;
    while i < num
      invariant 0 <= i <= num
      invariant data.Valid() && fresh(data.Repr) && data.Contents == RecordsBytes(rs[..i])
      invariant pos == startPos + |RecordsBytes(rs[..i])|
      invariant key1 == if i == 0 then None else Some(rs[0].key)
    {
      var dKey, dVal, next := ReadRecord(log, pos, startPos, rs, i);
      pos := next;
      if i == 0 {
        key1 := Some(dKey);
      }
      var rec := MakeRecord(dKey, dVal);
      data.Merge(rec);
      i := i + 1;
    }
    r := RangeResult(data, key1, pos, num, false);
  }

  lemma NoRecords(rs: seq<Record>)
    ensures RecordsBytes(rs[..0]) == []
  {
  }

  lemma RecordLength(r: Record)
    ensures |RecordBytes(r)| == |r.key| + |r.val| + 8
  {
  }

  /** Where a record goes that belongs before or at a[i]. */
  lemma PutAt(a: seq<Record>, i: nat, k: Bytes, v: Bytes)
    requires i < |a| && AllBelow(a[..i], k) && Rank(k) <= Rank(a[i].key)
    ensures Put(a, k, v) == a[..i] + [Record(k, v)] + if k == a[i].key then a[i + 1..] else a[i..]
    ensures Covers(a, k)
  {
    hide Rank;
    assert a == a[..i] + a[i..];
    ApplyAfter(a[..i], a[i..], Modify(k, v));
    LtIsRankOrder(k, a[i].key);
    assert a[i..][1..] == a[i + 1..];
    assert a[..i] + ([Record(k, v)] + a[i..]) == a[..i] + [Record(k, v)] + a[i..];
    assert a[..i] + ([Record(k, v)] + a[i + 1..]) == a[..i] + [Record(k, v)] + a[i + 1..];
  }

  lemma PutLast(a: seq<Record>, k: Bytes, v: Bytes)
    requires AllBelow(a, k)
    ensures Put(a, k, v) == a + [Record(k, v)] && !Covers(a, k)
  {
    hide Rank;
    ApplyAfter(a, [], Modify(k, v));
    assert a + [] == a;
  }

  lemma BytesOfTwo(a: seq<Record>, r: Record)
    ensures RecordsBytes(a + [r]) == RecordsBytes(a) + RecordBytes(r)
  {
    hide RecordBytes;
    RecordsBytesAppend(a, [r]);
    assert RecordsBytes([r]) == RecordBytes(r) + [];
  }

  /** The bytes that are laid out when the loop stops at a[i]. */
  lemma StoppedBytes(a: seq<Record>, i: nat, k: Bytes, v: Bytes)
    requires i < |a| && AllBelow(a[..i], k) && Rank(k) <= Rank(a[i].key)
    ensures RecordsBytes(Put(a, k, v)) ==
      if k == a[i].key then RecordsBytes(a[..i]) + RecordBytes(Record(k, v)) + RecordsBytes(a[i + 1..])
      else RecordsBytes(a[..i]) + RecordBytes(Record(k, v)) + RecordBytes(a[i]) + RecordsBytes(a[i + 1..])
    ensures RecordsBytes(a) == RecordsBytes(a[..i + 1]) + RecordsBytes(a[i + 1..])
    ensures Put(a, k, v) != [] && Put(a, k, v)[0].key == if i == 0 then k else a[0].key
    ensures |Put(a, k, v)| == |a| + (if k == a[i].key then 0 else 1) && Covers(a, k)
  {
    hide Rank, RecordBytes, RecordsBytes, Put, AllBelow, Covers;
    PutAt(a, i, k, v);
    var before, after := a[..i] + [Record(k, v)], a[i + 1..];
    BytesOfTwo(a[..i], Record(k, v));
    if k == a[i].key {
      RecordsBytesAppend(before, after);
    } else {
      assert a[i..] == [a[i]] + after;
      BytesOfTwo(before, a[i]);
      RecordsBytesAppend(before + [a[i]], after);
      assert before + a[i..] == (before + [a[i]]) + after;
    }
    RecordsBytesAppend(a[..i + 1], after);
    assert a[..i + 1] + after == a;
  }

  lemma NoneBelow(k: Bytes)
    ensures AllBelow([], k)
  {
  }

  lemma AllBelowMore(rs: seq<Record>, i: nat, k: Bytes)
    requires i < |rs| && AllBelow(rs[..i], k) && Rank(rs[i].key) < Rank(k)
    ensures AllBelow(rs[..i + 1], k)
  {
    hide Rank;
  }

  /** The loop of insert_into_leaf_range: copies records up to the first that is not before key, and
      puts the new record iRec there. */
  method InsertLoop(log: Bytes, key: Bytes, val: Bytes, iRec: Rope, startPos: nat, num: nat, ghost rs: seq<Record>)
      returns (data: Rope, key1: Option<Bytes>, pos: nat, i: nat, inserted: bool)
    requires At(log, startPos, RecordsBytes(rs)) && FitsRecords(rs) && num <= |rs|
    requires iRec.Valid() && iRec.Contents == RecordBytes(Record(key, val))
    modifies iRec.Repr
    ensures data.Valid() && fresh(data.Repr - old(iRec.Repr)) && i <= num && AllBelow(rs[..i], key)
    ensures if i == num then
        && data.Contents == RecordsBytes(rs[..num]) && key1 == (if num == 0 then None else Some(rs[0].key))
        && pos == startPos + |RecordsBytes(rs[..num])|
        && iRec.Valid() && iRec.Contents == RecordBytes(Record(key, val))
        && iRec.Repr == old(iRec.Repr) && data.Repr !! iRec.Repr
      else
        && Rank(key) <= Rank(rs[i].key) && key1 == Some(if i == 0 then key else rs[0].key)
        && inserted == (key != rs[i].key)
        && pos == startPos + |RecordsBytes(rs[..i + 1])|
        && data.Contents ==
          if inserted then RecordsBytes(rs[..i]) + RecordBytes(Record(key, val)) + RecordBytes(rs[i])
          else RecordsBytes(rs[..i]) + RecordBytes(Record(key, val))
  {
    hide At, RecordsBytes, RecordBytes, FitsRecords, Rank, AllBelow, Rope.Valid;
    inserted := false;
    data := new Rope.Empty();
    key1 := None;
    pos := startPos;
    i := 0;
    NoRecords(rs);
    NoneBelow(key);
    assert rs[..0] == [];
    while i < num
      invariant 0 <= i <= num
      invariant data.Valid() && fresh(data.Repr) && data.Contents == RecordsBytes(rs[..i])
      invariant iRec.Valid() && iRec.Contents == RecordBytes(Record(key, val)) && iRec.Repr == old(iRec.Repr)
      invariant pos == startPos + |RecordsBytes(rs[..i])|
      invariant key1 == if i == 0 then None else Some(rs[0].key)
      invariant AllBelow(rs[..i], key)
    {
      var dKey, dVal, next := ReadRecord(log, pos, startPos, rs, i);
      pos := next;
      var cmp := DataCmp(key, dKey);
      if cmp == -1 {
        inserted := true;
      }
      if cmp == 0 {
        inserted := false;
      }
      if cmp != 1 {
        data.Merge(iRec);
        if i == 0 {
          key1 := Some(key);
        }
      }
      if cmp != 0 {
        if key1 == None && i == 0 {
          key1 := Some(dKey);
        }
        var rec := MakeRecord(dKey, dVal);
        data.Merge(rec);
      }
      if cmp != 1 {
        break;
      }
      AllBelowMore(rs, i, key);
      i := i + 1;
    }
  }

  lemma SliceOfSlice(rs: seq<Record>, num: nat, i: nat)
    requires i <= num <= |rs|
    ensures rs[..num][..i] == rs[..i] && rs[..num][i..] == rs[i..][..num - i]
  {
  }

  /** Copies the records behind record i, if there are any, to the end of the data. */
  method CopyRest(log: Bytes, data: Rope, startPos: nat, pos: nat, num: nat, i: nat, ghost rs: seq<Record>)
      returns (endPos: nat)
    requires At(log, startPos, RecordsBytes(rs)) && FitsRecords(rs) && i < num <= |rs|
    requires data.Valid() && pos == startPos + |RecordsBytes(rs[..i + 1])|
    modifies data.Repr
    ensures data.Valid() && fresh(data.Repr - old(data.Repr))
    ensures data.Contents == old(data.Contents) + RecordsBytes(rs[..num][i + 1..])
    ensures endPos == startPos + |RecordsBytes(rs[..num])|
  {
    hide At, RecordsBytes, FitsRecords, Rope.Valid;
    ghost var seen, rest := rs[..i + 1], rs[..num][i + 1..];
    SliceOfSlice(rs, num, i + 1);
    RecordsBytesAppend(seen, rest);
    assert seen + rest == rs[..num];
    if num - i != 1 {
      RecordsSplit(log, startPos, rs, i + 1);
      RestFits(rs, i + 1);
      var dup := DuplicateLeafRange(log, pos, num - i - 1, rs[i + 1..]);
      data.Merge(dup.node);
      endPos := dup.endPos;
    } else {
      NoRecords(rest);
      assert rest == rest[..0];
      endPos := pos;
    }
  }

  /** insert_into_leaf_range */
  method InsertIntoLeafRange(
      log: Bytes, key: Bytes, val: Bytes, startPos: nat, num: nat, insertEnd: bool, ghost rs: seq<Record>)
      returns (result: RangeResult)
    requires At(log, startPos, RecordsBytes(rs)) && FitsRecords(rs) && num <= |rs|
    ensures var a := rs[..num];
      var now := if Covers(a, key) || insertEnd then Put(a, key, val) else a;
      && result.node.Valid() && fresh(result.node.Repr) && result.node.Contents == RecordsBytes(now)
      && result.sz == |now| >= num && result.key == (if num == 0 then None else Some(now[0].key))
      && result.endPos == startPos + |RecordsBytes(a)|
      && result.inserted == (Covers(a, key) || insertEnd)
  {
    hide At, RecordsBytes, RecordBytes, FitsRecords, Rank, Put, Covers, AllBelow, Rope.Valid;
    ghost var a := rs[..num];
    var iRec := MakeRecord(key, val);
    var data, key1, pos, i, inserted := InsertLoop(log, key, val, iRec, startPos, num, rs);
    SliceOfSlice(rs, num, i);
    if i < num {
      // the record has its place in the range
      SliceOfSlice(rs, num, i + 1);
      StoppedBytes(a, i, key, val);
      var endPos := CopyRest(log, data, startPos, pos, num, i, rs);
      return RangeResult(data, key1, endPos, num + if inserted then 1 else 0, true);
    }
    PutLast(a, key, val);
    if insertEnd {
      BytesOfTwo(a, Record(key, val));
      data.Merge(iRec);
      return RangeResult(data, key1, pos, num + 1, true);
    }
    return RangeResult(data, key1, pos, num, false);
  }

  /** The contents of a leaf from its record count on. */
  ghost predicate LeafAt(log: Bytes, pos: nat, rs: seq<Record>) {
    FitsRecords(rs) && |rs| < TWO_32 && At(log, pos, Enc32(|rs|) + RecordsBytes(rs))
  }

  lemma LeafAtParts(log: Bytes, pos: nat, rs: seq<Record>)
    requires LeafAt(log, pos, rs)
    ensures pos + 4 <= |log| && Read32(log, pos) == |rs| && At(log, pos + 4, RecordsBytes(rs)) && FitsRecords(rs)
  {
    hide RecordsBytes, FitsRecords;
    AtSplit(log, pos, Enc32(|rs|), RecordsBytes(rs));
    Read32Iff(log, pos, |rs|);
  }

  /** insert_into_leaf; pos is just after the type byte. */
  method InsertIntoLeaf(m: nat, log: Bytes, key: Bytes, val: Bytes, pos: nat, ghost rs: seq<Record>)
      returns (result: ModifyResult)
    requires m >= 4 && m % 2 == 0 && |rs| <= m && LeafAt(log, pos, rs)
    ensures Holds(result, EditLeaf(m, rs, Modify(key, val))) && EditLeaf(m, rs, Modify(key, val)) != []
    ensures fresh(Footprint(result.aNode)) && fresh(Footprint(result.bNode))
  {
    hide At, RecordsBytes, Enc32, FitsRecords, Rank, Put, LeafAt, Rope.Valid, Covers;
    LeafAtParts(log, pos, rs);
    var sz := Read32(log, pos);
    var start := pos + 4;
    assert rs[..|rs|] == rs;
    if sz == m {
      var aRange := InsertIntoLeafRange(log, key, val, start, m / 2, false, rs);
      aRange := AddHeader(aRange);
      RecordsSplit(log, start, rs, m / 2);
      RestFits(rs, m / 2);
      assert rs[m / 2..][..m / 2] == rs[m / 2..];
      var bRange;
      if aRange.inserted {
        bRange := DuplicateLeafRange(log, aRange.endPos, m / 2, rs[m / 2..]);
      } else {
        bRange := InsertIntoLeafRange(log, key, val, aRange.endPos, m / 2, true, rs[m / 2..]);
      }
      bRange := AddHeader(bRange);
      return ModifyResult(aRange.node, aRange.key, bRange.node, bRange.key);
    } else if sz == 0 {
      assert Put(rs, key, val) == [Record(key, val)] by { PutLast(rs, key, val); }
      var node := MakeLeafNode(key, val);
      return ModifyResult(node, Some(key), null, None);
    } else {
      var range := InsertIntoLeafRange(log, key, val, start, sz, true, rs);
      range := AddHeader(range);
      return ModifyResult(range.node, range.key, null, None);
    }
  }

  lemma RestFits(rs: seq<Record>, n: nat)
    requires FitsRecords(rs) && n <= |rs|
    ensures FitsRecords(rs[n..])
  {
  }

  // ----- Removing

  ghost predicate Has(rs: seq<Record>, k: Bytes) {
    exists i :: 0 <= i < |rs| && rs[i].key == k
  }

  lemma {:induction false} DeleteLast(rs: seq<Record>, r: Record, k: Bytes)
    ensures Delete(rs + [r], k) == if Has(rs, k) || r.key != k then Delete(rs, k) + [r] else rs
    ensures !Has(rs, k) ==> Delete(rs, k) == rs
    ensures |Delete(rs, k)| == |rs| - if Has(rs, k) then 1 else 0
  {
    var all := rs + [r];
    if rs == [] {
      assert all == [r] && [r][1..] == [];
    } else {
      var rest := rs[1..];
      assert all[1..] == rest + [r];
      assert forall i :: 0 < i < |rs| ==> rs[i] == rest[i - 1];
      DeleteLast(rest, r, k);
      assert [rs[0]] + rest == rs;
    }
  }

  lemma HasLast(rs: seq<Record>, r: Record, k: Bytes)
    ensures Has(rs + [r], k) <==> Has(rs, k) || r.key == k
  {
    assert (rs + [r])[|rs|] == r;
    assert forall i :: 0 <= i < |rs| ==> (rs + [r])[i] == rs[i];
  }

  lemma RemoveStart(rs: seq<Record>, k: Bytes)
    ensures Delete(rs[..0], k) == [] && !Has(rs[..0], k)
  {
  }

  /** One step of the loop of remove_from_leaf. */
  lemma RemoveStep(rs: seq<Record>, i: nat, k: Bytes)
    requires i < |rs|
    ensures var seen, now := rs[..i], rs[..i + 1];
      var kept := Has(seen, k) || rs[i].key != k;
      && Delete(now, k) == Delete(seen, k) + (if kept then [rs[i]] else [])
      && RecordsBytes(Delete(now, k)) == RecordsBytes(Delete(seen, k)) + (if kept then RecordBytes(rs[i]) else [])
      && (Has(now, k) <==> Has(seen, k) || rs[i].key == k)
  {
    hide RecordBytes, RecordsBytes, Has, Delete;
    var seen := rs[..i];
    assert rs[..i + 1] == seen + [rs[i]];
    DeleteLast(seen, rs[i], k);
    HasLast(seen, rs[i], k);
    BytesOfTwo(Delete(seen, k), rs[i]);
  }

  /** remove_from_leaf; pos is just after the type byte. */
  method RemoveFromLeaf(m: nat, log: Bytes, key: Bytes, pos: nat, ghost rs: seq<Record>)
      returns (result: ModifyResult)
    requires LeafAt(log, pos, rs)
    ensures Holds(result, EditLeaf(m, rs, Remove(key)))
    ensures fresh(Footprint(result.aNode)) && result.aNode != null && result.bNode == null
  {
    hide At, RecordsBytes, RecordBytes, Enc32, FitsRecords, LeafAt, Delete, Has, Rope.Valid;
    LeafAtParts(log, pos, rs);
    var sz := Read32(log, pos);
    var start := pos + 4;
    var p := start;
    var data := new Rope.Empty();
    var aKey: Option<Bytes> := None;
    var removed := false;
    var i := 0;
    NoRecords(rs);
    RemoveStart(rs, key);
    while i < sz
      invariant 0 <= i <= sz == |rs|
      invariant data.Valid() && fresh(data.Repr) && data.Contents == RecordsBytes(Delete(rs[..i], key))
      invariant p == start + |RecordsBytes(rs[..i])|
      invariant removed == Has(rs[..i], key)
      invariant |Delete(rs[..i], key)| == i - if removed then 1 else 0
      invariant aKey == if Delete(rs[..i], key) == [] then None else Some(Delete(rs[..i], key)[0].key)
    {
      var rKey, rVal, next := ReadRecord(log, p, start, rs, i);
      p := next;
      RemoveStep(rs, i, key);
      if !removed {
        var eq := DataEq(rKey, key);
        if !eq {
          if aKey == None {
            aKey := Some(rKey);
          }
          var rec := MakeRecord(rKey, rVal);
          data.Merge(rec);
        } else {
          removed := true;
        }
      } else {
        if aKey == None {
          aKey := Some(rKey);
        }
        var rec := MakeRecord(rKey, rVal);
        data.Merge(rec);
      }
      i := i + 1;
    }
    assert rs[..i] == rs;
    var header := new Rope.Two([LEAF], Enc32(sz - if removed then 1 else 0));
    header.Merge(data);
    result := ModifyResult(header, aKey, null, None);
  }
}
