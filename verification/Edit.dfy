/** What one set or delete does to a tree, as a recursive function: the bytes laid out for the
    nodes that are rebuilt and what takes the place of the old root.  The loops of aodbm.c are
    proved against it; here it is proved to change the map and to keep the tree well formed. */
module Edit {
  import opened Bytes
  import opened Data
  import opened Format
  import opened Trees
  import opened Records

  /** The child in which k belongs: the last one before the first separator that exceeds k. */
  ghost function FindChild(es: seq<Entry>, k: Bytes, i: nat): (j: nat)
    requires i < |es|
    ensures i <= j < |es|
    ensures j == i || Le(es[j].key, k)
    ensures j + 1 < |es| ==> Rank(k) < Rank(es[j + 1].key)
    decreases |es| - i
  {
    if i + 1 == |es| || Rank(k) < Rank(es[i + 1].key) then i else FindChild(es, k, i + 1)
  }

  ghost function KeyAt(es: seq<Entry>, j: nat, lo: Bytes): Bytes
    requires j < |es|
  {
    if j == 0 then lo else es[j].key
  }

  /** A rebuilt node, which has no offset yet, with the key its parent will give it. */
  ghost function LeafPart(rs: seq<Record>): Entry {
    Entry(if rs == [] then [] else rs[0].key, Leaf(0, rs))
  }

  ghost function BranchPart(es: seq<Entry>): Entry {
    Entry(if es == [] then [] else es[0].key, Branch(0, WithFirst(es, [])))
  }

  /** k belongs before or at some record of a. */
  ghost predicate Covers(a: seq<Record>, k: Bytes) {
    exists i :: 0 <= i < |a| && Rank(k) <= Rank(a[i].key)
  }

  /** The leaves that replace a leaf: a full leaf is split before a record is put into it, an
      emptied one vanishes. */
  ghost function EditLeaf(m: nat, rs: seq<Record>, c: Change): seq<Entry> {
    match c
    case Modify(k, v) =>
      if |rs| < m then [LeafPart(Put(rs, k, v))]
      else
        var a, b := rs[..m / 2], rs[m / 2..];
        if Covers(a, k) then [LeafPart(Put(a, k, v)), LeafPart(b)]
        else [LeafPart(a), LeafPart(Put(b, k, v))]
    case Remove(k) =>
      var rest := Delete(rs, k);
      if rest == [] then [] else [LeafPart(rest)]
  }

  /** es with child j replaced. */
  ghost function Splice(es: seq<Entry>, j: nat, parts: seq<Entry>): (r: seq<Entry>)
    requires j < |es|
    ensures |r| == |es| - 1 + |parts|
  {
    es[..j] + parts + es[j + 1..]
  }

  /** The branches made of a list of children: two halves once there are m of them. */
  ghost function SplitParts(m: nat, es: seq<Entry>): seq<Entry> {
    if es == [] then []
    else if |es| < m then [BranchPart(es)]
    else [BranchPart(es[..m / 2]), BranchPart(es[m / 2..])]
  }

  /** The bytes of rebuilt nodes, one after the other. */
  ghost function PartsBytes(parts: seq<Entry>): Bytes {
    if parts == [] then [] else RootBytes(parts[0].kid) + PartsBytes(parts[1..])
  }

  /** Rebuilt nodes with the offsets they get when they are laid out from pos on. */
  ghost function Place(parts: seq<Entry>, pos: nat): (r: seq<Entry>)
    ensures |r| == |parts|
  {
    if parts == [] then []
    else [Entry(parts[0].key, parts[0].kid.(off := pos))] + Place(parts[1..], pos + |RootBytes(parts[0].kid)|)
  }

  datatype Edit = Edit(data: Bytes, parts: seq<Entry>)

  /** Makes change c in tree t, whose lower bound is lo: data are the bytes, to be written from pos
      on, of the nodes rebuilt below t's root; parts are the nodes that replace the root. */
  ghost function EditTree(m: nat, t: Tree, c: Change, lo: Bytes, pos: nat): Edit
    decreases t
  {
    match t
    case Leaf(_, rs) => Edit([], EditLeaf(m, rs, c))
    case Branch(_, es) =>
      if es == [] then Edit([], [])
      else
        var j := FindChild(es, c.key, 0);
        var below := EditTree(m, es[j].kid, c, KeyAt(es, j, lo), pos);
        EditBranch(m, es, j, lo, below, pos)
  }

  /** The step from the edit of child j to the edit of the branch. */
  ghost function EditBranch(m: nat, es: seq<Entry>, j: nat, lo: Bytes, below: Edit, pos: nat): Edit
    requires j < |es|
  {
    var placed := Place(below.parts, pos + |below.data|);
    Edit(below.data + PartsBytes(below.parts), SplitParts(m, Splice(WithFirst(es, lo), j, placed)))
  }

  lemma EditTreeLeaf(m: nat, t: Tree, c: Change, lo: Bytes, pos: nat)
    requires t.Leaf?
    ensures EditTree(m, t, c, lo, pos) == Edit([], EditLeaf(m, t.recs, c))
  {
  }

  lemma EditTreeBranch(m: nat, t: Tree, c: Change, lo: Bytes, pos: nat)
    requires t.Branch? && t.es != []
    ensures var j := FindChild(t.es, c.key, 0);
      var below := EditTree(m, t.es[j].kid, c, KeyAt(t.es, j, lo), pos);
      var placed := Place(below.parts, pos + |below.data|);
      EditTree(m, t, c, lo, pos) ==
        Edit(below.data + PartsBytes(below.parts), SplitParts(m, Splice(WithFirst(t.es, lo), j, placed)))
  {
    hide EditLeaf, PartsBytes, Place, SplitParts, Splice, RootBytes, Rank, FindChild, KeyAt, WithFirst;
  }

  // ----- The contents and the shape

  /** parts are at most two trees of height h that can stand where a tree with the bounds lo and hi
      stood, and hold the records rs. */
  ghost predicate Replaces(m: nat, parts: seq<Entry>, lo: Bytes, hi: Option<Bytes>, h: nat, rs: seq<Record>) {
    && |parts| <= 2
    && (parts != [] ==> Le(lo, parts[0].key))
    && Chain(m, parts, hi, h)
    && FlatEntries(parts) == rs
  }

  lemma OneLeaf(m: nat, rs: seq<Record>, lo: Bytes, hi: Option<Bytes>)
    requires SortedIn(rs, lo, hi) && 1 <= |rs| <= m
    ensures Replaces(m, [LeafPart(rs)], lo, hi, 0, rs)
  {
    hide Rank;
    assert Le(lo, rs[0].key);
    assert forall i :: 0 < i < |rs| ==> Rank(rs[0].key) < Rank(rs[i].key);
    assert SortedIn(rs, rs[0].key, hi);
    FlatEntriesOne(LeafPart(rs));
  }

  lemma TwoLeaves(m: nat, a: seq<Record>, b: seq<Record>, lo: Bytes, hi: Option<Bytes>)
    requires SortedIn(a + b, lo, hi) && 1 <= |a| <= m && 1 <= |b| <= m
    ensures Replaces(m, [LeafPart(a), LeafPart(b)], lo, hi, 0, a + b)
  {
    hide Rank, Chain;
    var ab := a + b;
    assert forall i :: 0 <= i < |a| ==> ab[i] == a[i];
    assert forall i :: 0 <= i < |b| ==> ab[|a| + i] == b[i];
    assert SortedIn(a, lo, Some(b[0].key));
    assert SortedIn(b, b[0].key, hi);
    OneLeaf(m, a, lo, Some(b[0].key));
    OneLeaf(m, b, b[0].key, hi);
    ChainAppend(m, [LeafPart(a)], [LeafPart(b)], hi, 0);
    FlatEntriesAppend([LeafPart(a)], [LeafPart(b)]);
    assert [LeafPart(a)] + [LeafPart(b)] == [LeafPart(a), LeafPart(b)];
  }

  lemma ChainAppend(m: nat, a: seq<Entry>, b: seq<Entry>, hi: Option<Bytes>, h: nat)
    requires b != [] && Chain(m, a, Some(b[0].key), h) && Chain(m, b, hi, h)
    ensures Chain(m, a + b, hi, h)
  {
    hide WF;
    var ab := a + b;
    forall i | 0 <= i < |ab|
      ensures WF(m, ab[i].kid, ab[i].key, HiAt(ab, i, hi), h)
    {
      if i < |a| {
        assert WF(m, a[i].kid, a[i].key, HiAt(a, i, Some(b[0].key)), h);
      } else {
        assert WF(m, b[i - |a|].kid, b[i - |a|].key, HiAt(b, i - |a|, hi), h);
      }
    }
  }

  lemma ChainOne(m: nat, e: Entry, hi: Option<Bytes>, h: nat)
    requires WF(m, e.kid, e.key, hi, h)
    ensures Chain(m, [e], hi, h)
  {
    hide WF;
  }

  lemma ChainLoosen(m: nat, es: seq<Entry>, hi: Option<Bytes>, hi': Option<Bytes>, h: nat)
    requires Chain(m, es, hi, h) && LooserHi(hi, hi')
    ensures Chain(m, es, hi', h)
  {
    hide WF;
    forall i | 0 <= i < |es|
      ensures WF(m, es[i].kid, es[i].key, HiAt(es, i, hi'), h)
    {
      Loosen(m, es[i].kid, es[i].key, HiAt(es, i, hi), es[i].key, HiAt(es, i, hi'), h);
    }
  }

  lemma EditLeafShape(m: nat, rs: seq<Record>, c: Change, lo: Bytes, hi: Option<Bytes>)
    requires m >= 4 && m % 2 == 0 && |rs| <= m && SortedIn(rs, lo, hi)
    requires Le(lo, c.key) && Below(c.key, hi)
    ensures Replaces(m, EditLeaf(m, rs, c), lo, hi, 0, Apply(rs, c)) && |EditLeaf(m, rs, c)| <= 2
    ensures c.Remove? ==> |EditLeaf(m, rs, c)| <= 1
    ensures c.Modify? ==> EditLeaf(m, rs, c) != []
  {
    hide Rank, Replaces;
    match c
    case Remove(k) =>
      DeleteSorted(rs, k, lo, hi);
      if Delete(rs, k) == [] {
        NoParts(m, lo, hi, 0);
      } else {
        OneLeaf(m, Delete(rs, k), lo, hi);
      }
    case Modify(k, v) =>
      PutSorted(rs, k, v, lo, hi);
      if |rs| < m {
        OneLeaf(m, Put(rs, k, v), lo, hi);
      } else {
        SplitLeafShape(m, rs, k, v, lo, hi);
      }
  }

  lemma NoParts(m: nat, lo: Bytes, hi: Option<Bytes>, h: nat)
    ensures Replaces(m, [], lo, hi, h, [])
  {
  }

  lemma SortedSplit(rs: seq<Record>, n: nat, lo: Bytes, hi: Option<Bytes>)
    requires SortedIn(rs, lo, hi) && n <= |rs|
    ensures SortedIn(rs[..n], lo, hi) && SortedIn(rs[n..], lo, hi) && rs[..n] + rs[n..] == rs
  {
    hide Rank;
    assert forall i :: 0 <= i < |rs| - n ==> rs[n..][i] == rs[n + i];
  }

  lemma CoversAbove(a: seq<Record>, b: seq<Record>, k: Bytes)
    requires Increasing(a + b)
    ensures if Covers(a, k) then AllAbove(b, k) else AllBelow(a, k)
  {
    hide Rank;
    var ab := a + b;
    if i :| 0 <= i < |a| && Rank(k) <= Rank(a[i].key) {
      assert forall n :: 0 <= n < |b| ==> Rank(ab[i].key) < Rank(ab[|a| + n].key) && b[n] == ab[|a| + n];
    }
  }

  lemma SplitLeafShape(m: nat, rs: seq<Record>, k: Bytes, v: Bytes, lo: Bytes, hi: Option<Bytes>)
    requires m >= 4 && m % 2 == 0 && |rs| == m && SortedIn(rs, lo, hi) && SortedIn(Put(rs, k, v), lo, hi)
    requires Le(lo, k) && Below(k, hi)
    ensures Replaces(m, EditLeaf(m, rs, Modify(k, v)), lo, hi, 0, Put(rs, k, v))
  {
    hide Rank, Replaces, Put, Covers, Increasing, AllAbove, AllBelow;
    var a, b := rs[..m / 2], rs[m / 2..];
    SortedSplit(rs, m / 2, lo, hi);
    CoversAbove(a, b, k);
    if Covers(a, k) {
      ApplyBefore(a, b, Modify(k, v));
      PutSorted(a, k, v, lo, hi);
      TwoLeaves(m, Put(a, k, v), b, lo, hi);
    } else {
      ApplyAfter(a, b, Modify(k, v));
      PutSorted(b, k, v, lo, hi);
      TwoLeaves(m, a, Put(b, k, v), lo, hi);
    }
  }

  lemma FlatSplice(es: seq<Entry>, j: nat, parts: seq<Entry>)
    requires j < |es|
    ensures FlatEntries(Splice(es, j, parts)) == FlatEntries(es[..j]) + FlatEntries(parts) + FlatEntries(es[j + 1..])
  {
    hide FlatEntries;
    FlatEntriesAppend(es[..j] + parts, es[j + 1..]);
    FlatEntriesAppend(es[..j], parts);
  }

  /** What comes from the replaced child on. */
  lemma SpliceRest(m: nat, es: seq<Entry>, j: nat, parts: seq<Entry>, hi: Option<Bytes>, h: nat)
    requires Chain(m, es, hi, h) && j < |es| && Chain(m, parts, HiAt(es, j, hi), h)
    requires parts != [] ==> Le(es[j].key, parts[0].key)
    ensures var rest := parts + es[j + 1..];
      Chain(m, rest, hi, h) && (rest != [] ==> Le(es[j].key, rest[0].key))
  {
    hide Rank, WF, Chain;
    var after := es[j + 1..];
    if after == [] {
      assert parts + after == parts;
    } else {
      ChainSplit(m, es, j + 1, hi, h);
      KeysIncrease(m, es, hi, h, j, j + 1);
      if parts == [] {
        assert parts + after == after;
      } else {
        ChainAppend(m, parts, after, hi, h);
      }
    }
  }

  ghost predicate IsLeafPart(e: Entry) {
    e.kid.Leaf? && e.kid.recs != [] && e.key == e.kid.recs[0].key
  }

  /** A set splits a leaf exactly when it is full, into its two halves of m / 2 records; the record goes
      into the first half unless its key lies behind all of it.  A leaf's key is its first record's. */
  lemma LeafSplits(m: nat, rs: seq<Record>, c: Change)
    requires m >= 4 && m % 2 == 0 && |rs| <= m && Increasing(rs)
    ensures var parts := EditLeaf(m, rs, c);
      && (|parts| == 2 <==> c.Modify? && |rs| == m)
      && (forall i :: 0 <= i < |parts| ==> IsLeafPart(parts[i]))
    ensures c.Modify? && |rs| == m ==>
      var half, parts := m / 2, EditLeaf(m, rs, c);
      var a, b := parts[0].kid.recs, parts[1].kid.recs;
      if Rank(rs[half - 1].key) < Rank(c.key) then a == rs[..half] && b == Put(rs[half..], c.key, c.val)
      else a == Put(rs[..half], c.key, c.val) && b == rs[half..]
  {
    hide Rank, Put, Delete, Covers, Increasing;
    match c
    case Remove(k) =>
    case Modify(k, v) =>
      PutSome(rs, k, v);
      if |rs| == m {
        PutSome(rs[..m / 2], k, v);
        PutSome(rs[m / 2..], k, v);
        CoversLast(rs[..m / 2], k) by {
          FirstHalf(rs, m / 2);
        }
        assert rs[..m / 2][m / 2 - 1] == rs[m / 2 - 1];
      }
  }

  lemma PutSome(rs: seq<Record>, k: Bytes, v: Bytes)
    ensures Put(rs, k, v) != []
  {
    hide Rank;
  }

  lemma FirstHalf(rs: seq<Record>, n: nat)
    requires Increasing(rs) && n <= |rs|
    ensures Increasing(rs[..n])
  {
    hide Rank;
  }

  lemma CoversLast(rs: seq<Record>, k: Bytes)
    requires Increasing(rs) && rs != []
    ensures Covers(rs, k) <==> Rank(k) <= Rank(rs[|rs| - 1].key)
  {
    hide Rank;
    var n := |rs| - 1;
    assert forall i :: 0 <= i < n ==> Rank(rs[i].key) < Rank(rs[n].key);
  }

  /** A branch is split exactly when it would have m children, and its first half has m / 2 of them. */
  lemma BranchSplits(m: nat, es: seq<Entry>)
    requires m >= 4 && m % 2 == 0
    ensures var parts := SplitParts(m, es);
      && (|parts| == 2 <==> |es| >= m) && (parts == [] <==> es == [])
      && (forall i :: 0 <= i < |parts| ==> parts[i].kid.Branch?)
    ensures |es| >= m ==>
      var parts := SplitParts(m, es);
      && |parts[0].kid.es| == m / 2 && |parts[1].kid.es| == |es| - m / 2
      && parts[0].key == es[0].key && parts[1].key == es[m / 2].key
  {
  }

  /** Replacing one child of a chain changes the contents of that child only, and keeps the order. */
  lemma SpliceShape(m: nat, es: seq<Entry>, j: nat, parts: seq<Entry>, hi: Option<Bytes>, h: nat, rs: seq<Record>)
    requires Chain(m, es, hi, h) && j < |es|
    requires Replaces(m, parts, es[j].key, HiAt(es, j, hi), h, rs)
    ensures var l := Splice(es, j, parts);
      && Chain(m, l, hi, h)
      && (l != [] ==> Le(es[0].key, l[0].key))
      && FlatEntries(l) == FlatEntries(es[..j]) + rs + FlatEntries(es[j + 1..])
  {
    hide Rank, WF, Chain, FlatEntries;
    var before, rest := es[..j], parts + es[j + 1..];
    SpliceRest(m, es, j, parts, hi, h);
    ChainSplit(m, es, j, hi, h);
    KeysIncrease(m, es, hi, h, 0, j);
    KeysIncrease(m, es, hi, h, j, j);
    SpliceSplit(es, j, parts);
    if rest == [] {
      assert before + rest == before;
      ChainLoosen(m, before, Some(es[j].key), hi, h);
    } else {
      ChainLoosen(m, before, Some(es[j].key), Some(rest[0].key), h);
      ChainAppend(m, before, rest, hi, h);
    }
    FlatSplice(es, j, parts);
  }

  lemma SpliceSplit(es: seq<Entry>, j: nat, parts: seq<Entry>)
    requires j < |es|
    ensures Splice(es, j, parts) == es[..j] + (parts + es[j + 1..])
  {
  }

  lemma SortedBelow(rs: seq<Record>, lo: Bytes, hi: Bytes, k: Bytes)
    requires SortedIn(rs, lo, Some(hi)) && Le(hi, k)
    ensures AllBelow(rs, k)
  {
    hide Rank;
  }

  lemma SortedAbove(rs: seq<Record>, lo: Bytes, hi: Option<Bytes>, k: Bytes)
    requires SortedIn(rs, lo, hi) && Rank(k) < Rank(lo)
    ensures AllAbove(rs, k)
  {
    hide Rank;
  }

  lemma BeforeBelow(m: nat, es: seq<Entry>, j: nat, k: Bytes, hi: Option<Bytes>, h: nat)
    requires Chain(m, es, hi, h) && j < |es| && Le(es[j].key, k)
    ensures AllBelow(FlatEntries(es[..j]), k)
  {
    hide Rank, WF, Chain, SortedIn;
    ChainSplit(m, es, j, hi, h);
    if es[..j] != [] {
      FlatEntriesSorted(m, es[..j], Some(es[j].key), h);
      SortedBelow(FlatEntries(es[..j]), es[..j][0].key, es[j].key, k);
    }
  }

  lemma AfterAbove(m: nat, es: seq<Entry>, j: nat, k: Bytes, hi: Option<Bytes>, h: nat)
    requires Chain(m, es, hi, h) && j < |es| && Below(k, HiAt(es, j, hi))
    ensures AllAbove(FlatEntries(es[j + 1..]), k)
  {
    hide Rank, WF, Chain, SortedIn;
    if es[j + 1..] != [] {
      ChainSplit(m, es, j + 1, hi, h);
      FlatEntriesSorted(m, es[j + 1..], hi, h);
      SortedAbove(FlatEntries(es[j + 1..]), es[j + 1].key, hi, k);
    }
  }

  lemma AroundChild(es: seq<Entry>, j: nat)
    requires j < |es|
    ensures es[..j + 1] == es[..j] + [es[j]] && es == es[..j + 1] + es[j + 1..]
  {
  }

  lemma FlatAround(es: seq<Entry>, j: nat)
    requires j < |es|
    ensures FlatEntries(es) == FlatEntries(es[..j]) + Flat(es[j].kid) + FlatEntries(es[j + 1..])
  {
    hide Flat, FlatEntries;
    AroundChild(es, j);
    FlatEntriesAppend(es[..j + 1], es[j + 1..]);
    FlatEntriesAppend(es[..j], [es[j]]);
    FlatEntriesOne(es[j]);
  }

  /** What lies before and after the child where k belongs. */
  lemma Around(m: nat, es: seq<Entry>, j: nat, k: Bytes, hi: Option<Bytes>, h: nat)
    requires Chain(m, es, hi, h) && j < |es|
    requires Le(es[j].key, k) && Below(k, HiAt(es, j, hi))
    ensures FlatEntries(es) == FlatEntries(es[..j]) + Flat(es[j].kid) + FlatEntries(es[j + 1..])
    ensures AllBelow(FlatEntries(es[..j]), k) && AllAbove(FlatEntries(es[j + 1..]), k)
  {
    hide Rank, WF, Chain, AllBelow, AllAbove, Flat, FlatEntries;
    BeforeBelow(m, es, j, k, hi, h);
    AfterAbove(m, es, j, k, hi, h);
    FlatAround(es, j);
  }

  /** A change below the child where its key belongs is the change of the whole branch. */
  lemma ChangeBelow(m: nat, es: seq<Entry>, j: nat, c: Change, hi: Option<Bytes>, h: nat)
    requires Chain(m, es, hi, h) && j < |es|
    requires Le(es[j].key, c.key) && Below(c.key, HiAt(es, j, hi))
    ensures Apply(FlatEntries(es), c) == FlatEntries(es[..j]) + Apply(Flat(es[j].kid), c) + FlatEntries(es[j + 1..])
  {
    hide Rank, WF, Chain, Apply;
    Around(m, es, j, c.key, hi, h);
    ApplyLocal(FlatEntries(es[..j]), Flat(es[j].kid), FlatEntries(es[j + 1..]), c);
  }

  lemma BranchPartShape(m: nat, es: seq<Entry>, hi: Option<Bytes>, h: nat)
    requires 1 <= |es| < m && Chain(m, es, hi, h)
    ensures Replaces(m, [BranchPart(es)], es[0].key, hi, h + 1, FlatEntries(es))
  {
    hide Rank;
    var now, part := WithFirst(es, []), BranchPart(es);
    assert WithFirst(now, es[0].key) == es;
    assert WF(m, part.kid, es[0].key, hi, h + 1);
    assert Flat(part.kid) == FlatEntries(es) by {
      assert now[1..] == es[1..];
    }
    FlatEntriesOne(part);
    ChainOne(m, part, hi, h + 1);
  }

  lemma SplitPartsShape(m: nat, es: seq<Entry>, lo: Bytes, hi: Option<Bytes>, h: nat)
    requires m >= 4 && m % 2 == 0 && |es| <= m && Chain(m, es, hi, h)
    requires es != [] ==> Le(lo, es[0].key)
    ensures Replaces(m, SplitParts(m, es), lo, hi, h + 1, FlatEntries(es))
  {
    hide Rank, WF, Chain;
    if es == [] {
      NoParts(m, lo, hi, h + 1);
    } else if |es| < m {
      BranchPartShape(m, es, hi, h);
    } else {
      var a, b := es[..m / 2], es[m / 2..];
      ChainSplit(m, es, m / 2, hi, h);
      BranchPartShape(m, a, Some(b[0].key), h);
      BranchPartShape(m, b, hi, h);
      ChainAppend(m, [BranchPart(a)], [BranchPart(b)], hi, h + 1);
      FlatEntriesAppend([BranchPart(a)], [BranchPart(b)]);
      FlatEntriesAppend(a, b);
      assert es == a + b;
      assert [BranchPart(a)] + [BranchPart(b)] == [BranchPart(a), BranchPart(b)];
    }
  }

  /** Placing a node changes its offset only. */
  lemma {:induction false} PlaceAt(parts: seq<Entry>, pos: nat, i: nat)
    requires i < |parts|
    ensures var e := Place(parts, pos)[i]; e.key == parts[i].key && e.kid == parts[i].kid.(off := e.kid.off)
    decreases i
  {
    hide RootBytes;
    if i > 0 {
      var next := pos + |RootBytes(parts[0].kid)|;
      assert Place(parts, pos)[i] == Place(parts[1..], next)[i - 1];
      PlaceAt(parts[1..], next, i - 1);
    }
  }

  /** Where a node is written changes neither its shape nor its contents. */
  lemma Moved(m: nat, t: Tree, off: nat, lo: Bytes, hi: Option<Bytes>, h: nat)
    ensures WF(m, t.(off := off), lo, hi, h) <==> WF(m, t, lo, hi, h)
    ensures Flat(t.(off := off)) == Flat(t)
  {
    hide Rank, Chain, FlatEntries;
  }

  lemma PlaceShape(m: nat, parts: seq<Entry>, pos: nat, hi: Option<Bytes>, h: nat)
    ensures Chain(m, Place(parts, pos), hi, h) <==> Chain(m, parts, hi, h)
    ensures FlatEntries(Place(parts, pos)) == FlatEntries(parts)
    ensures parts != [] ==> Place(parts, pos)[0].key == parts[0].key
  {
    hide WF;
    var p := Place(parts, pos);
    forall i | 0 <= i < |parts|
      ensures HiAt(p, i, hi) == HiAt(parts, i, hi)
      ensures WF(m, p[i].kid, p[i].key, HiAt(p, i, hi), h) <==> WF(m, parts[i].kid, parts[i].key, HiAt(parts, i, hi), h)
    {
      PlaceAt(parts, pos, i);
      if i + 1 < |parts| {
        PlaceAt(parts, pos, i + 1);
      }
      Moved(m, parts[i].kid, p[i].kid.off, parts[i].key, HiAt(parts, i, hi), h);
    }
    PlaceFlat(parts, pos);
  }

  lemma {:induction false} PlaceFlat(parts: seq<Entry>, pos: nat)
    ensures FlatEntries(Place(parts, pos)) == FlatEntries(parts)
  {
    hide RootBytes;
    if parts != [] {
      var next := pos + |RootBytes(parts[0].kid)|;
      PlaceFlat(parts[1..], next);
      assert Place(parts, pos)[1..] == Place(parts[1..], next);
      assert Flat(Place(parts, pos)[0].kid) == Flat(parts[0].kid);
    }
  }

  /** The key k that belongs in a branch belongs in the child that FindChild gives. */
  lemma KidShape(m: nat, t: Tree, lo: Bytes, hi: Option<Bytes>, h: nat, k: Bytes) returns (j: nat, hi': Option<Bytes>)
    requires WF(m, t, lo, hi, h) && t.Branch? && Le(lo, k) && Below(k, hi)
    ensures h > 0 && 1 <= |t.es| < m && j == FindChild(t.es, k, 0) && hi' == HiAt(WithFirst(t.es, lo), j, hi)
    ensures WithFirst(t.es, lo)[j] == Entry(KeyAt(t.es, j, lo), t.es[j].kid)
    ensures WF(m, t.es[j].kid, KeyAt(t.es, j, lo), hi', h - 1)
    ensures Le(KeyAt(t.es, j, lo), k) && Below(k, hi')
  {
    hide Rank;
    j := FindChild(t.es, k, 0);
    var all := WithFirst(t.es, lo);
    hi' := HiAt(all, j, hi);
    assert WF(m, all[j].kid, all[j].key, hi', h - 1);
  }

  /** The edit of a well-formed tree makes exactly the change c in its records, keeps it well formed
      and of the same height, and gives two nodes at most, and one at most for a removal. */
  lemma {:induction false} EditShape(m: nat, t: Tree, c: Change, lo: Bytes, hi: Option<Bytes>, h: nat, pos: nat)
    requires m >= 4 && m % 2 == 0 && WF(m, t, lo, hi, h)
    requires Le(lo, c.key) && Below(c.key, hi)
    ensures var parts := EditTree(m, t, c, lo, pos).parts;
      && Replaces(m, parts, lo, hi, h, Apply(Flat(t), c))
      && |parts| <= 2
      && (c.Remove? ==> |parts| <= 1)
      && (c.Modify? ==> parts != [])
    decreases h
  {
    hide Rank, Replaces;
    match t
    case Leaf(_, rs) =>
      EditLeafShape(m, rs, c, lo, hi);
    case Branch(_, es) =>
      var j, hi' := KidShape(m, t, lo, hi, h, c.key);
      var below := EditTree(m, es[j].kid, c, KeyAt(es, j, lo), pos);
      EditShape(m, es[j].kid, c, KeyAt(es, j, lo), hi', h - 1, pos);
      EditBranchShape(m, es, j, c, lo, hi, h - 1, below, pos);
      assert WithFirst(es, lo)[1..] == es[1..];
  }

  lemma EditBranchShape(
      m: nat, es: seq<Entry>, j: nat, c: Change, lo: Bytes, hi: Option<Bytes>, h: nat, below: Edit, pos: nat)
    requires m >= 4 && m % 2 == 0 && 1 <= |es| < m && j < |es| && Chain(m, WithFirst(es, lo), hi, h)
    requires var all := WithFirst(es, lo);
      && Le(all[j].key, c.key) && Below(c.key, HiAt(all, j, hi))
      && Replaces(m, below.parts, all[j].key, HiAt(all, j, hi), h, Apply(Flat(es[j].kid), c))
    requires c.Remove? ==> |below.parts| <= 1
    requires c.Modify? ==> below.parts != []
    ensures var parts := EditBranch(m, es, j, lo, below, pos).parts;
      && Replaces(m, parts, lo, hi, h + 1, Apply(FlatEntries(WithFirst(es, lo)), c))
      && |parts| <= 2
      && (c.Remove? ==> |parts| <= 1)
      && (c.Modify? ==> parts != [])
  {
    hide Rank, WF, Chain, Place, PartsBytes, Apply, Flat;
    var all := WithFirst(es, lo);
    var placed := Place(below.parts, pos + |below.data|);
    PlaceShape(m, below.parts, pos + |below.data|, HiAt(all, j, hi), h);
    SpliceShape(m, all, j, placed, hi, h, Apply(Flat(es[j].kid), c));
    ChangeBelow(m, all, j, c, hi, h);
    SplitPartsShape(m, Splice(all, j, placed), lo, hi, h);
  }
}
