/** The B+ tree: its shape and order, where it is stored, and how it is read back from a file. */
module Trees {
  import opened Bytes
  import opened Data
  import opened Format

  /** A subtree together with the lower bound of its keys.  The first child of a branch has no key
      of its own; its key is represented by the empty key. */
  datatype Entry = Entry(key: Bytes, kid: Tree)

  /** off is the offset in the file of the node's first byte. */
  datatype Tree = Leaf(off: nat, recs: seq<Record>) | Branch(off: nat, es: seq<Entry>)

  // ----- Contents

  /** The records of a tree from left to right. */
  ghost function Flat(t: Tree): seq<Record>
    decreases t
  {
    match t
    case Leaf(_, recs) => recs
    case Branch(_, es) => FlatEntries(es)
  }

  ghost function FlatEntries(es: seq<Entry>): seq<Record>
    decreases es
  {
    if es == [] then [] else Flat(es[0].kid) + FlatEntries(es[1..])
  }

  lemma {:induction false} FlatEntriesAppend(a: seq<Entry>, b: seq<Entry>)
    ensures FlatEntries(a + b) == FlatEntries(a) + FlatEntries(b)
  {
    if a == [] {
      assert a + b == b;
    } else {
      assert (a + b)[1..] == a[1..] + b;
      FlatEntriesAppend(a[1..], b);
    }
  }

  lemma FlatEntriesOne(e: Entry)
    ensures FlatEntries([e]) == Flat(e.kid)
  {
    assert FlatEntries([e]) == Flat(e.kid) + [];
  }

  // ----- Order and shape

  ghost predicate Below(k: Bytes, hi: Option<Bytes>) {
    hi.Some? ==> Rank(k) < Rank(hi.value)
  }

  ghost predicate Increasing(rs: seq<Record>) {
    forall i, j :: 0 <= i < j < |rs| ==> Rank(rs[i].key) < Rank(rs[j].key)
  }

  /** Increasing is the documented order. */
  lemma IncreasingIsOrdered(rs: seq<Record>)
    ensures Increasing(rs) <==> forall i, j :: 0 <= i < j < |rs| ==> Lt(rs[i].key, rs[j].key)
  {
    hide Rank, Lt;
    forall i, j | 0 <= i < j < |rs|
      ensures Lt(rs[i].key, rs[j].key) <==> Rank(rs[i].key) < Rank(rs[j].key)
    {
      LtIsRankOrder(rs[i].key, rs[j].key);
    }
  }

  /** The records are in increasing order of key, and their keys lie in [lo, hi). */
  ghost predicate SortedIn(rs: seq<Record>, lo: Bytes, hi: Option<Bytes>) {
    Increasing(rs) && forall i :: 0 <= i < |rs| ==> Le(lo, rs[i].key) && Below(rs[i].key, hi)
  }

  /** es with the key of its first child replaced. */
  function WithFirst(es: seq<Entry>, key: Bytes): (r: seq<Entry>)
    ensures |r| == |es|
  {
    if es == [] then [] else [Entry(key, es[0].kid)] + es[1..]
  }

  ghost function HiAt(es: seq<Entry>, i: nat, hi: Option<Bytes>): Option<Bytes> {
    if i + 1 < |es| then Some(es[i + 1].key) else hi
  }

  /** t is a B+ tree of height h for nodes of at most m records, with its keys in [lo, hi):
      all leaves are at depth h, no leaf is empty, and a branch has 1 to m - 1 children. */
  ghost predicate WF(m: nat, t: Tree, lo: Bytes, hi: Option<Bytes>, h: nat)
    decreases h, 0
  {
    match t
    case Leaf(_, recs) => h == 0 && 1 <= |recs| <= m && SortedIn(recs, lo, hi)
    case Branch(_, es) => h > 0 && 1 <= |es| < m && es[0].key == [] && Chain(m, WithFirst(es, lo), hi, h - 1)
  }

  /** Each subtree has its keys between its own key and the next. */
  ghost predicate Chain(m: nat, es: seq<Entry>, hi: Option<Bytes>, h: nat)
    decreases h, 1
  {
    forall i :: 0 <= i < |es| ==> WF(m, es[i].kid, es[i].key, HiAt(es, i, hi), h)
  }

  /** What the root of a version is: a tree over all keys, or an empty leaf. */
  ghost predicate RootWF(m: nat, t: Tree, h: nat) {
    (t.Leaf? && t.recs == [] && h == 0) || WF(m, t, [], None, h)
  }

  lemma BranchShape(m: nat, t: Tree, lo: Bytes, hi: Option<Bytes>, h: nat)
    requires WF(m, t, lo, hi, h) && t.Branch?
    ensures h > 0 && 1 <= |t.es| < m && Chain(m, WithFirst(t.es, lo), hi, h - 1)
  {
  }

  lemma LeAppend(a: seq<Record>, b: seq<Record>, lo: Bytes, mid: Bytes, hi: Option<Bytes>)
    requires SortedIn(a, lo, Some(mid)) && SortedIn(b, mid, hi) && a != []
    requires b != [] || hi.None? || Rank(mid) < Rank(hi.value)
    ensures SortedIn(a + b, lo, hi)
  {
    var ab := a + b;
    assert Le(lo, a[0].key) && Below(a[0].key, Some(mid));
    if b != [] {
      assert Le(mid, b[0].key) && Below(b[0].key, hi);
    }
    forall i | 0 <= i < |ab|
      ensures Le(lo, ab[i].key) && Below(ab[i].key, hi)
    {
      if i < |a| {
        assert ab[i] == a[i];
      } else {
        assert ab[i] == b[i - |a|];
      }
    }
    forall i, j | 0 <= i < j < |ab|
      ensures Rank(ab[i].key) < Rank(ab[j].key)
    {
      if j < |a| {
        assert ab[i] == a[i] && ab[j] == a[j];
      } else if i < |a| {
        assert ab[i] == a[i] && ab[j] == b[j - |a|];
      } else {
        assert ab[i] == b[i - |a|] && ab[j] == b[j - |a|];
      }
    }
  }

  /** The records of a well-formed tree are in increasing order, within its bounds, and not empty. */
  lemma {:induction false} FlatSorted(m: nat, t: Tree, lo: Bytes, hi: Option<Bytes>, h: nat)
    requires WF(m, t, lo, hi, h)
    ensures SortedIn(Flat(t), lo, hi) && Flat(t) != []
    decreases h, 0
  {
    match t
    case Leaf(_, _) =>
    case Branch(_, es) =>
      FlatEntriesSorted(m, WithFirst(es, lo), hi, h - 1);
      assert WithFirst(es, lo)[1..] == es[1..];
  }

  lemma {:induction false} FlatEntriesSorted(m: nat, es: seq<Entry>, hi: Option<Bytes>, h: nat)
    requires Chain(m, es, hi, h) && es != []
    ensures SortedIn(FlatEntries(es), es[0].key, hi) && FlatEntries(es) != []
    decreases h, 1, |es|
  {
    FlatSorted(m, es[0].kid, es[0].key, HiAt(es, 0, hi), h);
    if |es| == 1 {
      FlatEntriesOne(es[0]);
      assert es == [es[0]];
    } else {
      ChainSplit(m, es, 1, hi, h);
      FlatEntriesSorted(m, es[1..], hi, h);
      LeAppend(Flat(es[0].kid), FlatEntries(es[1..]), es[0].key, es[1].key, hi);
    }
  }

  lemma ChainSplit(m: nat, es: seq<Entry>, n: nat, hi: Option<Bytes>, h: nat)
    requires Chain(m, es, hi, h) && n < |es|
    ensures Chain(m, es[..n], Some(es[n].key), h) && Chain(m, es[n..], hi, h)
  {
    forall i | 0 <= i < n
      ensures WF(m, es[..n][i].kid, es[..n][i].key, HiAt(es[..n], i, Some(es[n].key)), h)
    {
      assert WF(m, es[i].kid, es[i].key, HiAt(es, i, hi), h);
    }
    forall i | 0 <= i < |es| - n
      ensures WF(m, es[n..][i].kid, es[n..][i].key, HiAt(es[n..], i, hi), h)
    {
      assert WF(m, es[n + i].kid, es[n + i].key, HiAt(es, n + i, hi), h);
    }
  }

  ghost predicate LooserHi(hi: Option<Bytes>, hi': Option<Bytes>) {
    hi'.Some? ==> hi.Some? && Le(hi.value, hi'.value)
  }

  /** A tree stays well formed when its bounds are loosened. */
  lemma {:induction false} Loosen(m: nat, t: Tree, lo: Bytes, hi: Option<Bytes>, lo': Bytes, hi': Option<Bytes>, h: nat)
    requires WF(m, t, lo, hi, h) && Le(lo', lo) && LooserHi(hi, hi')
    ensures WF(m, t, lo', hi', h)
    decreases h
  {
    hide Rank;
    match t
    case Leaf(_, recs) =>
    case Branch(_, es) =>
      var was, now := WithFirst(es, lo), WithFirst(es, lo');
      forall i | 0 <= i < |es|
        ensures WF(m, now[i].kid, now[i].key, HiAt(now, i, hi'), h - 1)
      {
        assert WF(m, was[i].kid, was[i].key, HiAt(was, i, hi), h - 1);
        Loosen(m, was[i].kid, was[i].key, HiAt(was, i, hi), now[i].key, HiAt(now, i, hi'), h - 1);
      }
  }

  // ----- Storage

  function Slots(es: seq<Entry>): (ss: seq<Slot>)
    ensures |ss| == |es|
  {
    seq(|es|, i requires 0 <= i < |es| => Slot(es[i].key, es[i].kid.off))
  }

  function NodeOf(t: Tree): Node {
    match t
    case Leaf(_, recs) => LeafNode(recs)
    case Branch(_, es) => BranchNode(Slots(es))
  }

  /** The bytes of t's root node.  They do not depend on where the node itself is. */
  function RootBytes(t: Tree): Bytes {
    NodeBytes(NodeOf(t))
  }

  /** Every node of t is written in log at its offset, after all the nodes below it. Offset 0 is
      what the code uses for "no node". */
  ghost predicate Stored(log: Bytes, t: Tree)
    decreases t
  {
    && 0 < t.off && FitsNode(NodeOf(t)) && At(log, t.off, RootBytes(t))
    && (t.Branch? ==> forall i :: 0 <= i < |t.es| ==> t.es[i].kid.off < t.off && Stored(log, t.es[i].kid))
  }

  lemma StoredBranch(log: Bytes, t: Tree)
    requires Stored(log, t) && t.Branch?
    ensures t.es != [] && FitsNode(BranchNode(Slots(t.es))) && At(log, t.off, BranchBytes(Slots(t.es)))
    ensures forall i :: 0 <= i < |t.es| ==> Stored(log, t.es[i].kid) && t.es[i].kid.off < t.off
  {
    hide BranchBytes;
  }

  /** Reads the tree at an offset of an arbitrary file; None unless every node read is a node and
      lies before the nodes that point to it. */
  ghost function Decode(log: Bytes, off: nat): Option<Tree>
    decreases off, 1, 0
  {
    if off == 0 then None
    else
      match ParseNode(log, off)
      case None => None
      case Some(LeafNode(recs)) => Some(Leaf(off, recs))
      case Some(BranchNode(slots)) =>
        match DecodeKids(log, slots, off)
        case None => None
        case Some(es) => Some(Branch(off, es))
  }

  ghost function DecodeKids(log: Bytes, ss: seq<Slot>, off: nat): Option<seq<Entry>>
    decreases off, 0, |ss|
  {
    if ss == [] then Some([])
    else if ss[0].off >= off then None
    else
      match (Decode(log, ss[0].off), DecodeKids(log, ss[1..], off))
      case (Some(kid), Some(rest)) => Some([Entry(ss[0].key, kid)] + rest)
      case (_, _) => None
  }

  lemma {:induction false} DecodeComplete(log: Bytes, t: Tree)
    requires Stored(log, t)
    ensures Decode(log, t.off) == Some(t)
    decreases t, 1, 0
  {
    hide NodeBytes, At;
    ParseNodeIff(log, t.off, NodeOf(t));
    if t.Branch? {
      DecodeKidsComplete(log, t, t.es);
    }
  }

  lemma {:induction false} DecodeKidsComplete(log: Bytes, t: Tree, es: seq<Entry>)
    requires t.Branch?
    requires forall i :: 0 <= i < |es| ==> es[i].kid < t && es[i].kid.off < t.off && Stored(log, es[i].kid)
    ensures DecodeKids(log, Slots(es), t.off) == Some(es)
    decreases t, 0, |es|
  {
    hide Stored;
    if es != [] {
      assert Slots(es)[1..] == Slots(es[1..]) && es == [es[0]] + es[1..];
      DecodeKidsComplete(log, t, es[1..]);
      DecodeComplete(log, es[0].kid);
    }
  }

  lemma {:induction false} DecodeSound(log: Bytes, off: nat)
    requires Decode(log, off).Some?
    ensures var t := Decode(log, off).value; t.off == off && Stored(log, t)
    decreases off, 1, 0
  {
    hide NodeBytes, At;
    var node := ParseNode(log, off).value;
    ParseNodeIff(log, off, node);
    if node.BranchNode? {
      DecodeKidsSound(log, node.slots, off);
    }
  }

  lemma {:induction false} DecodeKidsSound(log: Bytes, ss: seq<Slot>, off: nat)
    requires DecodeKids(log, ss, off).Some?
    ensures var es := DecodeKids(log, ss, off).value;
      && Slots(es) == ss
      && forall i :: 0 <= i < |es| ==> es[i].kid.off < off && Stored(log, es[i].kid)
    decreases off, 0, |ss|
  {
    hide Stored;
    if ss != [] {
      var es := DecodeKids(log, ss, off).value;
      DecodeKidsSound(log, ss[1..], off);
      DecodeSound(log, ss[0].off);
      assert Slots(es) == [ss[0]] + Slots(es[1..]);
      assert forall i :: 1 <= i < |es| ==> es[i] == es[1..][i - 1];
    }
  }

  /** A tree is read at an offset exactly when it is stored there; so a file holds at most one tree
      at an offset, and reading undoes writing. */
  lemma DecodeIff(log: Bytes, off: nat, t: Tree)
    ensures Decode(log, off) == Some(t) <==> t.off == off && Stored(log, t)
  {
    hide Stored, Decode;
    if Decode(log, off).Some? {
      DecodeSound(log, off);
    }
    if Stored(log, t) {
      DecodeComplete(log, t);
    }
  }

  /** What is stored in a file stays stored as the file grows. */
  lemma {:induction false} StoredGrows(log: Bytes, more: Bytes, t: Tree)
    requires Stored(log, t)
    ensures Stored(log + more, t)
    decreases t
  {
    hide NodeBytes;
    AtGrows(log, more, t.off, RootBytes(t));
    if t.Branch? {
      forall i | 0 <= i < |t.es|
        ensures Stored(log + more, t.es[i].kid)
      {
        StoredGrows(log, more, t.es[i].kid);
      }
    }
  }

  /** Different children of a branch are different nodes of the file. */
  lemma KidsDiffer(m: nat, log: Bytes, es: seq<Entry>, hi: Option<Bytes>, h: nat, i: nat, j: nat)
    requires Chain(m, es, hi, h) && i < j < |es|
    requires Stored(log, es[i].kid) && Stored(log, es[j].kid)
    ensures es[i].kid.off != es[j].kid.off
  {
    hide Stored, WF;
    DecodeComplete(log, es[i].kid);
    DecodeComplete(log, es[j].kid);
    FlatSorted(m, es[i].kid, es[i].key, HiAt(es, i, hi), h);
    FlatSorted(m, es[j].kid, es[j].key, HiAt(es, j, hi), h);
    KeysIncrease(m, es, hi, h, i + 1, j);
    assert Below(Flat(es[i].kid)[0].key, Some(es[i + 1].key));
    assert Le(es[j].key, Flat(es[j].kid)[0].key);
  }

  lemma {:induction false} KeysIncrease(m: nat, es: seq<Entry>, hi: Option<Bytes>, h: nat, i: nat, j: nat)
    requires Chain(m, es, hi, h) && i <= j < |es|
    ensures i < j ==> Rank(es[i].key) < Rank(es[j].key)
    ensures Below(es[j].key, hi)
    decreases |es| - i
  {
    hide WF;
    var t := es[i].kid;
    FlatSorted(m, t, es[i].key, HiAt(es, i, hi), h);
    assert Le(es[i].key, Flat(t)[0].key) && Below(Flat(t)[0].key, HiAt(es, i, hi));
    if i + 1 < |es| {
      KeysIncrease(m, es, hi, h, i + 1, if i < j then j else i + 1);
    }
  }
}
