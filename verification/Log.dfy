/** The file as a log of blocks, and its recovery when it is opened (aodbm_open and the block writers). */
module Log {
  import opened Bytes
  import opened Data

  /** A block holds the nodes of one update, or names the version that became current. */
  datatype Block = Nodes(body: Bytes) | Head(ver: nat)

  const NODES: byte := 100  // 'd'
  const HEAD: byte := 118  // 'v'

  predicate FitsBlock(b: Block) {
    match b
    case Nodes(body) => |body| < TWO_32
    case Head(ver) => ver < TWO_64
  }

  predicate FitsBlocks(bs: seq<Block>) {
    forall i :: 0 <= i < |bs| ==> FitsBlock(bs[i])
  }

  function Encode(b: Block): Bytes {
    match b
    case Nodes(body) => [NODES] + Enc32(|body|) + body
    case Head(ver) => [HEAD] + Enc64(ver)
  }

  function LogBytes(bs: seq<Block>): Bytes {
    if bs == [] then [] else Encode(bs[0]) + LogBytes(bs[1..])
  }

  /** The version that is current after the blocks bs. */
  function LastHead(bs: seq<Block>): nat {
    if bs == [] then 0
    else match bs[|bs| - 1]
      case Head(ver) => ver
      case Nodes(_) => LastHead(bs[..|bs| - 1])
  }

  lemma {:induction false} LogBytesAppend(a: seq<Block>, b: seq<Block>)
    ensures LogBytes(a + b) == LogBytes(a) + LogBytes(b)
  {
    hide Encode;
    if a == [] {
      assert a + b == b;
    } else {
      assert (a + b)[1..] == a[1..] + b;
      LogBytesAppend(a[1..], b);
    }
  }

  lemma LogBytesOne(b: Block)
    ensures LogBytes([b]) == Encode(b)
  {
    hide Encode;
    assert LogBytes([b]) == Encode(b) + [];
  }

  lemma HeadAfter(bs: seq<Block>, b: Block)
    ensures LastHead(bs + [b]) == if b.Head? then b.ver else LastHead(bs)
  {
    assert (bs + [b])[..|bs|] == bs;
  }

  // ----- Recovery

  ghost predicate NoWholeBlock(rest: Bytes) {
    forall b :: FitsBlock(b) ==> !(Encode(b) <= rest)
  }

  /** bs are the whole blocks with which bytes begins. */
  ghost predicate Recovered(bytes: Bytes, bs: seq<Block>) {
    FitsBlocks(bs) && LogBytes(bs) <= bytes && NoWholeBlock(bytes[|LogBytes(bs)|..])
  }

  /** The scan of bytes keeps the blocks bs and meets no unknown block type. */
  ghost predicate ScansTo(bytes: Bytes, bs: seq<Block>) {
    && Recovered(bytes, bs)
    && var rest := bytes[|LogBytes(bs)|..];
      rest == [] || rest[0] == 'd' as int || rest[0] == 'v' as int
  }

  lemma HeadWhole(rest: Bytes, b: Block)
    requires FitsBlock(b) && rest != [] && rest[0] == HEAD
    ensures Encode(b) <= rest <==> |rest| >= 9 && b == Head(Dec64(rest[1..9]))
  {
    if |rest| >= 9 {
      Enc64Dec64(rest[1..9]);
      assert rest[..9] == [HEAD] + rest[1..9];
    }
    if b.Head? && Encode(b) <= rest {
      assert rest[1..9] == Enc64(b.ver);
    }
  }

  lemma NodesWhole(rest: Bytes, b: Block)
    requires FitsBlock(b) && rest != [] && rest[0] == NODES
    ensures Encode(b) <= rest <==>
      |rest| >= 5 && |rest| >= 5 + Dec32(rest[1..5]) && b == Nodes(rest[5..5 + Dec32(rest[1..5])])
  {
    if |rest| >= 5 {
      var sz := Dec32(rest[1..5]);
      Enc32Dec32(rest[1..5]);
      if |rest| >= 5 + sz {
        assert rest[..5 + sz] == [NODES] + rest[1..5] + rest[5..5 + sz];
      }
    }
    if b.Nodes? && Encode(b) <= rest {
      assert rest[1..5] == Enc32(|b.body|);
      assert rest[5..5 + |b.body|] == b.body;
    }
  }

  lemma EncodeFirst(b: Block)
    ensures Encode(b) != [] && Encode(b)[0] == if b.Nodes? then NODES else HEAD
  {
  }

  /** A block is determined by where it begins. */
  lemma EncodePrefixFree(rest: Bytes, a: Block, b: Block)
    requires FitsBlock(a) && FitsBlock(b) && Encode(a) <= rest && Encode(b) <= rest
    ensures a == b
  {
    hide Enc32, Enc64, Dec32, Dec64;
    EncodeFirst(a);
    EncodeFirst(b);
    if rest[0] == HEAD {
      HeadWhole(rest, a);
      HeadWhole(rest, b);
    } else {
      NodesWhole(rest, a);
      NodesWhole(rest, b);
    }
  }

  lemma {:induction false} RecoveredUnique(bytes: Bytes, a: seq<Block>, b: seq<Block>)
    requires Recovered(bytes, a) && Recovered(bytes, b)
    ensures a == b
    decreases |a|
  {
    hide Encode;
    RecoveredFirst(bytes, a);
    RecoveredFirst(bytes, b);
    if a != [] && b != [] {
      EncodePrefixFree(bytes, a[0], b[0]);
      RecoveredRest(bytes, a);
      RecoveredRest(bytes, b);
      RecoveredUnique(bytes[|Encode(a[0])|..], a[1..], b[1..]);
    }
  }

  lemma RecoveredFirst(bytes: Bytes, bs: seq<Block>)
    requires Recovered(bytes, bs)
    ensures bs == [] <==> NoWholeBlock(bytes)
    ensures bs != [] ==> FitsBlock(bs[0]) && Encode(bs[0]) <= bytes
  {
    hide Encode;
    if bs == [] {
      assert bytes[0..] == bytes;
    } else {
      assert Encode(bs[0]) <= LogBytes(bs);
    }
  }

  lemma RecoveredRest(bytes: Bytes, bs: seq<Block>)
    requires Recovered(bytes, bs) && bs != []
    ensures Recovered(bytes[|Encode(bs[0])|..], bs[1..])
  {
    hide Encode;
    var n := |Encode(bs[0])|;
    var rest := bytes[n..];
    assert rest[|LogBytes(bs[1..])|..] == bytes[|LogBytes(bs)|..];
    assert bytes[..|LogBytes(bs)|] == LogBytes(bs);
    assert rest[..|LogBytes(bs[1..])|] == LogBytes(bs[1..]);
  }

  lemma ScanHead(bytes: Bytes, pos: nat)
    requires pos < |bytes| && bytes[pos] == HEAD
    ensures if pos + 9 > |bytes| then NoWholeBlock(bytes[pos..])
      else var b := Head(Dec64(bytes[pos + 1..pos + 9]));
        FitsBlock(b) && Encode(b) <= bytes[pos..] && |Encode(b)| == 9
  {
    hide Enc64, Dec64;
    var rest := bytes[pos..];
    if pos + 9 > |bytes| {
      forall b | FitsBlock(b)
        ensures !(Encode(b) <= rest)
      {
        HeadWhole(rest, b);
      }
    } else {
      assert rest[1..9] == bytes[pos + 1..pos + 9];
      Enc64Dec64(rest[1..9]);
      HeadWhole(rest, Head(Dec64(rest[1..9])));
    }
  }

  lemma ScanNodes(bytes: Bytes, pos: nat)
    requires pos < |bytes| && bytes[pos] == NODES
    ensures if pos + 5 > |bytes| || pos + 5 + Dec32(bytes[pos + 1..pos + 5]) > |bytes| then NoWholeBlock(bytes[pos..])
      else
        var end := pos + 5 + Dec32(bytes[pos + 1..pos + 5]);
        var b := Nodes(bytes[pos + 5..end]);
        FitsBlock(b) && Encode(b) <= bytes[pos..] && |Encode(b)| == end - pos
  {
    hide Enc32, Dec32;
    var rest := bytes[pos..];
    if pos + 5 <= |bytes| {
      assert rest[1..5] == bytes[pos + 1..pos + 5];
      Enc32Dec32(rest[1..5]);
    }
    if pos + 5 > |bytes| || pos + 5 + Dec32(bytes[pos + 1..pos + 5]) > |bytes| {
      forall b | FitsBlock(b)
        ensures !(Encode(b) <= rest)
      {
        NodesWhole(rest, b);
      }
    } else {
      var sz := Dec32(rest[1..5]);
      assert rest[5..5 + sz] == bytes[pos + 5..pos + 5 + sz];
      NodesWhole(rest, Nodes(rest[5..5 + sz]));
    }
  }

  lemma ScanStep(bytes: Bytes, bs: seq<Block>, b: Block)
    requires FitsBlocks(bs) && FitsBlock(b)
    requires LogBytes(bs) <= bytes && Encode(b) <= bytes[|LogBytes(bs)|..]
    ensures FitsBlocks(bs + [b]) && LogBytes(bs + [b]) <= bytes
    ensures |LogBytes(bs + [b])| == |LogBytes(bs)| + |Encode(b)|
    ensures LastHead(bs + [b]) == if b.Head? then b.ver else LastHead(bs)
  {
    hide Encode;
    LogBytesAppend(bs, [b]);
    LogBytesOne(b);
    assert (bs + [b])[..|bs|] == bs;
  }

  /** Behind the blocks bs comes an unknown block type. */
  ghost predicate StopsAt(bytes: Bytes, bs: seq<Block>) {
    && FitsBlocks(bs) && LogBytes(bs) < bytes
    && bytes[|LogBytes(bs)|] != 'd' as int && bytes[|LogBytes(bs)|] != 'v' as int
  }

  /** The scan that aodbm_open makes of the file: read a block type, then the block; cut off a block
      that is not whole, and give up on an unknown type. */
  method ScanBlocks(bytes: Bytes) returns (ok: bool, file: Bytes, fileSize: nat, cur: nat, ghost bs: seq<Block>)
    ensures ok ==> ScansTo(bytes, bs) && file == LogBytes(bs) && fileSize == |file| && cur == LastHead(bs)
    ensures !ok ==> StopsAt(bytes, bs)
  {
    hide Encode, LogBytes, NoWholeBlock, Dec32, Dec64;
    file := bytes;
    var actualSize := |bytes|;
    fileSize, cur, bs := 0, 0, [];
    NothingLeft();
    while true
      invariant actualSize == |bytes| && file == bytes
      invariant FitsBlocks(bs) && LogBytes(bs) <= bytes && fileSize == |LogBytes(bs)| && cur == LastHead(bs)
      decreases |bytes| - fileSize
    {
      var blockBegin := fileSize;
      if fileSize + 1 > |bytes| {
        assert bytes[blockBegin..] == [];
        ok := true;
        return;
      }
      var kind := bytes[fileSize];
      fileSize := fileSize + 1;
      if kind == HEAD {
        ScanHead(bytes, blockBegin);
        if fileSize + 8 > |bytes| {
          file, fileSize := bytes[..blockBegin], blockBegin;
          ok := true;
          return;
        }
        var ver := Dec64(bytes[fileSize..fileSize + 8]);
        cur := ver;
        fileSize := fileSize + 8;
        ScanStep(bytes, bs, Head(ver));
        bs := bs + [Head(ver)];
      } else if kind == NODES {
        ScanNodes(bytes, blockBegin);
        if fileSize + 4 > |bytes| {
          file, fileSize := bytes[..blockBegin], blockBegin;
          ok := true;
          return;
        }
        var sz := Dec32(bytes[fileSize..fileSize + 4]);
        fileSize := fileSize + 4;
        if fileSize + sz > actualSize {
          file, fileSize := bytes[..blockBegin], blockBegin;
          ok := true;
          return;
        }
        fileSize := fileSize + sz;
        ScanStep(bytes, bs, Nodes(bytes[blockBegin + 5..fileSize]));
        bs := bs + [Nodes(bytes[blockBegin + 5..fileSize])];
      } else {
        ok := false;
        return;
      }
    }
  }

  /** A file that begins with known kinds of blocks only is scanned to its end. */
  lemma KnownKinds(bytes: Bytes, whole: seq<Block>, ok: bool, bs: seq<Block>)
    requires ScansTo(bytes, whole) && if ok then ScansTo(bytes, bs) else StopsAt(bytes, bs)
    ensures ok && bs == whole
  {
    hide LogBytes, Encode;
    if !ok {
      var rest := bytes[|LogBytes(bs)|..];
      assert rest[0] == bytes[|LogBytes(bs)|];
      forall b | FitsBlock(b)
        ensures !(Encode(b) <= rest)
      {
        EncodeFirst(b);
      }
      assert Recovered(bytes, bs);
    }
    RecoveredUnique(bytes, bs, whole);
  }

  /** The recovery that aodbm_open makes.  It succeeds exactly when no unknown block type is met, and
      then keeps the one list of whole blocks with which the file begins. */
  method Recover(bytes: Bytes) returns (ok: bool, file: Bytes, fileSize: nat, cur: nat, ghost bs: seq<Block>)
    ensures ok ==> ScansTo(bytes, bs)
    ensures ok <==> exists whole :: ScansTo(bytes, whole)
    ensures !ok <==> exists whole :: StopsAt(bytes, whole)
    ensures forall whole :: ScansTo(bytes, whole) ==>
      file == LogBytes(whole) && fileSize == |file| && cur == LastHead(whole)
  {
    ok, file, fileSize, cur, bs := ScanBlocks(bytes);
    forall whole | ScansTo(bytes, whole)
      ensures ok && bs == whole
    {
      KnownKinds(bytes, whole, ok, bs);
    }
    forall stop | StopsAt(bytes, stop)
      ensures !ok
    {
      if ok {
        KnownKinds(bytes, bs, false, stop);
      }
    }
  }

  lemma NothingLeft()
    ensures NoWholeBlock([]) && LogBytes([]) == []
  {
    hide Encode;
    forall b | FitsBlock(b)
      ensures !(Encode(b) <= [])
    {
      EncodeFirst(b);
    }
  }

  // ----- A torn log

  /** The number of blocks of bs that lie wholly in the first p bytes. */
  ghost function WholeBlocks(bs: seq<Block>, p: nat): (n: nat)
    ensures n <= |bs|
  {
    if bs == [] || p < |Encode(bs[0])| then 0 else 1 + WholeBlocks(bs[1..], p - |Encode(bs[0])|)
  }

  lemma {:induction false} WholeBlocksFit(bs: seq<Block>, p: nat)
    ensures var n := WholeBlocks(bs, p);
      |LogBytes(bs[..n])| <= p && (n < |bs| ==> p < |LogBytes(bs[..n + 1])|)
  {
    hide Encode;
    var n := WholeBlocks(bs, p);
    if bs != [] {
      assert forall k :: 0 < k <= |bs| ==> bs[..k][1..] == bs[1..][..k - 1];
      if |Encode(bs[0])| <= p {
        WholeBlocksFit(bs[1..], p - |Encode(bs[0])|);
      } else {
        assert LogBytes(bs[..1]) == Encode(bs[0]) + LogBytes(bs[..1][1..]);
      }
    }
  }

  lemma TornBlock(b: Block, torn: Bytes)
    requires FitsBlock(b) && torn < Encode(b)
    ensures NoWholeBlock(torn)
    ensures torn == [] || torn[0] == NODES || torn[0] == HEAD
  {
    hide Encode;
    EncodeFirst(b);
    forall b' | FitsBlock(b') && Encode(b') <= torn
      ensures false
    {
      assert Encode(b') <= Encode(b);
      EncodePrefixFree(Encode(b), b, b');
    }
  }

  /** However many bytes of a log survive, opening it recovers exactly the blocks that survived whole,
      and never meets an unknown block type. */
  lemma {:induction false} TornLogRecovers(bs: seq<Block>, p: nat)
    requires FitsBlocks(bs) && p <= |LogBytes(bs)|
    ensures ScansTo(LogBytes(bs)[..p], bs[..WholeBlocks(bs, p)])
    decreases |bs|
  {
    hide Encode, NoWholeBlock;
    var n := WholeBlocks(bs, p);
    var bytes, whole := LogBytes(bs)[..p], bs[..n];
    if bs == [] {
      NothingLeft();
      assert bytes[0..] == [];
    } else if p < |Encode(bs[0])| {
      assert bytes < Encode(bs[0]) && bytes[0..] == bytes;
      TornBlock(bs[0], bytes);
    } else {
      var k := |Encode(bs[0])|;
      TornLogRecovers(bs[1..], p - k);
      assert whole == [bs[0]] + bs[1..][..n - 1];
      assert bytes == Encode(bs[0]) + LogBytes(bs[1..])[..p - k];
      RecoveredCons(LogBytes(bs[1..])[..p - k], bs[0], bs[1..][..n - 1]);
    }
  }

  lemma RecoveredCons(bytes: Bytes, b: Block, bs: seq<Block>)
    requires Recovered(bytes, bs) && FitsBlock(b)
    ensures var all := Encode(b) + bytes;
      && Recovered(all, [b] + bs) && all[|LogBytes([b] + bs)|..] == bytes[|LogBytes(bs)|..]
  {
    hide Encode, NoWholeBlock;
    var all := Encode(b) + bytes;
    assert ([b] + bs)[1..] == bs;
    assert all[..|LogBytes([b] + bs)|] == Encode(b) + bytes[..|LogBytes(bs)|];
    assert all[|LogBytes([b] + bs)|..] == bytes[|LogBytes(bs)|..];
  }
}
