/** Whole runs of the database: any number of clients make versions from any version and try to
    commit them, and the machine may stop after any byte of the file.  A state is the log alone;
    set, del and commit are single steps, as the mutexes make them. */
module Protocol {
  import opened Bytes
  import opened Data
  import opened Records
  import opened Versions
  import opened Ancestry
  import opened Log

  /** v may become current after the blocks before. */
  ghost predicate HeadOK(m: nat, before: seq<Block>, v: nat) {
    VersionOK(m, LogBytes(before), v) && IsBasedOn(m, LogBytes(before), v, LastHead(before))
  }

  /** Every version that ever became current was complete in the file by then, and based on the
      version that was current before it. */
  ghost predicate LogOK(m: nat, bs: seq<Block>) {
    FitsBlocks(bs) && forall k :: 0 <= k < |bs| && bs[k].Head? ==> HeadOK(m, bs[..k], bs[k].ver)
  }

  datatype Action =
    | Make(ver: nat, change: Change)  // aodbm_set, aodbm_del
    | Commit(ver: nat)                // aodbm_commit
    | Crash(kept: nat)                // all but the first kept bytes are lost, and the file is opened again

  /** Removing a key that is absent makes no new version. */
  ghost predicate NoEffect(log: Bytes, v: nat, c: Change) {
    c.Remove? && Lookup(Contents(log, v), c.key) == None
  }

  ghost predicate Step(m: nat, bs: seq<Block>, a: Action, bs': seq<Block>) {
    var log := LogBytes(bs);
    match a
    case Make(v, c) =>
      && VersionOK(m, log, v)
      && if NoEffect(log, v, c) then bs' == bs
         else FitsUpdate(m, log, v, c) && bs' == bs + [Nodes(UpdateOf(m, log, v, c).block)]
    case Commit(v) =>
      && VersionOK(m, log, v) && |log| + 9 <= TWO_64
      && bs' == if IsBasedOn(m, log, v, LastHead(bs)) then bs + [Head(v)] else bs
    case Crash(kept) =>
      kept <= |log| && Recovered(log[..kept], bs')
  }

  ghost predicate Run(m: nat, ss: seq<seq<Block>>, acts: seq<Action>) {
    && |ss| == |acts| + 1 && ss[0] == []
    && forall i :: 0 <= i < |acts| ==> Step(m, ss[i], acts[i], ss[i + 1])
  }

  // ----- Single steps

  lemma LogGrows(bs: seq<Block>, b: Block)
    ensures LogBytes(bs + [b]) == LogBytes(bs) + Encode(b)
  {
    hide Encode;
    LogBytesAppend(bs, [b]);
    LogBytesOne(b);
  }

  /** What set and delete do to the file: the appended block makes the new version, and leaves every
      byte before it alone. */
  lemma MakeCorrect(m: nat, bs: seq<Block>, v: nat, c: Change)
    requires m >= 4 && m % 2 == 0 && m < TWO_32 && VersionOK(m, LogBytes(bs), v) && FitsUpdate(m, LogBytes(bs), v, c)
    ensures var log, u := LogBytes(bs), UpdateOf(m, LogBytes(bs), v, c);
      var log' := LogBytes(bs + [Nodes(u.block)]);
      && log <= log' && v <= |log| < u.ver
      && VersionOK(m, log', u.ver) && Previous(log', u.ver) == v && IsBasedOn(m, log', u.ver, v)
      && Contents(log', u.ver) == Apply(Contents(log, v), c)
      && MapOf(Contents(log', u.ver)) == ApplyMap(MapOf(Contents(log, v)), c)
  {
    hide LogBytes, UpdateOf, RootOK, OneChange, TreeOf, Contents;
    var log, u := LogBytes(bs), UpdateOf(m, LogBytes(bs), v, c);
    var hdr := [NODES] + Enc32(|u.block|);
    LogGrows(bs, Nodes(u.block));
    assert log + hdr + u.block == log + (hdr + u.block);
    UpdateCorrect(m, log, v, c, hdr);
    VersionInside(m, log, v);
    VersionGrows(m, log, hdr + u.block, v);
    BasedOnIsPartialOrder(m, log + (hdr + u.block), v, v, v);
  }

  lemma LogOKPrefix(m: nat, bs: seq<Block>, n: nat)
    requires LogOK(m, bs) && n <= |bs|
    ensures LogOK(m, bs[..n])
  {
    hide HeadOK, FitsBlock;
    forall k | 0 <= k < n && bs[..n][k].Head?
      ensures HeadOK(m, bs[..n][..k], bs[..n][k].ver)
    {
      assert bs[..n][..k] == bs[..k];
    }
  }

  lemma LogOKExtend(m: nat, bs: seq<Block>, b: Block)
    requires LogOK(m, bs) && FitsBlock(b) && (b.Head? ==> HeadOK(m, bs, b.ver))
    ensures LogOK(m, bs + [b])
  {
    hide HeadOK, FitsBlock;
    var all := bs + [b];
    forall k | 0 <= k < |all| && all[k].Head?
      ensures HeadOK(m, all[..k], all[k].ver)
    {
      if k < |bs| {
        assert all[..k] == bs[..k];
      } else {
        assert all[..k] == bs;
      }
    }
  }

  /** The current version is a version of the log, and is based on every version that was current
      before. */
  lemma {:induction false} HeadsChain(m: nat, bs: seq<Block>, n: nat)
    requires LogOK(m, bs) && n <= |bs|
    ensures VersionOK(m, LogBytes(bs), LastHead(bs))
    ensures IsBasedOn(m, LogBytes(bs), LastHead(bs), LastHead(bs[..n]))
    ensures VersionOK(m, LogBytes(bs[..n]), LastHead(bs[..n]))
    decreases |bs|
  {
    hide RootOK, OneChange, TreeOf, LogBytes, Encode, FitsBlocks;
    if bs != [] {
      var k := |bs| - 1;
      var before, b := bs[..k], bs[k];
      assert bs == before + [b];
      LogGrows(before, b);
      LogOKPrefix(m, bs, k);
      HeadsChain(m, before, if n <= k then n else k);
      BasedOnGrows(m, LogBytes(before), Encode(b), LastHead(before), LastHead(bs[..n]));
      if n == |bs| {
        assert bs[..n] == bs;
        if b.Head? {
          BasedOnGrows(m, LogBytes(before), Encode(b), b.ver, b.ver);
        }
        BasedOnIsPartialOrder(m, LogBytes(bs), LastHead(bs), 0, 0);
      } else {
        assert before[..n] == bs[..n];
        if b.Head? {
          BasedOnGrows(m, LogBytes(before), Encode(b), b.ver, LastHead(before));
          BasedOnTransitive(m, LogBytes(bs), b.ver, LastHead(before), LastHead(bs[..n]));
        }
      }
    } else {
      assert bs[..n] == bs;
    }
  }

  /** Crash atomicity.  Whatever number of bytes of the file survives, opening it recovers exactly the
      blocks that survived whole; the version that is then current is the last one whose block
      survived (or 0), it lies wholly in what is kept, and it has the contents it had before. */
  lemma CrashAtomic(m: nat, bs: seq<Block>, kept: nat, bs': seq<Block>)
    requires LogOK(m, bs) && kept <= |LogBytes(bs)| && Recovered(LogBytes(bs)[..kept], bs')
    ensures var n := WholeBlocks(bs, kept);
      && bs' == bs[..n]
      && |LogBytes(bs')| <= kept && (n < |bs| ==> kept < |LogBytes(bs[..n + 1])|)
    ensures LogOK(m, bs') && VersionOK(m, LogBytes(bs'), LastHead(bs'))
    ensures LogBytes(bs') <= LogBytes(bs)
    ensures forall v :: VersionOK(m, LogBytes(bs'), v) ==>
      VersionOK(m, LogBytes(bs), v) && Contents(LogBytes(bs'), v) == Contents(LogBytes(bs), v)
  {
    hide RootOK, OneChange, TreeOf, LogBytes, HeadOK, VersionOK, Recovered, WholeBlocks;
    var n := WholeBlocks(bs, kept);
    TornLogRecovers(bs, kept);
    RecoveredUnique(LogBytes(bs)[..kept], bs', bs[..n]);
    WholeBlocksFit(bs, kept);
    LogOKPrefix(m, bs, n);
    HeadsChain(m, bs', 0);
    assert bs == bs' + bs[n..];
    LogBytesAppend(bs', bs[n..]);
    forall v | VersionOK(m, LogBytes(bs'), v)
      ensures VersionOK(m, LogBytes(bs), v) && Contents(LogBytes(bs'), v) == Contents(LogBytes(bs), v)
    {
      VersionGrows(m, LogBytes(bs'), LogBytes(bs[n..]), v);
    }
  }

  lemma StepKeepsLogOK(m: nat, bs: seq<Block>, a: Action, bs': seq<Block>)
    requires LogOK(m, bs) && Step(m, bs, a, bs')
    ensures LogOK(m, bs')
  {
    hide LogOK, UpdateOf, LogBytes, Contents;
    match a
    case Make(v, c) =>
      if !NoEffect(LogBytes(bs), v, c) {
        LogOKExtend(m, bs, bs'[|bs|]);
      }
    case Commit(v) =>
      if bs' != bs {
        VersionInside(m, LogBytes(bs), v);
        LogOKExtend(m, bs, Head(v));
      }
    case Crash(kept) =>
      CrashAtomic(m, bs, kept, bs');
  }

  // ----- Runs

  lemma {:induction false} RunKeepsLogOK(m: nat, ss: seq<seq<Block>>, acts: seq<Action>, i: nat)
    requires Run(m, ss, acts) && i < |ss|
    ensures LogOK(m, ss[i])
  {
    hide Step, HeadOK;
    if i > 0 {
      RunKeepsLogOK(m, ss, acts, i - 1);
      StepKeepsLogOK(m, ss[i - 1], acts[i - 1], ss[i]);
    }
  }

  /** No steps from i to j lose bytes. */
  ghost predicate CrashFree(acts: seq<Action>, i: nat, j: nat)
    requires i <= j <= |acts|
  {
    forall k :: i <= k < j ==> !acts[k].Crash?
  }

  lemma {:induction false} CrashFreeGrows(m: nat, ss: seq<seq<Block>>, acts: seq<Action>, i: nat, j: nat)
    requires Run(m, ss, acts) && i <= j < |ss| && CrashFree(acts, i, j)
    ensures ss[i] <= ss[j]
    decreases j
  {
    hide UpdateOf, LogBytes, VersionOK, IsBasedOn, Contents;
    if i < j {
      CrashFreeGrows(m, ss, acts, i, j - 1);
      assert Step(m, ss[j - 1], acts[j - 1], ss[j]);
    }
  }

  lemma PrefixLog(a: seq<Block>, b: seq<Block>)
    requires a <= b
    ensures LogBytes(b) == LogBytes(a) + LogBytes(b[|a|..])
  {
    hide Encode;
    assert b == a + b[|a|..];
    LogBytesAppend(a, b[|a|..]);
  }

  /** Snapshot isolation.  Whatever the clients do, a version keeps its tree, its contents and its
      ancestry, and no byte that was written changes. */
  lemma SnapshotIsolation(m: nat, ss: seq<seq<Block>>, acts: seq<Action>, i: nat, j: nat, v: nat, w: nat)
    requires Run(m, ss, acts) && i <= j < |ss| && CrashFree(acts, i, j)
    requires VersionOK(m, LogBytes(ss[i]), v)
    ensures var log, log' := LogBytes(ss[i]), LogBytes(ss[j]);
      && log <= log'
      && VersionOK(m, log', v) && TreeOf(log', v) == TreeOf(log, v) && Contents(log', v) == Contents(log, v)
      && (IsBasedOn(m, log', v, w) <==> IsBasedOn(m, log, v, w))
  {
    hide VersionOK, TreeOf, LogBytes, IsBasedOn;
    CrashFreeGrows(m, ss, acts, i, j);
    PrefixLog(ss[i], ss[j]);
    VersionGrows(m, LogBytes(ss[i]), LogBytes(ss[j][|ss[i]|..]), v);
    BasedOnGrows(m, LogBytes(ss[i]), LogBytes(ss[j][|ss[i]|..]), v, w);
  }

  /** No lost update.  In every interleaving, the current version is based on every version that was
      current before.  Following its predecessors leads back to that version in as many steps as there
      are changes, and each version on the way is the one before it with one change made. */
  lemma NoLostUpdate(m: nat, ss: seq<seq<Block>>, acts: seq<Action>, i: nat, j: nat) returns (cs: seq<Change>)
    requires Run(m, ss, acts) && i <= j < |ss| && CrashFree(acts, i, j)
    ensures var log, log', head, head' := LogBytes(ss[i]), LogBytes(ss[j]), LastHead(ss[i]), LastHead(ss[j]);
      && VersionOK(m, log, head) && VersionOK(m, log', head')
      && IsBasedOn(m, log', head', head)
      && Back(m, log', head', |cs|) == head
      && forall k :: 0 <= k <= |cs| ==>
        Contents(log', Back(m, log', head', |cs| - k)) == ApplyAll(Contents(log, head), cs[..k])
  {
    hide VersionOK, LogBytes, IsBasedOn, LastHead, TreeOf, Back, ApplyAll;
    CrashFreeGrows(m, ss, acts, i, j);
    RunKeepsLogOK(m, ss, acts, j);
    assert ss[j][..|ss[i]|] == ss[i];
    HeadsChain(m, ss[j], |ss[i]|);
    cs := BasedOnMeansChanged(m, LogBytes(ss[j]), LastHead(ss[j]), LastHead(ss[i]));
    PrefixLog(ss[i], ss[j]);
    VersionGrows(m, LogBytes(ss[i]), LogBytes(ss[j][|ss[i]|..]), LastHead(ss[i]));
  }

  /** A crash takes the database back to a state it was in: the state after step i of the run is the
      state before the crash without the blocks that were lost. */
  lemma {:induction false} PrefixWasReached(m: nat, ss: seq<seq<Block>>, acts: seq<Action>, k: nat, n: nat)
      returns (i: nat)
    requires Run(m, ss, acts) && k < |ss| && n <= |ss[k]|
    ensures i <= k && ss[i] == ss[k][..n]
    decreases k
  {
    hide Step;
    if k == 0 || n == |ss[k]| {
      assert ss[k][..n] == ss[k];
      i := k;
    } else {
      StepPrefix(m, ss, acts, k - 1, n);
      i := PrefixWasReached(m, ss, acts, k - 1, n);
    }
  }

  lemma StepPrefix(m: nat, ss: seq<seq<Block>>, acts: seq<Action>, k: nat, n: nat)
    requires Run(m, ss, acts) && k < |acts| && n < |ss[k + 1]|
    ensures n <= |ss[k]| && ss[k + 1][..n] == ss[k][..n]
  {
    hide UpdateOf, LogBytes, VersionOK, IsBasedOn, Contents, LastHead, Recovered;
    var bs, bs' := ss[k], ss[k + 1];
    assert Step(m, bs, acts[k], bs');
    if acts[k].Crash? {
      RunKeepsLogOK(m, ss, acts, k);
      CrashAtomic(m, bs, acts[k].kept, bs');
    }
  }

  /** Crash atomicity over whole runs, with any number of earlier crashes: a crash restores a state in
      which the run was before, and loses no block that had reached the file whole. */
  lemma CrashRestores(m: nat, ss: seq<seq<Block>>, acts: seq<Action>, k: nat) returns (i: nat)
    requires Run(m, ss, acts) && k < |acts| && acts[k].Crash?
    ensures i <= k && ss[k + 1] == ss[i]
    ensures ss[i] == ss[k][..WholeBlocks(ss[k], acts[k].kept)]
    ensures VersionOK(m, LogBytes(ss[i]), LastHead(ss[i]))
  {
    hide VersionOK, LogBytes, LastHead, WholeBlocks;
    RunKeepsLogOK(m, ss, acts, k);
    assert Step(m, ss[k], acts[k], ss[k + 1]);
    CrashAtomic(m, ss[k], acts[k].kept, ss[k + 1]);
    i := PrefixWasReached(m, ss, acts, k, WholeBlocks(ss[k], acts[k].kept));
  }
}
