/** Version 0 has no node to read, and aodbm_iterator_goto does not check for it (aodbm.c:1003). */
module ZeroVersion {
  import opened Bytes
  import opened Data
  import opened Format
  import opened Trees
  import opened Versions
  import opened Ancestry
  import opened Log
  import opened Protocol
  import Search
  import Updates

  /** The ninth byte of the file is 0: it belongs to the first previous-version pointer, or to the
      number of the first version that was committed. */
  ghost predicate NinthIsZero(bs: seq<Block>) {
    bs != [] ==> |Encode(bs[0])| > 8 && Encode(bs[0])[8] == 0
  }

  lemma {:induction false} ZeroDigits(n: nat, i: nat)
    requires i < n
    ensures EncBE(0, n)[i] == 0
  {
    if i < n - 1 {
      ZeroDigits(n - 1, i);
    }
  }

  /** Whatever is done first to an empty database, the ninth byte is 0. */
  lemma FirstBlock(m: nat, a: Action, bs': seq<Block>)
    requires m >= 4 && Step(m, [], a, bs')
    ensures NinthIsZero(bs')
  {
    hide UpdateOf, FitsUpdate, OneChange, Recovered;
    match a
    case Make(v, c) =>
      EmptyContents([]);
      if bs' != [] {
        Updates.FirstSet(m, [], c.key, c.val);
        ZeroDigits(8, 3);
      }
    case Commit(v) =>
      if bs' != [] {
        ZeroDigits(8, 7);
      }
    case Crash(kept) =>
      assert LogBytes([])[..kept] == [];
      EmptyLog(bs');
  }

  lemma EmptyLog(bs: seq<Block>)
    requires Recovered([], bs)
    ensures bs == []
  {
    hide NoWholeBlock;
    if bs != [] {
      EncodeFirst(bs[0]);
    }
  }

  lemma {:induction false} RunNinthIsZero(m: nat, ss: seq<seq<Block>>, acts: seq<Action>, i: nat)
    requires m >= 4 && m % 2 == 0 && m < TWO_32 && Run(m, ss, acts) && i < |ss|
    ensures NinthIsZero(ss[i])
  {
    hide Encode, VersionOK, UpdateOf, LogBytes, IsBasedOn, Contents, LastHead, Recovered, WholeBlocks;
    if i > 0 {
      var bs, a := ss[i - 1], acts[i - 1];
      RunNinthIsZero(m, ss, acts, i - 1);
      assert Step(m, bs, a, ss[i]);
      if bs == [] {
        FirstBlock(m, a, ss[i]);
      } else if a.Crash? {
        RunKeepsLogOK(m, ss, acts, i - 1);
        CrashAtomic(m, bs, a.kept, ss[i]);
      }
    }
  }

  /** Exactly when aodbm_iterator_goto finds a node to start from: in every state of every run, and for
      every version of it, a node begins eight bytes behind the version if and only if it is not 0. */
  lemma SeekNeedsVersion(m: nat, ss: seq<seq<Block>>, acts: seq<Action>, i: nat, v: nat)
    requires m >= 4 && m % 2 == 0 && m < TWO_32 && Run(m, ss, acts) && i < |ss|
    requires VersionOK(m, LogBytes(ss[i]), v)
    ensures var log := LogBytes(ss[i]);
      v + 8 < |log| && (log[v + 8] == LEAF || log[v + 8] == BRANCH) <==> v != 0
  {
    hide Encode, VersionOK, Stored;
    var bs := ss[i];
    if v == 0 {
      RunNinthIsZero(m, ss, acts, i);
      if bs != [] {
        assert LogBytes(bs) == Encode(bs[0]) + LogBytes(bs[1..]);
      }
    } else {
      VersionTree(m, LogBytes(bs), v);
      Search.NodeKind(LogBytes(bs), TreeOf(LogBytes(bs), v));
    }
  }
}
