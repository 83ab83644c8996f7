/** Which steps of a run made a version: the changes that separate two current versions are changes that
    clients asked for, each once and in the order in which they were made. */
module History {
  import opened Bytes
  import opened Format
  import opened Records
  import opened Versions
  import opened Ancestry
  import opened Log
  import opened Protocol

  /** Step t of the run made version v, and its block is in the file in state i. */
  ghost predicate MadeAt(m: nat, ss: seq<seq<Block>>, acts: seq<Action>, t: nat, i: nat, v: nat)
    requires |ss| == |acts| + 1
  {
    && t < i < |ss| && acts[t].Make? && ss[t + 1] <= ss[i]
    && !NoEffect(LogBytes(ss[t]), acts[t].ver, acts[t].change)
    && v == UpdateOf(m, LogBytes(ss[t]), acts[t].ver, acts[t].change).ver
  }

  /** v is 0, or a step made it and no crash has lost it. */
  ghost predicate Known(m: nat, ss: seq<seq<Block>>, acts: seq<Action>, i: nat, v: nat)
    requires |ss| == |acts| + 1
  {
    v == 0 || exists t: nat :: MadeAt(m, ss, acts, t, i, v)
  }

  /** Clients use only version numbers that the database has given out. */
  ghost predicate KnownOnly(m: nat, ss: seq<seq<Block>>, acts: seq<Action>)
    requires |ss| == |acts| + 1
  {
    forall i :: 0 <= i < |acts| && !acts[i].Crash? ==> Known(m, ss, acts, i, acts[i].ver)
  }

  /** A version that step t made has the predecessor and the change that step t was called with, in every
      later state that still holds it. */
  lemma MadeCorrect(m: nat, ss: seq<seq<Block>>, acts: seq<Action>, t: nat, i: nat, v: nat)
    requires m >= 4 && m % 2 == 0 && m < TWO_32 && Run(m, ss, acts) && MadeAt(m, ss, acts, t, i, v)
    ensures t < i && t < |acts| && acts[t].Make?
    ensures var log, u := LogBytes(ss[i]), acts[t].ver;
      && u < v && VersionOK(m, log, u) && VersionOK(m, log, v) && Previous(log, v) == u
      && Contents(log, v) == Apply(Contents(log, u), acts[t].change)
  {
    hide VersionOK, UpdateOf, LogBytes, TreeOf, IsBasedOn, Apply, MapOf, ApplyMap, FitsUpdate, NoEffect;
    var u, c := acts[t].ver, acts[t].change;
    var log, log', now := LogBytes(ss[t]), LogBytes(ss[t + 1]), LogBytes(ss[i]);
    assert Step(m, ss[t], acts[t], ss[t + 1]);
    MakeCorrect(m, ss[t], u, c);
    Longer(m, log, log', u);
    PrefixLog(ss[t + 1], ss[i]);
    VersionGrows(m, log', LogBytes(ss[i][|ss[t + 1]|..]), u);
    VersionGrows(m, log', LogBytes(ss[i][|ss[t + 1]|..]), v);
  }

  lemma Longer(m: nat, log: Bytes, log': Bytes, v: nat)
    requires log <= log' && VersionOK(m, log, v)
    ensures VersionOK(m, log', v) && Contents(log', v) == Contents(log, v)
  {
    hide VersionOK, TreeOf;
    assert log' == log + log'[|log|..];
    VersionGrows(m, log, log'[|log|..], v);
  }

  lemma MadeLater(m: nat, ss: seq<seq<Block>>, acts: seq<Action>, t: nat, i: nat, j: nat, v: nat)
    requires |ss| == |acts| + 1 && MadeAt(m, ss, acts, t, i, v) && i <= j < |ss| && ss[i] <= ss[j]
    ensures MadeAt(m, ss, acts, t, j, v) && t < i
  {
    hide NoEffect, UpdateOf, LogBytes;
  }

  lemma KnownLater(m: nat, ss: seq<seq<Block>>, acts: seq<Action>, i: nat, j: nat, v: nat)
    requires |ss| == |acts| + 1 && i <= j < |ss| && ss[i] <= ss[j] && Known(m, ss, acts, i, v)
    ensures Known(m, ss, acts, j, v)
  {
    hide MadeAt;
    if v != 0 {
      var t: nat :| MadeAt(m, ss, acts, t, i, v);
      MadeLater(m, ss, acts, t, i, j, v);
    }
  }

  /** The current version is always one that the database has given out, also after crashes. */
  lemma {:induction false} HeadKnown(m: nat, ss: seq<seq<Block>>, acts: seq<Action>, i: nat)
    requires Run(m, ss, acts) && KnownOnly(m, ss, acts) && i < |ss|
    ensures Known(m, ss, acts, i, LastHead(ss[i]))
    decreases i
  {
    hide Known, UpdateOf, LogBytes, VersionOK, IsBasedOn, FitsUpdate, NoEffect, LastHead, WholeBlocks;
    if i == 0 {
      NothingKnown(m, ss, acts);
    } else {
      var bs, a := ss[i - 1], acts[i - 1];
      assert Step(m, bs, a, ss[i]);
      if a.Crash? {
        var was := CrashRestores(m, ss, acts, i - 1);
        HeadKnown(m, ss, acts, was);
        KnownLater(m, ss, acts, was, i, LastHead(ss[i]));
      } else {
        HeadKnown(m, ss, acts, i - 1);
        if ss[i] != bs {
          HeadAfter(bs, ss[i][|bs|]);
        }
        KnownLater(m, ss, acts, i - 1, i, LastHead(ss[i]));
      }
    }
  }

  lemma NothingKnown(m: nat, ss: seq<seq<Block>>, acts: seq<Action>)
    requires Run(m, ss, acts)
    ensures Known(m, ss, acts, 0, LastHead(ss[0]))
  {
    hide Step;
  }

  /** The steps ts of the run lead from one version to the other: each made its version from the one that
      the step before it made. */
  ghost predicate Leads(m: nat, ss: seq<seq<Block>>, acts: seq<Action>, i: nat, ts: seq<nat>, from: nat, to: nat)
    requires |ss| == |acts| + 1
    decreases |ts|
  {
    if ts == [] then from == to
    else
      var n := |ts| - 1;
      MadeAt(m, ss, acts, ts[n], i, to) && Leads(m, ss, acts, i, ts[..n], from, acts[ts[n]].ver)
  }

  /** rs with the changes of the steps ts made to them, one after the other. */
  ghost function Replay(rs: seq<Record>, acts: seq<Action>, ts: seq<nat>): seq<Record>
    decreases |ts|
  {
    if ts == [] then rs
    else
      var n := |ts| - 1;
      var before := Replay(rs, acts, ts[..n]);
      if ts[n] < |acts| && acts[ts[n]].Make? then Apply(before, acts[ts[n]].change) else before
  }

  ghost predicate Ascending(ts: seq<nat>, bound: nat) {
    (forall a, b :: 0 <= a < b < |ts| ==> ts[a] < ts[b]) && forall a :: 0 <= a < |ts| ==> ts[a] < bound
  }

  /** The steps that lead to a version from one that it is based on. */
  lemma {:induction false} StepsBetween(
      m: nat, ss: seq<seq<Block>>, acts: seq<Action>, i: nat, v: nat, from: nat, bound: nat) returns (ts: seq<nat>)
    requires m >= 4 && m % 2 == 0 && m < TWO_32 && Run(m, ss, acts) && KnownOnly(m, ss, acts) && i < |ss|
    requires v == 0 || exists t: nat :: t < bound && MadeAt(m, ss, acts, t, i, v)
    requires VersionOK(m, LogBytes(ss[i]), v) && IsBasedOn(m, LogBytes(ss[i]), v, from)
    ensures Leads(m, ss, acts, i, ts, from, v) && Ascending(ts, bound)
    ensures Contents(LogBytes(ss[i]), v) == Replay(Contents(LogBytes(ss[i]), from), acts, ts)
    decreases v
  {
    hide VersionOK, LogBytes, Contents, Apply, Previous, MadeAt, Step, KnownOnly;
    if v == from {
      ts := [];
    } else {
      var log := LogBytes(ss[i]);
      var t: nat :| t < bound && MadeAt(m, ss, acts, t, i, v);
      MadeCorrect(m, ss, acts, t, i, v);
      var u := acts[t].ver;
      StepBack(m, log, v);
      assert IsBasedOn(m, log, u, from);
      EarlierKnown(m, ss, acts, t, i, v);
      var before := StepsBetween(m, ss, acts, i, u, from, t);
      ts := before + [t];
      assert ts[..|ts| - 1] == before;
    }
  }

  /** The version that step t started from was made before step t. */
  lemma EarlierKnown(m: nat, ss: seq<seq<Block>>, acts: seq<Action>, t: nat, i: nat, v: nat)
    requires Run(m, ss, acts) && KnownOnly(m, ss, acts) && MadeAt(m, ss, acts, t, i, v)
    ensures var u := acts[t].ver; u == 0 || exists t': nat :: t' < t && MadeAt(m, ss, acts, t', i, u)
  {
    hide Step, NoEffect, UpdateOf, LogBytes;
    var u := acts[t].ver;
    hide MadeAt;
    MakeGrows(m, ss, acts, t);
    assert Known(m, ss, acts, t, u);
    if u != 0 {
      var t': nat :| MadeAt(m, ss, acts, t', t, u);
      MadeLater(m, ss, acts, t', t, i, u);
    }
  }

  lemma MakeGrows(m: nat, ss: seq<seq<Block>>, acts: seq<Action>, t: nat)
    requires Run(m, ss, acts) && t < |acts| && acts[t].Make?
    ensures ss[t] <= ss[t + 1]
  {
    hide UpdateOf, LogBytes, NoEffect, VersionOK, FitsUpdate;
    assert Step(m, ss[t], acts[t], ss[t + 1]);
  }

  /** No lost update, for clients that use the versions they were given.  In every interleaving the
      current version is what an ascending list of steps of the run made of any earlier current version:
      each set or delete in it started from the version that the one before it returned, and the records
      are the earlier records with exactly these changes made, in this order. */
  lemma CommittedChanges(m: nat, ss: seq<seq<Block>>, acts: seq<Action>, i: nat, j: nat) returns (ts: seq<nat>)
    requires m >= 4 && m % 2 == 0 && m < TWO_32 && Run(m, ss, acts) && KnownOnly(m, ss, acts)
    requires i <= j < |ss| && CrashFree(acts, i, j)
    ensures var head, head' := LastHead(ss[i]), LastHead(ss[j]);
      && Leads(m, ss, acts, j, ts, head, head') && Ascending(ts, j)
      && Contents(LogBytes(ss[j]), head') == Replay(Contents(LogBytes(ss[i]), head), acts, ts)
  {
    hide VersionOK, UpdateOf, LogBytes, Contents, NoEffect, IsBasedOn, LastHead, Replay, Leads;
    var _ := NoLostUpdate(m, ss, acts, i, j);
    HeadKnown(m, ss, acts, j);
    CrashFreeGrows(m, ss, acts, i, j);
    PrefixLog(ss[i], ss[j]);
    Longer(m, LogBytes(ss[i]), LogBytes(ss[j]), LastHead(ss[i]));
    ts := StepsBetween(m, ss, acts, j, LastHead(ss[j]), LastHead(ss[i]), j);
  }
}
