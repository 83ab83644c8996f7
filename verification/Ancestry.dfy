/** Which versions are built on which (the ancestry functions of aodbm.c). */
module Ancestry {
  import opened Bytes
  import opened Format
  import opened Records
  import opened Versions

  /** aodbm_is_based_on: is a based on b? */
  predicate IsBasedOn(ghost m: nat, log: Bytes, a: nat, b: nat)
    requires VersionOK(m, log, a)
    decreases a
  {
    if b == 0 then true
    else if a == 0 then false
    else if a < b then false
    else if a == b then true
    else IsBasedOn(m, log, Previous(log, a), b)
  }

  /** aodbm_common_ancestor */
  function CommonAncestor(ghost m: nat, log: Bytes, a: nat, b: nat): (c: nat)
    requires VersionOK(m, log, a) && VersionOK(m, log, b)
    ensures c <= a && c <= b && VersionOK(m, log, c)
    decreases a + b
  {
    if a == b then a
    else if a == 0 || b == 0 then 0
    else if a > b then CommonAncestor(m, log, Previous(log, a), b)
    else CommonAncestor(m, log, a, Previous(log, b))
  }

  /** aodbm_merge where one version is based on the other; the code has no other case. */
  function Merge(ghost m: nat, log: Bytes, a: nat, b: nat): Option<nat>
    requires VersionOK(m, log, a) && VersionOK(m, log, b)
  {
    var c := CommonAncestor(m, log, a, b);
    if c == a then Some(b) else if c == b then Some(a) else None
  }

  /** The version reached from a by going back n times; there is nothing before version 0. */
  ghost function Back(m: nat, log: Bytes, a: nat, n: nat): (b: nat)
    requires VersionOK(m, log, a)
    ensures b <= a && VersionOK(m, log, b)
    decreases n
  {
    if n == 0 || a == 0 then a else Back(m, log, Previous(log, a), n - 1)
  }

  lemma {:induction false} BackFar(m: nat, log: Bytes, a: nat) returns (n: nat)
    requires VersionOK(m, log, a)
    ensures Back(m, log, a, n) == 0
    decreases a
  {
    hide RootOK, OneChange;
    if a == 0 {
      n := 0;
    } else {
      n := BackFar(m, log, Previous(log, a));
      n := n + 1;
    }
  }

  lemma {:induction false} BasedOnReaches(m: nat, log: Bytes, a: nat, b: nat) returns (n: nat)
    requires VersionOK(m, log, a) && IsBasedOn(m, log, a, b)
    ensures Back(m, log, a, n) == b
    decreases a
  {
    hide RootOK, OneChange;
    if b == 0 {
      n := BackFar(m, log, a);
    } else if a == b {
      n := 0;
    } else {
      n := BasedOnReaches(m, log, Previous(log, a), b);
      n := n + 1;
    }
  }

  lemma {:induction false} ReachesBasedOn(m: nat, log: Bytes, a: nat, n: nat)
    requires VersionOK(m, log, a)
    ensures IsBasedOn(m, log, a, Back(m, log, a, n))
    decreases n
  {
    hide VersionOK, Previous;
    if n > 0 && a != 0 {
      StepBack(m, log, a);
      ReachesBasedOn(m, log, Previous(log, a), n - 1);
    }
  }

  lemma StepBack(m: nat, log: Bytes, a: nat)
    requires VersionOK(m, log, a) && a != 0
    ensures a + 8 <= |log| && Previous(log, a) < a && VersionOK(m, log, Previous(log, a))
  {
    hide RootOK, OneChange;
  }

  /** aodbm_is_based_on decides whether b is reached from a along the previous-version pointers. */
  lemma BasedOnIsReachability(m: nat, log: Bytes, a: nat, b: nat)
    requires VersionOK(m, log, a)
    ensures IsBasedOn(m, log, a, b) <==> exists n: nat :: Back(m, log, a, n) == b
  {
    hide VersionOK, Back, IsBasedOn;
    if IsBasedOn(m, log, a, b) {
      var n := BasedOnReaches(m, log, a, b);
    }
    if n: nat :| Back(m, log, a, n) == b {
      ReachesBasedOn(m, log, a, n);
    }
  }

  // ----- A partial order with version 0 at the bottom

  lemma {:induction false} BasedOnBelow(m: nat, log: Bytes, a: nat, b: nat)
    requires VersionOK(m, log, a) && IsBasedOn(m, log, a, b)
    ensures b <= a && VersionOK(m, log, b)
    decreases a
  {
    hide RootOK, OneChange;
    if b != 0 && a != b {
      BasedOnBelow(m, log, Previous(log, a), b);
    }
  }

  lemma {:induction false} BasedOnTransitive(m: nat, log: Bytes, a: nat, b: nat, c: nat)
    requires VersionOK(m, log, a) && VersionOK(m, log, b)
    requires IsBasedOn(m, log, a, b) && IsBasedOn(m, log, b, c)
    ensures IsBasedOn(m, log, a, c)
    decreases a
  {
    hide RootOK, OneChange;
    BasedOnBelow(m, log, b, c);
    if b != 0 && a != b {
      BasedOnTransitive(m, log, Previous(log, a), b, c);
    }
  }

  /** Being based on is reflexive, antisymmetric and transitive, and everything is based on version 0. */
  lemma BasedOnIsPartialOrder(m: nat, log: Bytes, a: nat, b: nat, c: nat)
    requires VersionOK(m, log, a) && VersionOK(m, log, b) && VersionOK(m, log, c)
    ensures IsBasedOn(m, log, a, a) && IsBasedOn(m, log, a, 0)
    ensures IsBasedOn(m, log, a, b) && IsBasedOn(m, log, b, a) ==> a == b
    ensures IsBasedOn(m, log, a, b) && IsBasedOn(m, log, b, c) ==> IsBasedOn(m, log, a, c)
  {
    hide RootOK, OneChange;
    if IsBasedOn(m, log, a, b) {
      BasedOnBelow(m, log, a, b);
      if IsBasedOn(m, log, b, a) {
        BasedOnBelow(m, log, b, a);
      }
      if IsBasedOn(m, log, b, c) {
        BasedOnTransitive(m, log, a, b, c);
      }
    }
  }

  /** aodbm_common_ancestor gives the greatest lower bound: both versions are based on it, and it is
      based on every version that both are based on. */
  lemma {:induction false} CommonAncestorIsGreatest(m: nat, log: Bytes, a: nat, b: nat, d: nat)
    requires VersionOK(m, log, a) && VersionOK(m, log, b)
    ensures var c := CommonAncestor(m, log, a, b);
      && IsBasedOn(m, log, a, c) && IsBasedOn(m, log, b, c)
      && (IsBasedOn(m, log, c, d) <==> IsBasedOn(m, log, a, d) && IsBasedOn(m, log, b, d))
    decreases a + b
  {
    hide RootOK, OneChange;
    if a != b && a != 0 && b != 0 {
      if a > b {
        CommonAncestorIsGreatest(m, log, Previous(log, a), b, d);
      } else {
        CommonAncestorIsGreatest(m, log, a, Previous(log, b), d);
      }
    }
    BasedOnIsPartialOrder(m, log, a, a, a);
    BasedOnIsPartialOrder(m, log, b, b, b);
  }

  /** A fast-forward merge gives a version on which both are based, and it is given exactly when one
      of the two is based on the other. */
  lemma MergeIsUpperBound(m: nat, log: Bytes, a: nat, b: nat)
    requires VersionOK(m, log, a) && VersionOK(m, log, b)
    ensures match Merge(m, log, a, b)
      case Some(r) => (r == a || r == b) && VersionOK(m, log, r) && IsBasedOn(m, log, r, a) && IsBasedOn(m, log, r, b)
      case None => !IsBasedOn(m, log, a, b) && !IsBasedOn(m, log, b, a)
  {
    hide RootOK, OneChange, CommonAncestor;
    var c := CommonAncestor(m, log, a, b);
    CommonAncestorIsGreatest(m, log, a, b, a);
    CommonAncestorIsGreatest(m, log, a, b, b);
    BasedOnIsPartialOrder(m, log, a, c, a);
    BasedOnIsPartialOrder(m, log, b, c, b);
    BasedOnIsPartialOrder(m, log, c, a, b);
    BasedOnIsPartialOrder(m, log, c, b, a);
  }

  // ----- What ancestry says about contents

  ghost function ApplyAll(rs: seq<Record>, cs: seq<Change>): seq<Record>
    decreases |cs|
  {
    if cs == [] then rs else Apply(ApplyAll(rs, cs[..|cs| - 1]), cs[|cs| - 1])
  }

  lemma ApplyOneMore(rs: seq<Record>, cs: seq<Change>, c: Change)
    ensures ApplyAll(rs, cs + [c]) == Apply(ApplyAll(rs, cs), c)
  {
    assert (cs + [c])[..|cs|] == cs;
  }

  /** If a is based on b then b is reached from a in as many steps as changes were made, and each
      version on the way holds the records of the one before it with one change made to them. */
  lemma {:induction false} BasedOnMeansChanged(m: nat, log: Bytes, a: nat, b: nat) returns (cs: seq<Change>)
    requires VersionOK(m, log, a) && IsBasedOn(m, log, a, b)
    ensures Back(m, log, a, |cs|) == b
    ensures forall k :: 0 <= k <= |cs| ==>
      Contents(log, Back(m, log, a, |cs| - k)) == ApplyAll(Contents(log, b), cs[..k])
    decreases a
  {
    hide VersionOK, Contents, Apply, ApplyAll, Previous, Back;
    if a == b {
      cs := [];
      BackNone(m, log, a);
      assert ApplyAll(Contents(log, b), []) == Contents(log, b) by { ApplyNone(Contents(log, b)); }
    } else {
      StepBack(m, log, a);
      var p := Previous(log, a);
      var before := BasedOnMeansChanged(m, log, p, b);
      var c := StepChange(m, log, a);
      cs := before + [c];
      BackMore(m, log, a, |before|);
      forall k | 0 <= k <= |cs|
        ensures Contents(log, Back(m, log, a, |cs| - k)) == ApplyAll(Contents(log, b), cs[..k])
      {
        if k < |cs| {
          BackMore(m, log, a, |before| - k);
          assert cs[..k] == before[..k];
        } else {
          BackNone(m, log, a);
          BackNone(m, log, p);
          assert cs[..k] == cs && before[..|before|] == before;
          ApplyOneMore(Contents(log, b), before, c);
        }
      }
    }
  }

  lemma ApplyNone(rs: seq<Record>)
    ensures ApplyAll(rs, []) == rs
  {
  }

  lemma BackNone(m: nat, log: Bytes, a: nat)
    requires VersionOK(m, log, a)
    ensures Back(m, log, a, 0) == a
  {
    hide VersionOK;
  }

  lemma BackMore(m: nat, log: Bytes, a: nat, n: nat)
    requires VersionOK(m, log, a) && a != 0
    requires a + 8 <= |log| && VersionOK(m, log, Previous(log, a))
    ensures Back(m, log, a, n + 1) == Back(m, log, Previous(log, a), n)
  {
    hide VersionOK;
  }

  /** A version holds the records of its predecessor with one change made to them. */
  lemma StepChange(m: nat, log: Bytes, a: nat) returns (c: Change)
    requires VersionOK(m, log, a) && a != 0
    ensures a + 8 <= |log| && Contents(log, a) == Apply(Contents(log, Previous(log, a)), c)
  {
    hide RootOK, Contents, Apply;
    c :| Apply(Contents(log, Previous(log, a)), c) == Contents(log, a);
  }

  /** Appending to the log changes no ancestry. */
  lemma {:induction false} BasedOnGrows(m: nat, log: Bytes, more: Bytes, a: nat, b: nat)
    requires VersionOK(m, log, a)
    ensures VersionOK(m, log + more, a)
    ensures IsBasedOn(m, log + more, a, b) == IsBasedOn(m, log, a, b)
    decreases a
  {
    hide RootOK, OneChange, TreeOf;
    VersionGrows(m, log, more, a);
    if a != 0 {
      BasedOnGrows(m, log, more, Previous(log, a), b);
    }
  }
}
