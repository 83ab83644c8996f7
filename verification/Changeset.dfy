/** Changesets, and applying them to a version (aodbm_changeset.c and aodbm_apply). */
module Changesets {
  import opened Bytes
  import opened Data
  import opened Format
  import opened Trees
  import opened Records
  import opened Versions
  import opened Ancestry
  import opened Log
  import opened Protocol
  import opened LinkedList
  import opened Database

  // ----- What a changeset means

  lemma {:induction false} ApplyAllAppend(rs: seq<Record>, a: seq<Change>, b: seq<Change>)
    ensures ApplyAll(rs, a + b) == ApplyAll(ApplyAll(rs, a), b)
    decreases |b|
  {
    hide Apply;
    if b == [] {
      assert a + b == a;
    } else {
      assert (a + b)[..|a + b| - 1] == a + b[..|b| - 1];
      ApplyAllAppend(rs, a, b[..|b| - 1]);
    }
  }

  ghost function ApplyAllMap(m: map<Bytes, Bytes>, cs: seq<Change>): map<Bytes, Bytes>
    decreases |cs|
  {
    if cs == [] then m else ApplyMap(ApplyAllMap(m, cs[..|cs| - 1]), cs[|cs| - 1])
  }

  lemma {:induction false} ApplyAllIsMapChange(rs: seq<Record>, cs: seq<Change>)
    requires Increasing(rs)
    ensures Increasing(ApplyAll(rs, cs)) && MapOf(ApplyAll(rs, cs)) == ApplyAllMap(MapOf(rs), cs)
    decreases |cs|
  {
    hide Increasing, ApplyMap, MapOf, Apply;
    if cs != [] {
      var c := cs[|cs| - 1];
      ApplyAllIsMapChange(rs, cs[..|cs| - 1]);
      ApplyIncreasing(ApplyAll(rs, cs[..|cs| - 1]), c);
      ApplyIsMapChange(ApplyAll(rs, cs[..|cs| - 1]), c);
    }
  }

  lemma ApplyIncreasing(rs: seq<Record>, c: Change)
    requires Increasing(rs)
    ensures Increasing(Apply(rs, c))
  {
    hide Rank, Put, Delete;
    AllLe(rs, c.key);
    match c
    case Modify(k, v) => PutSorted(rs, k, v, [], None);
    case Remove(k) => DeleteSorted(rs, k, [], None);
  }

  lemma AllLe(rs: seq<Record>, k: Bytes)
    ensures Le([], k) && forall i :: 0 <= i < |rs| ==> Le([], rs[i].key)
  {
  }

  // ----- The code

  /** aodbm_changeset_add_modify */
  method AddModify(list: List<Change>, key: Bytes, val: Bytes)
    requires list.Valid()
    modifies list.Repr
    ensures list.Valid() && fresh(list.Repr - old(list.Repr))
    ensures list.Contents() == old(list.Contents()) + [Modify(key, val)]
  {
    list.PushBack(Modify(key, val));
  }

  /** aodbm_changeset_add_remove */
  method AddRemove(list: List<Change>, key: Bytes)
    requires list.Valid()
    modifies list.Repr
    ensures list.Valid() && fresh(list.Repr - old(list.Repr))
    ensures list.Contents() == old(list.Contents()) + [Remove(key)]
  {
    list.PushBack(Remove(key));
  }

  /** aodbm_changeset_merge_di: applying the result is applying a and then b. */
  method MergeDi(a: List<Change>, b: List<Change>) returns (c: List<Change>)
    requires a.Valid() && b.Valid() && a.Repr !! b.Repr
    modifies a.Repr, b.Repr
    ensures c == a && c.Valid() && c.Contents() == old(a.Contents()) + old(b.Contents())
    ensures forall rs :: ApplyAll(rs, c.Contents()) == ApplyAll(ApplyAll(rs, old(a.Contents())), old(b.Contents()))
  {
    ghost var first, second := a.Contents(), b.Contents();
    a.Merge(b);
    c := a;
    forall rs
      ensures ApplyAll(rs, first + second) == ApplyAll(ApplyAll(rs, first), second)
    {
      ApplyAllAppend(rs, first, second);
    }
  }

  /** Each block that the changes will append fits its size field. */
  ghost predicate FitsAll(m: nat, bs: seq<Block>, v: nat, cs: seq<Change>)
    decreases |cs|
  {
    cs == [] ||
    var log, c := LogBytes(bs), cs[0];
    if NoEffect(log, v, c) then FitsAll(m, bs, v, cs[1..])
    else
      && FitsUpdate(m, log, v, c)
      && FitsAll(m, bs + [Nodes(UpdateOf(m, log, v, c).block)], UpdateOf(m, log, v, c).ver, cs[1..])
  }

  /** The body of the loop of aodbm_apply. */
  method ApplyOne(db: Db, ver: nat, change: Change, ghost rest: seq<Change>, ghost base: nat) returns (r: nat)
    requires db.Valid() && VersionOK(db.m, db.file, ver) && IsBasedOn(db.m, db.file, ver, base)
    requires FitsAll(db.m, db.blocks, ver, [change] + rest)
    modifies db
    ensures db.Valid() && old(db.file) <= db.file && db.cur == old(db.cur)
    ensures VersionOK(db.m, db.file, r) && IsBasedOn(db.m, db.file, r, base)
    ensures Contents(db.file, r) == Apply(old(Contents(db.file, ver)), change)
    ensures FitsAll(db.m, db.blocks, r, rest)
  {
    hide VersionOK, IsBasedOn, TreeOf, LogBytes, MapOf, UpdateOf, LogOK, FitsUpdate, Put, Delete, LastHead;
    ghost var was := db.file;
    assert ([change] + rest)[1..] == rest;
    match change {
      case Modify(key, val) => r := db.Set(ver, key, val);
      case Remove(key) => r := db.Del(ver, key);
    }
    BasedOnLater(db.m, was, db.file, ver, base, r);
  }

  /** aodbm_apply: makes the changes one after the other, each on the version that the one before it made. */
  method ApplyChanges(db: Db, ver: nat, list: List<Change>) returns (r: nat)
    requires db.Valid() && VersionOK(db.m, db.file, ver) && list.Valid() && db !in list.Repr
    requires FitsAll(db.m, db.blocks, ver, list.Contents())
    modifies db
    ensures db.Valid() && old(db.file) <= db.file && db.cur == old(db.cur)
    ensures VersionOK(db.m, db.file, r) && IsBasedOn(db.m, db.file, r, ver)
    ensures Contents(db.file, r) == ApplyAll(old(Contents(db.file, ver)), list.Contents())
    ensures MapOf(Contents(db.file, r)) == ApplyAllMap(old(MapOf(Contents(db.file, ver))), list.Contents())
  {
    hide VersionOK, IsBasedOn, TreeOf, Contents, ApplyMap, MapOf, FitsAll, Apply, ApplyAll, List.Valid, Db.Valid;
    ghost var rs, cs, m := Contents(db.file, ver), list.Contents(), db.m;
    ContentsSorted(m, db.file, ver);
    ApplyAllIsMapChange(rs, cs);
    BasedOnIsPartialOrder(m, db.file, ver, ver, ver);
    r := ver;
    var it := new ListIterator.Begin(list);
    var finished := it.IsFinished();
    assert cs[..0] == [];
    ApplyNone(rs);
    while !finished
      invariant it.Valid() && fresh(it) && it.list == list && list.Contents() == cs && 0 <= it.pos <= |cs|
      invariant finished <==> it.pos == |cs|
      invariant db.Valid() && old(db.file) <= db.file && db.cur == old(db.cur)
      invariant VersionOK(m, db.file, r) && IsBasedOn(m, db.file, r, ver)
      invariant Contents(db.file, r) == ApplyAll(rs, cs[..it.pos])
      invariant FitsAll(m, db.blocks, r, cs[it.pos..])
      decreases if finished then 0 else |cs| + 1 - it.pos
    {
      var change := it.Get();
      ghost var i := it.pos;
      NextChange(rs, cs, i);
      r := ApplyOne(db, r, change, cs[i + 1..], ver);
      it.Next();
      finished := it.IsFinished();
    }
    assert cs[..it.pos] == cs;
  }

  lemma NextChange(rs: seq<Record>, cs: seq<Change>, i: nat)
    requires i < |cs|
    ensures cs[i..] == [cs[i]] + cs[i + 1..]
    ensures ApplyAll(rs, cs[..i + 1]) == Apply(ApplyAll(rs, cs[..i]), cs[i])
  {
    assert cs[..i + 1][..i] == cs[..i];
  }

  lemma BasedOnLater(m: nat, log: Bytes, log': Bytes, from: nat, ver: nat, r: nat)
    requires VersionOK(m, log, from) && IsBasedOn(m, log, from, ver) && log <= log'
    requires VersionOK(m, log', from) && VersionOK(m, log', r) && IsBasedOn(m, log', r, from)
    ensures IsBasedOn(m, log', r, ver)
  {
    hide VersionOK, IsBasedOn;
    assert log' == log + log'[|log|..];
    BasedOnGrows(m, log, log'[|log|..], from, ver);
    BasedOnTransitive(m, log', r, from, ver);
  }
}
