/** Changes to a sorted sequence of records: the simple map that a version stands for. */
module Records {
  import opened Bytes
  import opened Data
  import opened Format
  import opened Trees

  /** An entry of a changeset (aodbm_changeset.h); aodbm_set and aodbm_del make one change. */
  datatype Change = Modify(key: Bytes, val: Bytes) | Remove(key: Bytes)

  ghost function Put(rs: seq<Record>, k: Bytes, v: Bytes): seq<Record> {
    if rs == [] then [Record(k, v)]
    else if Rank(k) < Rank(rs[0].key) then [Record(k, v)] + rs
    else if k == rs[0].key then [Record(k, v)] + rs[1..]
    else [rs[0]] + Put(rs[1..], k, v)
  }

  ghost function Delete(rs: seq<Record>, k: Bytes): seq<Record> {
    if rs == [] then []
    else if rs[0].key == k then rs[1..]
    else [rs[0]] + Delete(rs[1..], k)
  }

  ghost function Apply(rs: seq<Record>, c: Change): seq<Record> {
    match c
    case Modify(k, v) => Put(rs, k, v)
    case Remove(k) => Delete(rs, k)
  }

  ghost function Lookup(rs: seq<Record>, k: Bytes): Option<Bytes> {
    if rs == [] then None
    else if rs[0].key == k then Some(rs[0].val)
    else Lookup(rs[1..], k)
  }

  // ----- As maps

  ghost function MapOf(rs: seq<Record>): map<Bytes, Bytes> {
    if rs == [] then map[] else MapOf(rs[1..])[rs[0].key := rs[0].val]
  }

  ghost function ApplyMap(m: map<Bytes, Bytes>, c: Change): map<Bytes, Bytes> {
    match c
    case Modify(k, v) => m[k := v]
    case Remove(k) => m - {k}
  }

  lemma {:induction false} MapOfKeys(rs: seq<Record>, k: Bytes)
    ensures k in MapOf(rs) <==> exists i :: 0 <= i < |rs| && rs[i].key == k
    ensures Lookup(rs, k) == if k in MapOf(rs) then Some(MapOf(rs)[k]) else None
  {
    if rs != [] {
      MapOfKeys(rs[1..], k);
      assert forall i :: 1 <= i < |rs| ==> rs[i] == rs[1..][i - 1];
      assert rs[0].key == k || forall i :: 0 <= i < |rs[1..]| ==> rs[1..][i] == rs[i + 1];
    }
  }

  lemma IncreasingRest(rs: seq<Record>)
    requires Increasing(rs) && rs != []
    ensures Increasing(rs[1..]) && rs[0].key !in MapOf(rs[1..])
    ensures forall k :: k in MapOf(rs[1..]) ==> Rank(rs[0].key) < Rank(k)
  {
    hide Rank;
    forall k | k in MapOf(rs[1..])
      ensures Rank(rs[0].key) < Rank(k)
    {
      MapOfKeys(rs[1..], k);
    }
  }

  lemma MapOfCons(r: Record, rs: seq<Record>)
    ensures MapOf([r] + rs) == MapOf(rs)[r.key := r.val]
  {
    assert ([r] + rs)[1..] == rs;
  }

  lemma {:induction false} PutIsUpdate(rs: seq<Record>, k: Bytes, v: Bytes)
    requires Increasing(rs)
    ensures MapOf(Put(rs, k, v)) == MapOf(rs)[k := v]
  {
    hide Rank, MapOf, Increasing;
    var it := Record(k, v);
    if rs == [] {
      MapOfCons(it, []);
      assert Put(rs, k, v) == [it] + [];
    } else {
      var head, rest := rs[0], rs[1..];
      assert rs == [head] + rest;
      IncreasingRest(rs);
      LtIsRankOrder(k, head.key);
      PutIsUpdate(rest, k, v);
      MapOfCons(head, rest);
      MapOfCons(it, rs);
      MapOfCons(it, rest);
      MapOfCons(head, Put(rest, k, v));
    }
  }

  lemma {:induction false} DeleteIsRemoval(rs: seq<Record>, k: Bytes)
    requires Increasing(rs)
    ensures MapOf(Delete(rs, k)) == MapOf(rs) - {k}
  {
    hide Rank;
    if rs != [] {
      var head, rest := rs[0], rs[1..];
      IncreasingRest(rs);
      DeleteIsRemoval(rest, k);
      assert ([head] + Delete(rest, k))[1..] == Delete(rest, k);
    }
  }

  /** On sorted records a change is the change of the map. */
  lemma ApplyIsMapChange(rs: seq<Record>, c: Change)
    requires Increasing(rs)
    ensures MapOf(Apply(rs, c)) == ApplyMap(MapOf(rs), c)
  {
    match c
    case Modify(k, v) => PutIsUpdate(rs, k, v);
    case Remove(k) => DeleteIsRemoval(rs, k);
  }

  // ----- Locality and order

  ghost predicate AllBelow(rs: seq<Record>, k: Bytes) {
    forall i :: 0 <= i < |rs| ==> Rank(rs[i].key) < Rank(k)
  }

  ghost predicate AllAbove(rs: seq<Record>, k: Bytes) {
    forall i :: 0 <= i < |rs| ==> Rank(k) < Rank(rs[i].key)
  }

  lemma ApplyBehind(r: Record, rs: seq<Record>, c: Change)
    requires Rank(r.key) < Rank(c.key)
    ensures Apply([r] + rs, c) == [r] + Apply(rs, c)
  {
    hide Rank;
    assert ([r] + rs)[1..] == rs;
  }

  lemma {:induction false} ApplyAfter(a: seq<Record>, rs: seq<Record>, c: Change)
    requires AllBelow(a, c.key)
    ensures Apply(a + rs, c) == a + Apply(rs, c)
  {
    hide Rank, Apply;
    if a == [] {
      assert a + rs == rs && a + Apply(rs, c) == Apply(rs, c);
    } else {
      var head, rest := a[0], a[1..];
      ApplyAfter(rest, rs, c);
      ApplyBehind(head, rest + rs, c);
      assert a + rs == [head] + (rest + rs);
      assert a + Apply(rs, c) == [head] + (rest + Apply(rs, c));
    }
  }

  lemma {:induction false} ApplyBefore(rs: seq<Record>, b: seq<Record>, c: Change)
    requires AllAbove(b, c.key)
    ensures Apply(rs + b, c) == Apply(rs, c) + b
  {
    hide Rank;
    if rs == [] {
      assert rs + b == b;
      if c.Remove? {
        AbsentDelete(b, c.key);
      } else if b != [] {
        assert Rank(c.key) < Rank(b[0].key);
      }
    } else {
      var head, rest := rs[0], rs[1..];
      ApplyBefore(rest, b, c);
      assert (rs + b)[0] == head && (rs + b)[1..] == rest + b;
      assert [head] + (Apply(rest, c) + b) == ([head] + Apply(rest, c)) + b;
      if c.Modify? {
        var it := [Record(c.key, c.val)];
        assert it + (rs + b) == (it + rs) + b && it + (rest + b) == (it + rest) + b;
      }
    }
  }

  /** A change only concerns the records around its key. */
  lemma ApplyLocal(a: seq<Record>, mid: seq<Record>, b: seq<Record>, c: Change)
    requires AllBelow(a, c.key) && AllAbove(b, c.key)
    ensures Apply(a + mid + b, c) == a + Apply(mid, c) + b
  {
    hide Rank, AllBelow, AllAbove;
    ApplyBefore(a + mid, b, c);
    ApplyAfter(a, mid, c);
  }

  lemma {:induction false} AbsentDelete(rs: seq<Record>, k: Bytes)
    requires forall i :: 0 <= i < |rs| ==> rs[i].key != k
    ensures Delete(rs, k) == rs
  {
    if rs != [] {
      AbsentDelete(rs[1..], k);
    }
  }

  lemma ConsSorted(r: Record, rs: seq<Record>, lo: Bytes, hi: Option<Bytes>)
    requires SortedIn(rs, lo, hi) && Le(lo, r.key) && Below(r.key, hi)
    requires rs != [] ==> Rank(r.key) < Rank(rs[0].key)
    ensures SortedIn([r] + rs, lo, hi)
  {
    hide Rank;
    var all := [r] + rs;
    assert forall i :: 1 <= i < |all| ==> all[i] == rs[i - 1];
    if rs != [] {
      assert forall i :: 0 < i < |rs| ==> Rank(rs[0].key) < Rank(rs[i].key);
    }
  }

  lemma RestSorted(rs: seq<Record>, lo: Bytes, hi: Option<Bytes>)
    requires SortedIn(rs, lo, hi) && rs != []
    ensures SortedIn(rs[1..], lo, hi)
    ensures |rs| > 1 ==> Rank(rs[0].key) < Rank(rs[1..][0].key)
  {
    hide Rank;
    assert forall i :: 0 <= i < |rs[1..]| ==> rs[1..][i] == rs[i + 1];
  }

  lemma {:induction false} PutSorted(rs: seq<Record>, k: Bytes, v: Bytes, lo: Bytes, hi: Option<Bytes>)
    requires SortedIn(rs, lo, hi) && Le(lo, k) && Below(k, hi)
    ensures SortedIn(Put(rs, k, v), lo, hi)
    ensures |rs| <= |Put(rs, k, v)| <= |rs| + 1 && Put(rs, k, v) != []
    ensures Put(rs, k, v)[0].key == if rs == [] || Rank(k) < Rank(rs[0].key) then k else rs[0].key
  {
    hide Rank;
    if rs == [] {
      ConsSorted(Record(k, v), [], lo, hi);
    } else {
      var head, rest := rs[0], rs[1..];
      assert Le(lo, head.key) && Below(head.key, hi);
      RestSorted(rs, lo, hi);
      LtIsRankOrder(k, head.key);
      if Rank(k) < Rank(head.key) {
        ConsSorted(Record(k, v), rs, lo, hi);
      } else if k == head.key {
        ConsSorted(Record(k, v), rest, lo, hi);
      } else {
        PutSorted(rest, k, v, lo, hi);
        ConsSorted(head, Put(rest, k, v), lo, hi);
      }
    }
  }

  lemma {:induction false} DeleteSorted(rs: seq<Record>, k: Bytes, lo: Bytes, hi: Option<Bytes>)
    requires SortedIn(rs, lo, hi)
    ensures SortedIn(Delete(rs, k), lo, hi)
    ensures |Delete(rs, k)| <= |rs|
    ensures Delete(rs, k) != [] ==> Rank(rs[0].key) <= Rank(Delete(rs, k)[0].key)
  {
    hide Rank;
    if rs != [] {
      RestSorted(rs, lo, hi);
      DeleteSorted(rs[1..], k, lo, hi);
      assert Le(lo, rs[0].key) && Below(rs[0].key, hi);
      if rs[0].key != k {
        ConsSorted(rs[0], Delete(rs[1..], k), lo, hi);
      }
    }
  }
}
