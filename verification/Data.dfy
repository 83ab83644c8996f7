/** Keys and values: their order and the big-endian integers (aodbm_data.c). */
module Data {
  import opened Bytes

  // ----- The order on keys

  /** The value of a plain char that holds b, on machines where char is signed.  OrderOfKeys says which
      order of keys it gives; the other results need only that it is injective. */
  function CharValue(b: byte): int {
    if b < 128 then b else b - 256
  }

  /** The documented order: a shorter key is less; keys of one length are compared at the
      first byte at which they differ. */
  ghost predicate Lt(a: Bytes, b: Bytes) {
    |a| < |b| || (|a| == |b| && exists p :: FirstDifference(a, b, p) && CharValue(a[p]) < CharValue(b[p]))
  }

  ghost predicate FirstDifference(a: Bytes, b: Bytes, p: int) {
    0 <= p < |a| && p < |b| && a[..p] == b[..p] && a[p] != b[p]
  }

  /** The number of keys that precede a: the bijective numeral, in base 256, whose digits are a's bytes. */
  ghost function Rank(a: Bytes): nat {
    if a == [] then 0 else Rank(a[..|a| - 1]) * 256 + CharValue(a[|a| - 1]) + 129
  }

  ghost predicate Le(a: Bytes, b: Bytes) {
    Rank(a) <= Rank(b)
  }

  /** The rank of the first key of length n. */
  ghost function FirstRank(n: nat): nat {
    if n == 0 then 0 else FirstRank(n - 1) * 256 + 1
  }

  lemma {:induction false} RankRange(a: Bytes)
    ensures FirstRank(|a|) <= Rank(a) < FirstRank(|a| + 1)
  {
    if a != [] {
      RankRange(a[..|a| - 1]);
    }
  }

  lemma {:induction false} FirstRankMonotone(m: nat, n: nat)
    requires m <= n
    ensures FirstRank(m) <= FirstRank(n)
    decreases n
  {
    if m < n {
      FirstRankMonotone(m, n - 1);
    }
  }

  lemma {:induction false} RankInjective(a: Bytes, b: Bytes)
    requires Rank(a) == Rank(b)
    ensures a == b
  {
    if a != [] && b != [] {
      RankInjective(a[..|a| - 1], b[..|b| - 1]);
      assert a == a[..|a| - 1] + [a[|a| - 1]];
      assert b == b[..|b| - 1] + [b[|b| - 1]];
    }
  }

  lemma {:induction false} RankAtDifference(a: Bytes, b: Bytes, p: int)
    requires |a| == |b| && FirstDifference(a, b, p)
    ensures Rank(a) < Rank(b) <==> CharValue(a[p]) < CharValue(b[p])
    ensures Rank(a) != Rank(b)
  {
    var n := |a| - 1;
    if p == n {
      assert a[..n] == b[..n];
    } else {
      assert a[..n][..p] == a[..p] && b[..n][..p] == b[..p];
      RankAtDifference(a[..n], b[..n], p);
    }
  }

  lemma {:induction false} SameOrDifferent(a: Bytes, b: Bytes) returns (p: int)
    requires |a| == |b|
    ensures a == b || FirstDifference(a, b, p)
  {
    p := 0;
    while p < |a| && a[p] == b[p]
      invariant 0 <= p <= |a| && a[..p] == b[..p]
    {
      p := p + 1;
    }
  }

  /** The documented order is the order of the ranks, so it is total and has the empty key at the bottom. */
  lemma {:induction false} LtIsRankOrder(a: Bytes, b: Bytes)
    ensures Lt(a, b) <==> Rank(a) < Rank(b)
    ensures Rank(a) == Rank(b) <==> a == b
  {
    RankRange(a);
    RankRange(b);
    if |a| < |b| {
      FirstRankMonotone(|a| + 1, |b|);
    } else if |b| < |a| {
      FirstRankMonotone(|b| + 1, |a|);
    } else {
      var p := SameOrDifferent(a, b);
      if a != b {
        RankAtDifference(a, b, p);
        forall q | FirstDifference(a, b, q) && CharValue(a[q]) < CharValue(b[q])
          ensures Rank(a) < Rank(b)
        {
          RankAtDifference(a, b, q);
        }
      }
    }
    if Rank(a) == Rank(b) {
      RankInjective(a, b);
    }
  }

  /** The order, spelled out: a shorter key comes first.  Of two keys of one length, the first byte in
      which they differ decides: the lesser one comes first if both are below 128 or neither is, and
      otherwise the one that is not. */
  lemma OrderOfKeys(a: Bytes, b: Bytes, p: nat)
    ensures |a| < |b| ==> Lt(a, b) && Rank(a) < Rank(b)
    ensures |a| == |b| && p < |a| && a[..p] == b[..p] && a[p] != b[p] ==>
      var first := if a[p] < 128 <==> b[p] < 128 then a[p] < b[p] else a[p] >= 128;
      (Lt(a, b) <==> first) && (Rank(a) < Rank(b) <==> first)
    ensures !Lt(a, a)
  {
    hide Rank;
    LtIsRankOrder(a, b);
    LtIsRankOrder(a, a);
    if |a| == |b| && p < |a| && a[..p] == b[..p] && a[p] != b[p] {
      RankAtDifference(a, b, p);
    }
  }

  lemma EmptyIsLeast(k: Bytes)
    ensures Le([], k)
  {
  }

  /** aodbm_data_lt */
  method DataLt(a: Bytes, b: Bytes) returns (lt: bool)
    ensures lt <==> Lt(a, b)
    ensures lt <==> Rank(a) < Rank(b)
  {
    LtIsRankOrder(a, b);
    if |a| < |b| {
      return true;
    } else if |a| > |b| {
      return false;
    }
    var p := 0;
    while p < |a|
      invariant 0 <= p <= |a|
      invariant a[..p] == b[..p]
    {
      if CharValue(a[p]) < CharValue(b[p]) {
        assert FirstDifference(a, b, p);
        return true;
      }
      if CharValue(a[p]) > CharValue(b[p]) {
        assert FirstDifference(a, b, p);
        RankAtDifference(a, b, p);
        return false;
      }
      p := p + 1;
    }
    assert a == b;
    return false;
  }

  /** aodbm_data_le */
  method DataLe(a: Bytes, b: Bytes) returns (le: bool)
    ensures le <==> Le(a, b)
  {
    var gt := DataLt(b, a);
    return !gt;
  }

  /** aodbm_data_eq */
  method DataEq(a: Bytes, b: Bytes) returns (eq: bool)
    ensures eq <==> a == b
  {
    if |a| != |b| {
      return false;
    }
    var i := 0;
    while i < |a|
      invariant 0 <= i <= |a|
      invariant a[..i] == b[..i]
    {
      if a[i] != b[i] {
        return false;
      }
      i := i + 1;
    }
    return true;
  }

  /** aodbm_data_cmp: 0, -1 or 1 as a is equal to, before or after b. */
  method DataCmp(a: Bytes, b: Bytes) returns (c: int)
    ensures c == if a == b then 0 else if Rank(a) < Rank(b) then -1 else 1
    ensures c == 0 <==> Rank(a) == Rank(b)
    ensures c == -1 <==> Rank(a) < Rank(b)
    ensures c == 1 <==> Rank(a) > Rank(b)
  {
    LtIsRankOrder(a, b);
    var eq := DataEq(a, b);
    if eq {
      return 0;
    }
    var lt := DataLt(a, b);
    if lt {
      return -1;
    }
    return 1;
  }

  // ----- Integers as bytes, most significant first

  /** The low w bytes of n. */
  function EncBE(n: nat, w: nat): (b: Bytes)
    ensures |b| == w
  {
    if w == 0 then [] else EncBE(n / 256, w - 1) + [n % 256]
  }

  function DecBE(b: Bytes): nat {
    if b == [] then 0 else DecBE(b[..|b| - 1]) * 256 + b[|b| - 1]
  }

  ghost function Pow256(w: nat): nat {
    if w == 0 then 1 else 256 * Pow256(w - 1)
  }

  lemma {:induction false} DecEnc(n: nat, w: nat)
    requires n < Pow256(w)
    ensures DecBE(EncBE(n, w)) == n
  {
    if w > 0 {
      DecEnc(n / 256, w - 1);
      assert EncBE(n, w)[..w - 1] == EncBE(n / 256, w - 1);
    }
  }

  lemma {:induction false} EncDec(b: Bytes)
    ensures DecBE(b) < Pow256(|b|)
    ensures EncBE(DecBE(b), |b|) == b
  {
    if b != [] {
      EncDec(b[..|b| - 1]);
      assert b == b[..|b| - 1] + [b[|b| - 1]];
    }
  }

  /** aodbm_data_from_32 */
  function Enc32(n: nat): (b: Bytes)
    ensures |b| == 4
    ensures n < TWO_32 ==> Dec32(b) == n
  {
    assert n < TWO_32 ==> DecBE(EncBE(n, 4)) == n by {
      assert Pow256(4) == TWO_32;
      if n < TWO_32 { DecEnc(n, 4); }
    }
    EncBE(n, 4)
  }

  /** ntohl of four bytes read */
  function Dec32(b: Bytes): (n: nat)
    requires |b| == 4
  {
    DecBE(b)
  }

  /** aodbm_data_from_64 */
  function Enc64(n: nat): (b: Bytes)
    ensures |b| == 8
    ensures n < TWO_64 ==> Dec64(b) == n
  {
    assert n < TWO_64 ==> DecBE(EncBE(n, 8)) == n by {
      assert Pow256(8) == TWO_64;
      if n < TWO_64 { DecEnc(n, 8); }
    }
    EncBE(n, 8)
  }

  /** ntohll of eight bytes read */
  function Dec64(b: Bytes): (n: nat)
    requires |b| == 8
  {
    DecBE(b)
  }

  /** Of two numbers of one length the first byte in which they differ decides. */
  lemma {:induction false} FirstByteDecides(a: Bytes, b: Bytes, p: nat)
    requires |a| == |b| && p < |a| && a[..p] == b[..p] && a[p] != b[p]
    ensures DecBE(a) < DecBE(b) <==> a[p] < b[p]
    ensures DecBE(a) != DecBE(b)
  {
    var n := |a| - 1;
    if p == n {
      assert a[..n] == b[..n];
    } else {
      assert a[..n][..p] == a[..p] && b[..n][..p] == b[..p];
      FirstByteDecides(a[..n], b[..n], p);
    }
  }

  /** The number in the four bytes at pos, most significant first. */
  function U32(log: Bytes, pos: nat): nat
    requires pos + 4 <= |log|
  {
    (log[pos] as nat) * 0x100_0000 + (log[pos + 1] as nat) * 0x1_0000 + (log[pos + 2] as nat) * 0x100 + log[pos + 3]
  }

  /** The number in the eight bytes at pos, most significant first. */
  function U64(log: Bytes, pos: nat): nat
    requires pos + 8 <= |log|
  {
    U32(log, pos) * 0x1_0000_0000 + U32(log, pos + 4)
  }

  lemma DecNext(b: Bytes, n: nat)
    requires n < |b|
    ensures DecBE(b[..n + 1]) == DecBE(b[..n]) * 256 + b[n]
  {
    assert b[..n + 1][..n] == b[..n];
  }

  lemma Dec32IsU32(b: Bytes)
    requires |b| >= 4
    ensures DecBE(b[..4]) == U32(b, 0)
  {
    hide DecBE;
    NoDigits(b);
    DecNext(b, 0);
    DecNext(b, 1);
    DecNext(b, 2);
    DecNext(b, 3);
  }

  lemma NoDigits(b: Bytes)
    ensures DecBE(b[..0]) == 0
  {
  }

  lemma Dec64IsU64(b: Bytes)
    requires |b| == 8
    ensures DecBE(b) == U64(b, 0)
  {
    hide DecBE;
    Dec32IsU32(b);
    DecNext(b, 4);
    DecNext(b, 5);
    DecNext(b, 6);
    DecNext(b, 7);
    assert b[..8] == b;
  }

  /** The encoders write the most significant byte first. */
  lemma Enc32IsU32(n: nat)
    requires n < TWO_32
    ensures U32(Enc32(n), 0) == n
  {
    hide Enc32;
    Dec32IsU32(Enc32(n));
    assert Enc32(n)[..4] == Enc32(n);
  }

  lemma Enc64IsU64(n: nat)
    requires n < TWO_64
    ensures U64(Enc64(n), 0) == n
  {
    hide Enc64;
    Dec64IsU64(Enc64(n));
  }

  /** The readers and the encoders are inverse in the other direction too. */
  lemma Enc32Dec32(b: Bytes)
    requires |b| == 4
    ensures Dec32(b) < TWO_32 && Enc32(Dec32(b)) == b
  {
    assert Pow256(4) == TWO_32;
    EncDec(b);
  }

  lemma Enc64Dec64(b: Bytes)
    requires |b| == 8
    ensures Dec64(b) < TWO_64 && Enc64(Dec64(b)) == b
  {
    assert Pow256(8) == TWO_64;
    EncDec(b);
  }
}
