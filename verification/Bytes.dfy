/** Byte strings, and what it means for a byte string to lie at a position of a larger one. */
module Bytes {
  type byte = x: int | 0 <= x < 256
  type Bytes = seq<byte>

  datatype Option<+T> = None | Some(value: T)

  const TWO_32: nat := 0x1_0000_0000
  const TWO_64: nat := 0x1_0000_0000_0000_0000

  /** b lies in file at position pos. */
  ghost predicate At(file: Bytes, pos: nat, b: Bytes) {
    pos + |b| <= |file| && file[pos..pos + |b|] == b
  }

  lemma AtSplit(file: Bytes, pos: nat, a: Bytes, b: Bytes)
    ensures At(file, pos, a + b) <==> At(file, pos, a) && At(file, pos + |a|, b)
  {
    if pos + |a| + |b| <= |file| {
      var whole := file[pos..pos + |a| + |b|];
      assert whole[..|a|] == file[pos..pos + |a|];
      assert whole[|a|..] == file[pos + |a|..pos + |a| + |b|];
      assert whole == whole[..|a|] + whole[|a|..];
      assert (a + b)[..|a|] == a && (a + b)[|a|..] == b;
    }
  }

  /** Bytes already in a file stay where they are when the file grows at its end. */
  lemma AtGrows(file: Bytes, more: Bytes, pos: nat, b: Bytes)
    requires At(file, pos, b)
    ensures At(file + more, pos, b)
  {
    assert (file + more)[pos..pos + |b|] == file[pos..pos + |b|];
  }

  lemma AtNothing(file: Bytes, pos: nat)
    requires pos <= |file|
    ensures At(file, pos, [])
  {
  }
}
