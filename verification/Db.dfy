/** The database handle (struct aodbm): opening, set, delete and commit on the bytes of the file. */
module Database {
  import opened Bytes
  import opened Data
  import opened Format
  import opened Records
  import opened Versions
  import opened Ancestry
  import opened Log
  import opened OnDisk
  import opened Protocol
  import Search
  import Updates

  class Db {
    const m: nat  // MAX_NODE_SIZE
    var file: Bytes
    var fileSize: nat
    var cur: nat
    ghost var blocks: seq<Block>

    ghost predicate Valid()
      reads this
    {
      && m >= 4 && m % 2 == 0 && m < TWO_32
      && file == LogBytes(blocks) && fileSize == |file| && cur == LastHead(blocks)
      && LogOK(m, blocks)
    }

    /** aodbm_open of a file that holds the first bytes of a log, all of it or what a crash left. */
    constructor Open(m: nat, bytes: Bytes, ghost written: seq<Block>)
      requires m >= 4 && m % 2 == 0 && m < TWO_32
      requires LogOK(m, written) && bytes <= LogBytes(written)
      ensures Valid() && this.m == m
      ensures blocks == written[..WholeBlocks(written, |bytes|)]
      ensures Step(m, written, Crash(|bytes|), blocks)
    {
      hide LogBytes, LogOK, Recovered, LastHead;
      this.m := m;
      LogFits(m, written);
      TornLogRecovers(written, |bytes|);
      var ok, f, size, version, bs := Recover(bytes);
      assert LogBytes(written)[..|bytes|] == bytes;
      RecoveredUnique(bytes, bs, written[..WholeBlocks(written, |bytes|)]);
      CrashAtomic(m, written, |bytes|, bs);
      file, fileSize, cur, blocks := f, size, version, bs;
    }

    /** aodbm_current */
    method Current() returns (ver: nat)
      requires Valid()
      ensures ver == cur && VersionOK(m, file, ver)
    {
      hide LogBytes, LogOK, VersionOK, LastHead, IsBasedOn;
      HeadsChain(m, blocks, 0);
      return cur;
    }

    /** aodbm_write_bytes */
    method WriteBytes(b: Bytes)
      modifies `file, `fileSize
      ensures file == old(file) + b && fileSize == old(fileSize) + |b|
    {
      file := file + b;
      fileSize := fileSize + |b|;
    }

    /** aodbm_write_data_block */
    method WriteDataBlock(data: Bytes)
      requires Valid() && |data| < TWO_32
      modifies `file, `fileSize, `blocks
      ensures Valid() && blocks == old(blocks) + [Nodes(data)] && old(file) <= file
      ensures var n := |old(file)|; |file| == n + 5 + |data| && file[n] == 'd' as int && DataAt(file, n + 1, data)
    {
      hide LogBytes, LogOK, LastHead, Enc32, DataAt;
      BlockOnDisk(file, Nodes(data));
      WriteBytes([NODES]);
      WriteBytes(Enc32(|data|));
      WriteBytes(data);
      LogOKExtend(m, blocks, Nodes(data));
      LogGrows(blocks, Nodes(data));
      HeadAfter(blocks, Nodes(data));
      blocks := blocks + [Nodes(data)];
    }

    /** aodbm_write_version */
    method WriteVersion(ver: nat)
      modifies `file, `fileSize
      ensures file == old(file) + Encode(Head(ver)) && fileSize == old(fileSize) + |Encode(Head(ver))|
      ensures var n := |old(file)|;
        |file| == n + 9 && file[n] == 'v' as int && (ver < TWO_64 ==> NumberAt(file, n + 1, ver))
    {
      hide Enc64, NumberAt;
      if ver < TWO_64 {
        BlockOnDisk(file, Head(ver));
      }
      WriteBytes([HEAD]);
      WriteBytes(Enc64(ver));
    }

    /** aodbm_commit: makes version current if it is based on the current version. */
    method Commit(version: nat) returns (result: bool)
      requires Valid() && VersionOK(m, file, version) && |file| + 9 <= TWO_64
      modifies this
      ensures Valid() && Step(m, old(blocks), Action.Commit(version), blocks)
      ensures result == IsBasedOn(m, old(file), version, old(cur))
      ensures cur == if result then version else old(cur)
      ensures old(file) <= file && (!result ==> file == old(file))
      ensures result ==>
        var n := |old(file)|; |file| == n + 9 && file[n] == 'v' as int && NumberAt(file, n + 1, version)
    {
      hide LogBytes, LogOK, VersionOK, LastHead, IsBasedOn, Encode, NumberAt;
      result := IsBasedOn(m, file, version, cur);
      if result {
        VersionInside(m, file, version);
        LogOKExtend(m, blocks, Head(version));
        LogGrows(blocks, Head(version));
        HeadAfter(blocks, Head(version));
        WriteVersion(version);
        cur := version;
        blocks := blocks + [Head(version)];
      }
    }

    /** aodbm_set */
    method Set(ver: nat, key: Bytes, val: Bytes) returns (r: nat)
      requires Valid() && VersionOK(m, file, ver) && FitsUpdate(m, file, ver, Modify(key, val))
      modifies `file, `fileSize, `blocks
      ensures Valid() && Step(m, old(blocks), Make(ver, Modify(key, val)), blocks)
      ensures old(file) <= file && cur == old(cur) && VersionOK(m, file, ver)
      ensures r == UpdateOf(m, old(file), ver, Modify(key, val)).ver && r > |old(file)|
      ensures VersionOK(m, file, r) && Previous(file, r) == ver && IsBasedOn(m, file, r, ver)
      ensures Contents(file, r) == Put(old(Contents(file, ver)), key, val)
      ensures MapOf(Contents(file, r)) == old(MapOf(Contents(file, ver)))[key := val]
      ensures LastBlockAt(file, |old(file)|) && VersionAt(file, r, ver)
    {
      hide LogBytes, LogOK, VersionOK, IsBasedOn, LastHead, UpdateOf, Contents, Put, MapOf, U32, U64, TreeOf;
      var dat;
      dat, r := Updates.SetUpdate(m, file, fileSize, ver, key, val);
      MakeCorrect(m, blocks, ver, Modify(key, val));
      VersionKept(m, blocks, Nodes(dat), ver);
      WriteDataBlock(dat);
      VersionOnDisk(m, file, r);
    }

    /** aodbm_del */
    method Del(ver: nat, key: Bytes) returns (r: nat)
      requires Valid() && VersionOK(m, file, ver)
      requires Lookup(Contents(file, ver), key).Some? ==> FitsUpdate(m, file, ver, Remove(key))
      modifies `file, `fileSize, `blocks
      ensures Valid() && Step(m, old(blocks), Make(ver, Remove(key)), blocks)
      ensures old(file) <= file && cur == old(cur) && VersionOK(m, file, ver)
      ensures VersionOK(m, file, r) && IsBasedOn(m, file, r, ver)
      ensures if old(Lookup(Contents(file, ver), key)) == None then r == ver && file == old(file)
              else r == UpdateOf(m, old(file), ver, Remove(key)).ver && r > |old(file)| && Previous(file, r) == ver
      ensures Contents(file, r) == Delete(old(Contents(file, ver)), key)
      ensures MapOf(Contents(file, r)) == old(MapOf(Contents(file, ver))) - {key}
      ensures r != ver ==> LastBlockAt(file, |old(file)|) && VersionAt(file, r, ver)
    {
      hide LogBytes, LogOK, VersionOK, IsBasedOn, LastHead, UpdateOf, Contents, Delete, MapOf, U32, U64, TreeOf;
      BasedOnIsPartialOrder(m, file, ver, ver, ver);
      AbsentKey(Contents(file, ver), key);
      if ver == 0 {
        EmptyContents(file);
        return 0;
      }
      var has := Search.HasKey(m, file, ver, key);
      if !has {
        return ver;
      }
      var dat;
      dat, r := Updates.DelUpdate(m, file, fileSize, ver, key);
      MakeCorrect(m, blocks, ver, Remove(key));
      VersionKept(m, blocks, Nodes(dat), ver);
      WriteDataBlock(dat);
      VersionOnDisk(m, file, r);
    }
  }

  lemma LogFits(m: nat, bs: seq<Block>)
    requires LogOK(m, bs)
    ensures FitsBlocks(bs)
  {
  }

  lemma VersionKept(m: nat, bs: seq<Block>, b: Block, v: nat)
    requires VersionOK(m, LogBytes(bs), v)
    ensures VersionOK(m, LogBytes(bs + [b]), v)
  {
    hide LogBytes, Encode, VersionOK;
    LogGrows(bs, b);
    VersionGrows(m, LogBytes(bs), Encode(b), v);
  }

  lemma {:induction false} AbsentKey(rs: seq<Record>, k: Bytes)
    ensures Lookup(rs, k) == None ==> Delete(rs, k) == rs && MapOf(rs) - {k} == MapOf(rs)
  {
    MapOfKeys(rs, k);
    if Lookup(rs, k) == None {
      forall i | 0 <= i < |rs|
        ensures rs[i].key != k
      {
        MapOfKeys(rs, rs[i].key);
      }
      AbsentDelete(rs, k);
    }
  }
}
