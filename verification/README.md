# A verified model of aodbm

aodbm keeps every version of an ordered key/value map in one append-only file.
A version is a B+ tree whose nodes lie in the file; `aodbm_set` and `aodbm_del`
append one block that holds the nodes on the path to the key, rebuilt, with the
new root last, and share all other nodes with the version they started from.
`aodbm_commit` appends a block that names the version that is now current.
`aodbm_open` scans the blocks and cuts off one that a crash left incomplete.

The project models the database on the bytes of its file, and relates three
descriptions of it.

* The simple description: a version is a sequence of records in increasing
  order of key, or the map these records make (`Records.dfy`).
* The tree: `Decode` reads the tree at an offset of an arbitrary file, and is
  total because children lie before their parents; `WF` says what shape a tree
  has; `EditTree` says, as a recursive function, which nodes one change rebuilds
  and where they go (`Tree.dfy`, `Edit.dfy`, `Layout.dfy`, `Versions.dfy`), and `OnDisk.dfy` says byte by
  byte how it lies in the file.
* The code: the loops, ropes, path stacks, iterators, lists and the database
  handle, as methods and classes that update their fields, each proved to give
  what the tree description says (`LeafOps.dfy`, `BranchOps.dfy`, `Search.dfy`,
  `Updates.dfy`, `Db.dfy`, `Iterator.dfy`, `Rope.dfy`, `List.dfy`,
  `Changeset.dfy`).

Whole runs, with any number of clients and with crashes after any byte of the
file, are in `Log.dfy`, `Protocol.dfy` and `History.dfy`; ancestry of versions in
`Ancestry.dfy`; the cost of an update in `Sharing.dfy`; the read/write lock, for
any number of threads, in `RwLock.dfy`.

The file is a sequence of bytes that `Db` reassigns; functions that only read
the database take it as the value `log`. `MAX_NODE_SIZE` is a parameter `m`,
even and at least 4, as aodbm.c:20-22 demands. Ghost parameters name the tree,
the records or the slots that are stored where a function reads.  Most results
are about numbers that are versions of a file (`VersionOK`): 0 is one in every
file, and `UpdateCorrect` proves that what a set or delete of a version returns
is one again.

## Where the code and its descriptions differ

* `aodbm_iterator_goto` and `aodbm_iterate_from` do not check for version 0
  (aodbm.c:1003). `Goto` and `IterateFrom` demand `ver != 0`, and
  `SeekNeedsVersion` proves that this is exactly when there is a node to start
  from: in every state of every run the ninth byte of the file is 0.
* `aodbm_list_insert` behind the last item leaves `tail` where it was
  (aodbm_list.c:209-217). `ListIterator.Insert` proves that the list stays well
  formed if and only if the list was empty or the position was not the last.
* `aodbm_set` ends by taking its mutex again (aodbm.c:704). The model treats
  set, del and commit as single steps and says nothing about this mutex.
* Two branches assign where a comparison is meant (aodbm.c:649 and 1125). They
  differ only for a node or change of an unknown kind, which no well-formed
  file or changeset has.
* Putting a key into a full leaf splits the leaf even when the key is already
  there (aodbm.c:326-348); the model does the same.
* README promises "the lexicographic ordering" of keys of equal length;
  aodbm.c compares plain `char`s, which on most machines are signed, so that
  bytes from 128 on come first. `Data.OrderOfKeys` states the order of the
  code, and keys of bytes below 128 are in lexicographic order. The other
  results need only that the order is total and has the empty key at the bottom.
* README speaks of known bugs in the delete function. Within the limits named
  under "Left out", deletion is proved to remove exactly its key, including
  when an emptied leaf takes branches above it away.

## Model

| member | source | states |
|---|---|---|
| `Data.LtIsRankOrder` | aodbm_data.c:78-93 | the documented order (shorter first, then first difference) is the order of the numbers of keys that precede each key, so it is total and strict |
| `Data.OrderOfKeys` | aodbm_data.c:78-93 | a shorter key comes first; of two keys of one length the first differing byte decides, the lesser first if both or neither are below 128, else the one that is not |
| `Data.DataLt` | aodbm_data.c:78-93 | the length test and the byte loop decide that order |
| `Data.DataLe` | aodbm_data.c:95-101 | decides its reflexive closure |
| `Data.DataEq` | aodbm_data.c:107-118 | the byte loop decides equality |
| `Data.DataCmp` | aodbm_data.c:120-128 | 0, -1 and 1 exactly for equal, before and after |
| `Data.Enc32` | aodbm_data.c:61-64 | four bytes from which a 32-bit number is read back |
| `Data.Enc32IsU32` | aodbm_data.c:61-64 | they are its digits in base 256, most significant first |
| `Data.Enc64` | aodbm_data.c:66-69 | eight bytes from which a 64-bit number is read back |
| `Data.Enc64IsU64` | aodbm_data.c:66-69 | they are its digits in base 256, most significant first |
| `Data.FirstByteDecides` | aodbm_data.c:61-69 | of two encoded numbers of one length the first differing byte decides which is less |
| `Data.DecEnc` | aodbm_data.c:61-69 | decoding undoes encoding at every width that is wide enough |
| `Data.Enc32Dec32` | aodbm_internal.c:218-222 | encoding undoes decoding of any four bytes |
| `Data.Enc64Dec64` | aodbm_internal.c:224-228 | encoding undoes decoding of any eight bytes |
| `RopeStructure.Rope.constructor` | aodbm_rope.c:50-56 | a rope of one piece spells that piece |
| `RopeStructure.Rope.Empty` | aodbm_rope.c:62-64 | the empty rope spells nothing |
| `RopeStructure.Rope.Two` | aodbm_rope.c:136-140 | a rope of two pieces spells them in order |
| `RopeStructure.Rope.Append` | aodbm_rope.c:109-113 | adds bytes behind what the linked nodes spell |
| `RopeStructure.Rope.Prepend` | aodbm_rope.c:115-119 | adds bytes before it |
| `RopeStructure.Rope.Merge` | aodbm_rope.c:129-134 | linking two disjoint ropes spells one after the other, without new nodes |
| `RopeStructure.Rope.Size` | aodbm_rope.c:66-73 | the walk over the nodes gives the length of what is spelled |
| `RopeStructure.Rope.ToData` | aodbm_rope.c:75-90 | the filled buffer is what is spelled |
| `Format.ReadDataIff` | aodbm_internal.c:230-237 | a byte string is read at a position exactly when its block is written there |
| `Format.ParseRecordsIff` | aodbm.c:216-226 | n records are read in a row exactly when their bytes lie there |
| `Format.ParseSlotsIff` | aodbm.c:500-504 | n (key, offset) pairs are read in a row exactly when their bytes lie there |
| `Format.ParseLeafIff` | aodbm_internal.c:78-88 | a leaf is read exactly where its bytes are |
| `Format.ParseBranchIff` | aodbm_internal.c:78-88 | a branch, whose first child has no key, is read exactly where its bytes are |
| `Format.ParseNodeIff` | aodbm_internal.c:78-88 | reading a node undoes writing it, in both directions, on every file |
| `Format.RecordAt` | aodbm.c:826-830 | a loop over a leaf finds record i behind the first i records |
| `Format.SlotAt` | aodbm_internal.c:252-262 | a loop over a branch finds child i behind the children before it |
| `Trees.DecodeSound` | aodbm_internal.c:239-267 | what is read as a tree is stored, node by node |
| `Trees.DecodeComplete` | aodbm_internal.c:239-267 | what is stored is read |
| `Trees.DecodeIff` | aodbm_internal.c:78-88 | a tree is read at an offset if and only if it is stored there |
| `Trees.StoredGrows` | aodbm_internal.c:128-133 | appending bytes leaves every stored tree stored |
| `Trees.FlatSorted` | README:101-107 | the records of a well-formed tree are in strictly increasing order, within its bounds, and not empty |
| `Trees.KeysIncrease` | aodbm.c:506-524 | the separators of a branch increase strictly and stay below its upper bound |
| `Trees.KidsDiffer` | aodbm.c:526-530 | different children of a branch have different offsets |
| `Records.MapOfKeys` | aodbm.c:818-843 | looking a key up in the records is looking it up in the map |
| `Records.ApplyIsMapChange` | aodbm.h:52-54 | putting or deleting a record in sorted records is the update or removal in the map |
| `Records.PutSorted` | aodbm.c:237-310 | putting a record keeps the order and bounds, and the length grows by one at most |
| `Records.DeleteSorted` | aodbm.c:370-414 | deleting a key keeps the order and bounds |
| `Records.ApplyLocal` | aodbm.c:650-692 | a change does not concern the records before and after the place of its key |
| `Edit.EditLeafShape` | aodbm.c:320-414 | a changed leaf gives at most two well-formed leaves, none empty, holding exactly the changed records; a removal gives at most one |
| `Edit.SplitLeafShape` | aodbm.c:326-348 | halving a full leaf before the record goes in keeps the order and the contents |
| `Edit.LeafSplits` | aodbm.c:326-364 | a set splits a leaf exactly when it holds m records, after m / 2 of them, and which half gets the record; every key given to the parent is the first of its leaf |
| `Edit.BranchSplits` | aodbm.c:445-451 | a branch is split exactly when it would have m children, after m / 2 of them |
| `Edit.SpliceShape` | aodbm.c:492-538 | replacing a child by zero, one or two subtrees changes only its records and keeps all separators in order |
| `Edit.SplitPartsShape` | aodbm.c:541-562 | up to m children make one branch of fewer than m, or two halves, or none |
| `Edit.KidShape` | aodbm_internal.c:252-266 | the child the search picks has bounds that contain the key |
| `Edit.ChangeBelow` | aodbm.c:650-692 | changing the records of that child is changing the records of the branch |
| `Edit.PlaceShape` | aodbm.c:667-679 | giving rebuilt nodes their offsets changes neither order nor contents |
| `Edit.EditShape` | aodbm.c:650-692 | a change of a well-formed tree makes exactly that change in its records and gives at most two well-formed trees of the same height; a set at least one, a removal at most one |
| `Layout.WriteNode` | aodbm.c:667-671 | a node appended to a file that stores its children is stored at the old end of the file |
| `Layout.WriteParts` | aodbm.c:667-679 | nodes appended one after the other are stored at the offsets computed for them |
| `Layout.EditLeafReady` | aodbm.c:320-414 | rebuilt leaves fit their size fields |
| `Layout.EditBranchReady` | aodbm.c:667-689 | the offsets in a rebuilt branch are where its children land |
| `Layout.EditReady` | aodbm.c:650-692 | this holds all the way up the path, starting five bytes behind the end of the file |
| `Versions.ContentsSorted` | README:101-107 | the records of every version are sorted |
| `Versions.VersionGrows` | aodbm_internal.c:128-159 | appending changes no version: not its tree, its records or its ancestry |
| `Versions.RootShape` | aodbm.c:571-621 | what becomes the root is a well-formed tree over all keys, or an empty leaf, with exactly the changed records |
| `Versions.LayRoot` | aodbm.c:577-618 | the root lies eight bytes behind the returned version, and the number of the version it was made from lies between |
| `Versions.UpdateStored` | aodbm.c:630-701 | after the block is appended the whole new tree is stored, at the offset the returned version names |
| `Versions.UpdateCorrect` | aodbm.c:623-790 | for every version of every log and every change: the returned number is a version, reading it back from the file gives a well-formed tree, its records and its map are those of the old version with exactly that change, and the old version is its predecessor |
| `Versions.UpdateShape` | aodbm.c:571-621 | a set raises the height by one at most; a removal keeps it unless nothing is left |
| `Sharing.EditCost` | aodbm.c:650-692 | the bytes laid out below the root, and those of the nodes that replace it, are exactly the bytes of the new nodes; each level of the path costs at most two nodes for a set and one for a removal |
| `Sharing.WriteBound` | aodbm.c:623-790 | but for the eight bytes of the previous version's number, the block has exactly as many bytes as the new nodes of the new tree, so it holds no others; on height d these are at most 2(d + 1) + 1 for a set and d + 1 for a removal |
| `Sharing.EditShares` | aodbm.c:526-530 | a subtree that the path passes by is a child, at the same offset, of what replaces the tree |
| `Sharing.UpdateShares` | aodbm.c:623-790 | every such subtree is shared between the two versions |
| `Ancestry.CommonAncestor` | aodbm.c:869-884 | the recursion ends, in a version that is not later than either argument |
| `Ancestry.BasedOnIsReachability` | aodbm.c:845-867 | `aodbm_is_based_on` decides whether following previous versions leads from one version to the other |
| `Ancestry.BasedOnIsPartialOrder` | aodbm.c:845-863 | reflexive, antisymmetric, transitive, with version 0 at the bottom |
| `Ancestry.CommonAncestorIsGreatest` | aodbm.c:869-884 | both versions are based on the result, and it is based on exactly those versions that both are based on |
| `Ancestry.MergeIsUpperBound` | aodbm.c:1141-1148 | a fast-forward merge gives a version based on both, and is given exactly when one is based on the other |
| `Ancestry.BasedOnMeansChanged` | aodbm.c:845-867 | following predecessors from a version leads to one it is based on in as many steps as there are changes, and each version on the way is the one before it with one change made |
| `Ancestry.BasedOnGrows` | aodbm_internal.c:128-159 | appending changes no ancestry |
| `OnDisk.ReadsBigEndian` | aodbm_internal.c:218-228 | `aodbm_read32` and `aodbm_read64` give the number that the bytes at the position make, most significant first |
| `OnDisk.LeafOnDisk` | aodbm_internal.c:78-88 | byte by byte where a leaf keeps the letter l, its count, and the sizes and bytes of the key and value of record i |
| `OnDisk.BranchOnDisk` | aodbm_internal.c:78-88 | byte by byte where a branch keeps the letter b, its count, the first offset, and the key and offset of child i |
| `OnDisk.VersionOnDisk` | aodbm_internal.c:78-83 | at a version lie the eight bytes of its predecessor's number, then the letter l or b as its root is a leaf or a branch |
| `OnDisk.BlockOnDisk` | aodbm_internal.c:142-159 | a block is the letter d, the size and the body, or the letter v and eight bytes of the version |
| `Log.EncodePrefixFree` | aodbm_internal.c:142-159 | at most one block begins at a position of a file |
| `Log.Recover` | aodbm.c:66-105 | succeeds exactly when the scan meets no unknown block type; then the file is cut to the one list of whole blocks it begins with, and the current version is the last one committed in it; an unknown type is any byte but the letters d and v |
| `Log.RecoveredUnique` | aodbm.c:66-105 | a file determines the blocks that are recovered from it |
| `Log.WholeBlocksFit` | aodbm.c:78-102 | the kept blocks fit in the surviving bytes and one more would not |
| `Log.TornLogRecovers` | aodbm.c:66-105 | of any byte prefix of a log exactly the whole blocks are recovered, and no unknown type is met |
| `Protocol.MakeCorrect` | aodbm.c:623-790 | a set or delete step leaves all earlier bytes alone and makes a version with the changed map, based on the one it came from |
| `Protocol.HeadsChain` | aodbm.c:151-162 | the current version is complete in the log and based on every version that was current before |
| `Protocol.CrashAtomic` | aodbm.c:66-105 | whatever number of bytes survives, opening recovers the longest prefix of whole blocks, the version current then, and every version in it with its contents |
| `Protocol.StepKeepsLogOK` | aodbm.c:143-177 | set, del, commit and crash all keep the invariant of the log |
| `Protocol.RunKeepsLogOK` | aodbm.c:143-177 | it holds in every state of every run from an empty file |
| `Protocol.SnapshotIsolation` | aodbm_internal.c:128-159 | over any crash-free stretch of a run no byte changes and every version keeps its tree, contents and ancestry |
| `Protocol.NoLostUpdate` | aodbm.c:143-162 | in every interleaving the current version descends from every earlier current version, and each version between them is its predecessor with one change made |
| `Protocol.PrefixWasReached` | aodbm.c:66-105 | every prefix of the blocks is an earlier state of the run |
| `Protocol.CrashRestores` | aodbm.c:66-105 | a crash takes the database back to a state of the same run and loses no block that had reached the file whole |
| `LeafOps.MakeBlock` | aodbm_internal.c:90-98 | the rope spells the length and the bytes |
| `LeafOps.MakeRecord` | aodbm_internal.c:100-106 | the rope spells the key block and the value block |
| `LeafOps.MakeLeafNode` | aodbm.c:188-192 | the rope spells a leaf with one record |
| `LeafOps.AddHeader` | aodbm.c:202-207 | puts the leaf header with the given count in front |
| `LeafOps.ReadRecord` | aodbm.c:217-220 | reads record i and moves on behind it |
| `LeafOps.DuplicateLeafRange` | aodbm.c:209-235 | copies exactly the given records, with their first key, if there is one, and end position |
| `LeafOps.InsertLoop` | aodbm.c:243-280 | where the loop stops, what it has laid out by then, and whether it replaced |
| `LeafOps.CopyRest` | aodbm.c:286-295 | what lies behind the place of the record is copied unchanged |
| `LeafOps.InsertIntoLeafRange` | aodbm.c:237-310 | the rope spells the records with the new one put in its place, with first key, count, end position and the inserted flag |
| `LeafOps.InsertIntoLeaf` | aodbm.c:320-368 | for every leaf size up to m, the ropes and keys are those of `EditLeaf` for a set |
| `LeafOps.DeleteLast` | aodbm.c:383-406 | how deleting a key from a list of records proceeds record by record |
| `LeafOps.RemoveFromLeaf` | aodbm.c:370-414 | the rope and key are those of `EditLeaf` for a removal, with no key when nothing is left |
| `BranchOps.BranchBuilder.constructor` | aodbm.c:422-426 | no children |
| `BranchOps.BranchBuilder.Add` | aodbm.c:428-439 | adds a child at the end; the first child's key stays outside the rope |
| `BranchOps.BranchBuilder.MergeFrom` | aodbm.c:457-464 | the children of both, the second's first key now in the rope |
| `BranchOps.BranchBuilder.ToRope` | aodbm.c:466-470 | the rope spells the branch with these children |
| `BranchOps.AddToBranches` | aodbm.c:445-455 | the first m / 2 children go to a, all others to b |
| `BranchOps.ReadSlot` | aodbm.c:501-504 | reads child i and moves on behind it |
| `BranchOps.KeepChild` | aodbm.c:526-530 | an old child is added unless its offset is one of the two to remove |
| `BranchOps.PlaceBefore` | aodbm.c:507-510 | a new child is added exactly when its key precedes the next key |
| `BranchOps.PlaceNew` | aodbm.c:506-524 | the new children are added in order, each once |
| `BranchOps.PlaceLast` | aodbm.c:533-538 | new children that belong last are added |
| `BranchOps.CollectChildren` | aodbm.c:481-538 | a and b together hold the old children with child j replaced by the new ones, in that place |
| `BranchOps.Finish` | aodbm.c:540-563 | no branch, one branch of fewer than m children, or two halves |
| `BranchOps.ModifyBranch` | aodbm.c:472-564 | the rebuilt branch nodes are those of the list of children with child j replaced |
| `Search.SearchBranch` | aodbm_internal.c:294-315 | the loop ends at the last child whose separator does not exceed the key, with its lower bound |
| `Search.SearchRecursive` | aodbm_internal.c:239-267 | reaches the leaf where the key belongs |
| `Search.SearchPathRecursive` | aodbm_internal.c:277-320 | pushes the nodes from the root to that leaf with their lower bounds; the assertion on lower bounds never fails |
| `Search.LookupInLeaf` | aodbm_internal.c:269-275 | that leaf alone decides whether, and with which value, a key is in the tree |
| `Search.VersionLookup` | aodbm_internal.c:269-275 | the same for a version |
| `Search.SearchVersion` | aodbm_internal.c:269-275 | finds that leaf for any version but 0 |
| `Search.Get` | aodbm.c:818-843 | gives the value in the map of the version, or nothing if the key is not in it |
| `Search.HasKey` | aodbm.c:792-816 | true exactly when the key is in the map |
| `Updates.BranchDi` | aodbm.c:179-186 | the rope spells a branch with two children |
| `Updates.ConstructRoot` | aodbm.c:571-621 | the bytes to append and the returned version are those of `RootEdit`, with no node, one node or two nodes left |
| `Updates.PathAt` | aodbm_internal.c:277-329 | every node on the path is a well-formed stored subtree to which the key belongs, one level lower each time, and the next is its child |
| `Updates.PathData` | aodbm.c:667-679 | what is laid out below any node of the path is part of what is laid out in all |
| `Updates.KidOnlyAt` | aodbm.c:681-689 | the offset of the old child names that child only, and 0 names none |
| `Updates.NewSlotsFill` | aodbm.c:506-538 | the keys of rebuilt nodes lie between the separators around the child they replace |
| `Updates.RebuildBranch` | aodbm.c:681-689 | the call of `modify_branch` gives the nodes of the recursive edit one level up |
| `Updates.LayNode` | aodbm.c:668-671 | appends a node and computes its size and offset |
| `Updates.LayNodes` | aodbm.c:667-679 | appends one or two nodes; their offsets are where their bytes land |
| `Updates.ClimbStep` | aodbm.c:681-692 | one turn of the loop goes one node up the path |
| `Updates.ClimbSet` | aodbm.c:650-693 | the loop of set lays out what the recursive edit lays out; the 32-bit running size stays the length of the rope |
| `Updates.ClimbDel` | aodbm.c:729-778 | the loop of delete likewise, when emptied nodes are not laid out |
| `Updates.RootPath` | aodbm_internal.c:322-329 | the stack holds the path from the root |
| `Updates.SetUpdate` | aodbm.c:630-699 | the block and version of a set, for version 0, a root leaf and a root branch |
| `Updates.DelUpdate` | aodbm.c:717-783 | the block and version of a delete |
| `Database.Db.Open` | aodbm.c:49-126 | on any byte prefix of a log gives a valid handle on exactly its whole blocks |
| `Database.Db.Current` | aodbm.c:143-149 | the current version, which is always a version of the file |
| `Database.Db.WriteBytes` | aodbm_internal.c:128-133 | appends to the file and counts |
| `Database.Db.WriteDataBlock` | aodbm_internal.c:142-150 | appends the letter d, the size and the nodes, and keeps the handle valid |
| `Database.Db.WriteVersion` | aodbm_internal.c:152-159 | appends the letter v and the version, most significant byte first |
| `Database.Db.Commit` | aodbm.c:151-162 | succeeds exactly when the version is based on the current one, which it then replaces, and appends the letter v and the version; otherwise nothing changes |
| `Database.Db.Set` | aodbm.c:623-707 | the new version's map is the old one's with the key set; the file only grows, by a block with the letter d whose new version holds the old version's number and a node; the current version stays |
| `Database.Db.Del` | aodbm.c:709-790 | the new version's map is the old one's without the key; if the key is absent the version itself is returned and nothing is written |
| `Iteration.IteratorGrows` | aodbm.c:1025-1080 | an iterator in progress stays where it is whatever is appended |
| `Iteration.FromIsSuffix` | aodbm.c:997-1016 | the records a seek leaves are exactly those with keys not below the key, in order |
| `Iteration.FromBelow` | aodbm.c:969-991 | seeking in a branch is seeking in one child and keeping all later ones |
| `Iteration.Iterator.constructor` | aodbm.c:922-933 | all records of the version are still to come |
| `Iteration.Iterator.Construct` | aodbm.c:897-920 | pushes the path to the first record below a node |
| `Iteration.Iterator.GotoInLeaf` | aodbm.c:950-968 | stops at the first record not below the key, or behind the last |
| `Iteration.Iterator.GotoInBranch` | aodbm.c:969-989 | stops at the child where the key belongs |
| `Iteration.Iterator.GotoRecursive` | aodbm.c:935-995 | leaves the records not below the key |
| `Iteration.Iterator.Goto` | aodbm.c:997-1004 | the same for the whole version, from whatever state the iterator was in |
| `Iteration.Iterator.IterateFrom` | aodbm.c:1006-1016 | the same for a new iterator |
| `Iteration.Iterator.Advance` | aodbm.c:1041-1052 | moves a branch position on to the next child |
| `Iteration.Iterator.ReadNext` | aodbm.c:1071-1075 | reads a record and moves behind it |
| `Iteration.Iterator.NextLeaf` | aodbm.c:1036-1069 | leaves finished branches until a record is found or the path is empty |
| `Iteration.Iterator.Next` | aodbm.c:1025-1080 | gives the first record still to come and keeps the rest; nothing once none is left, then and on every later call |
| `Iteration.Iterate` | aodbm.c:922-1080 | calling next until it gives nothing yields every record once in the documented order of keys, whatever is appended between the calls |
| `ZeroVersion.RunNinthIsZero` | aodbm.c:623-707 | in every state of every run the ninth byte of a file that is not empty is 0 |
| `ZeroVersion.SeekNeedsVersion` | aodbm.c:997-1004 | a seek finds a node to start from if and only if the version is not 0 |
| `History.MadeCorrect` | aodbm.c:623-790 | in every later state that still holds it, the version a step made has the predecessor that step was called with, and its records with the change that step was called with |
| `History.HeadKnown` | aodbm.c:66-162 | if clients use only version numbers they were given, so is the current version one that was given, also after crashes |
| `History.CommittedChanges` | aodbm.c:143-162 | then the current version is reached from any earlier current version by an ascending list of steps of the run, each a set or delete on the version the one before returned, and its records are the earlier ones with exactly these changes made in this order |
| `LinkedList.List.constructor` | aodbm_list.c:49-55 | an empty list |
| `LinkedList.List.PushFront` | aodbm_list.c:67-81 | adds before the items |
| `LinkedList.List.PushBack` | aodbm_list.c:83-97 | adds behind the items |
| `LinkedList.List.PopFront` | aodbm_list.c:99-114 | takes the first item, if there is one |
| `LinkedList.List.PopBack` | aodbm_list.c:116-131 | takes the last item, if there is one |
| `LinkedList.List.IsEmpty` | aodbm_list.c:133-135 | whether there are no items |
| `LinkedList.List.Length` | aodbm_list.c:137-139 | how many items there are |
| `LinkedList.List.Merge` | aodbm_list.c:141-157 | the items of one list and then of the other, with next, prev, head, tail and len consistent, also when either is empty |
| `LinkedList.List.Unlink` | aodbm_list.c:233-251 | takes one node out and keeps all links consistent |
| `LinkedList.List.LinkBehind` | aodbm_list.c:209-217 | puts a node behind another; the list is then well formed exactly when that was not the last |
| `LinkedList.ListIterator.Begin` | aodbm_list.c:159-166 | at the first item |
| `LinkedList.ListIterator.Back` | aodbm_list.c:168-175 | at the last item |
| `LinkedList.ListIterator.Next` | aodbm_list.c:177-182 | one position on, or finished |
| `LinkedList.ListIterator.Prev` | aodbm_list.c:184-189 | one position back, or finished |
| `LinkedList.ListIterator.IsFinished` | aodbm_list.c:199-201 | whether the position is outside the list |
| `LinkedList.ListIterator.Get` | aodbm_list.c:203-205 | the item at the position |
| `LinkedList.ListIterator.Remove` | aodbm_list.c:231-253 | removes the item and moves to the next, or to the one before if it was the last |
| `LinkedList.ListIterator.Insert` | aodbm_list.c:207-229 | when it succeeds, what the list then holds, and the exact condition under which the list stays well formed |
| `LinkedList.InsertBehindOnlyItem` | aodbm_list.c:207-229 | an input on which the list does not stay well formed |
| `Changesets.AddModify` | aodbm_changeset.c:67-79 | adds a modification behind the changes |
| `Changesets.AddRemove` | aodbm_changeset.c:81-89 | adds a removal behind the changes |
| `Changesets.ApplyAllAppend` | aodbm_changeset.c:91-96 | making the changes of two lists joined is making those of one and then those of the other |
| `Changesets.ApplyAllIsMapChange` | aodbm.c:1117-1133 | changes to sorted records are the same changes to the map |
| `Changesets.MergeDi` | aodbm_changeset.c:91-96 | applying the merged changeset is applying the first and then the second |
| `Changesets.ApplyOne` | aodbm.c:1122-1129 | one turn of the loop makes one change and stays based on the version it began with |
| `Changesets.ApplyChanges` | aodbm.c:1117-1133 | the result holds the changes made one after the other, is based on the given version, and nothing else is committed or lost |
| `RwLock.StepKeepsInv` | aodbm_rwlock.c:40-96 | every step keeps: the counters are the numbers of holders and waiters, a writer excludes everyone, and a sleeping thread has reason to sleep |
| `RwLock.RunKeepsInv` | aodbm_rwlock.c:27-96 | this holds in every reachable state, for any number of threads and with spurious wakeups |
| `RwLock.Admission` | aodbm_rwlock.c:40-96 | a reader is admitted exactly when no thread writes or waits to write, a writer exactly when no thread reads or writes; otherwise the thread sleeps, or goes on after a try |
| `RwLock.OthersKept` | aodbm_rwlock.c:40-96 | a step leaves every other thread as it is, but an unlock after which nobody reads wakes all that sleep |
| `RwLock.MutualExclusion` | aodbm_rwlock.c:40-74 | while one thread writes no other reads or writes |
| `RwLock.HolderKeeps` | aodbm_rwlock.c:40-96 | over runs, a thread that reads or writes goes on doing so until its own unlock |
| `RwLock.Progress` | aodbm_rwlock.c:40-74 | if nobody holds the lock and somebody waits, some waiter is awake and can enter |
| `RwLock.WriterPreference` | aodbm_rwlock.c:40-85 | from when a writer waits until a waiting writer enters, no reader is admitted |
| `RwLock.NoReaderEnters` | aodbm_rwlock.c:42-81 | the step behind it |
| `RwLock.Lock.constructor` | aodbm_rwlock.c:27-33 | a free lock satisfies the invariant |
| `RwLock.Lock.RdLockSection` | aodbm_rwlock.c:40-47 | the reader's critical sections are the reader's steps: it enters exactly when no thread writes or waits to write, and changes no other thread |
| `RwLock.Lock.WrLockSection` | aodbm_rwlock.c:49-58 | the writer's critical sections are the writer's steps: it enters exactly when no thread reads or writes, and changes no other thread |
| `RwLock.Lock.UnlockSection` | aodbm_rwlock.c:60-74 | is the unlock step: only the caller gives up the lock, sleepers wake exactly when no other thread reads, and the error branch is never met by a holder |
| `RwLock.Lock.TryRdLockSection` | aodbm_rwlock.c:76-85 | is its step: true exactly when no thread writes or waits to write, also beside other readers |
| `RwLock.Lock.TryWrLockSection` | aodbm_rwlock.c:87-96 | is its step: true exactly when no thread reads or writes |

## Left out

- stdio, `fseeko`, `ftruncate`, `fflush` and operating system errors: the file is a byte sequence that is appended to, read and cut off. What a crash leaves is a prefix of what was written.
- The memory-mapped reading of `aodbm_read` (aodbm_internal.c:162-209): off by default, and its agreement with the file is a matter of the kernel.
- The mutexes of the database: set, del and commit are single steps, so the model does not capture the missing unlock at aodbm.c:704, nor two clients inside one of these functions at once.
- `aodbm_commit_init`, `aodbm_commit_finish` and `aodbm_commit_abort`: the two halves of `aodbm_commit`, with the mutex held between them by the caller.
- `malloc`, `free` and who owns an argument, beyond the disjointness of ropes and lists that the heap proofs need.
- `aodbm_diff`, `aodbm_diff_prev`, `aodbm_diff_prev_rev` and merging versions of which neither is based on the other (aodbm.c:1083-1115): the code ends in `assert(0)`.
- `aodbm_hash.c`: nothing in the database uses it.
- `aodbm_stack.c`: stacks are sequences here.
- Printing, `aodbm.py` and the test programs.
- Ancestry.MergeIsUpperBound: says nothing of versions of which neither is based on the other; there the code ends in `assert(0)`, and `Ancestry.Merge` has no result.
- Database.Db.Set: leaves out the mutex, which the code takes again instead of giving it up (aodbm.c:704). It demands `FitsUpdate`, that key, value and block fit 32-bit sizes and the file 64-bit offsets; the code does not check (aodbm_internal.c:145). The running size in `aodbm_set` is modelled modulo 2^32.
- Database.Db.Open: demands the first bytes of a log that the database wrote, since only then is the handle known to be valid; `Log.Recover` says what the scan does to any other file.
- Database.Db.Del: demands the same of the block it writes.
- Changesets.ApplyChanges: demands the same of each block it writes.
- Iteration.Iterator.Goto: demands `ver != 0`; `ZeroVersion.SeekNeedsVersion` shows that there is no node to read otherwise.
- Iteration.Iterator.IterateFrom: demands `ver != 0` for the same reason.
- LeafOps.InsertIntoLeaf: demands at most m records, so the error branch for larger leaves (aodbm.c:365-367) does not appear; every leaf of every version has at most m.
- LeafOps.DuplicateLeafRange: for no records at all the code returns an uninitialised key (aodbm.c:213), of which nothing is said.
- History.CommittedChanges: assumes `KnownOnly`, that clients use only the version numbers that the database has given out; `Protocol.NoLostUpdate` is about all clients.
- Data.DataLt: compares bytes as signed characters; on a machine where `char` is unsigned the order of keys is another one with the same properties.
- LinkedList.ListIterator.Get: demands that the iterator is not finished, where the code would read through a null pointer.
- `aodbm_list_iterator_is_begin` and `aodbm_list_iterator_is_end`: comparisons only.
- Loops of `insert_into_leaf_range`, `modify_branch`, `aodbm_iterator_goto_recursive` and `aodbm_set` are methods of their own here, so that each has a contract.
