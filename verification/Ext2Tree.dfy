/** Directory trees as they lie on a disk, written field by field, and what the lookups along a
    path and read_file make of them. */
module Ext2Tree {
  import opened Wrappers
  import opened Memory
  import opened BlockRead
  import opened Ext2Disk
  import opened Ext2Path
  import opened Ext2Dir
  import opened Ext2

  /** Inode i is written as record k of the table of group g, where i - 1 = g * size + k. */
  ghost predicate InodeStored(disk: seq<byte>, v: Volume, i: nat, r: Inode) {
    && InodeOk(r)
    && exists g: nat, k: nat :: Numbered(v, g, k, i) && RecordStored(disk, v, g, k, r)
  }

  predicate RecordStored(disk: seq<byte>, v: Volume, g: nat, k: nat, r: Inode)
    requires g < |v.tables| && InodeOk(r)
  {
    Stored(disk, 0x10_0000 + v.block_size * v.tables[g] % 0x1_0000_0000 + 256 * k, WriteInode(r))
  }

  /** The first block of r holds the entries, and nothing else. */
  predicate EntriesStored(disk: seq<byte>, v: Volume, r: Inode, es: seq<DirEntry>) {
    && InodeOk(r) && EntriesOk(es) && |WriteDir(es)| == v.block_size
    && Stored(disk, 0x10_0000 + v.block_size * r.i_block[0] % 0x1_0000_0000, WriteDir(es))
  }

  /** The bytes are the characters of the name. */
  predicate Spells(b: seq<byte>, name: string) {
    |b| == |name| && forall i | 0 <= i < |b| :: b[i] == name[i] as int
  }

  /** r is a directory whose first ten entries list the name, first as inode i. */
  ghost predicate Entered(disk: seq<byte>, v: Volume, r: Inode, name: string, i: nat) {
    && r.i_mode / 0x1000 == 4
    && exists es: seq<DirEntry>, k: nat, b: seq<byte> ::
         EntriesStored(disk, v, r, es) && Spells(b, name) && FirstNamed(es, k, b) && k < 10 && es[k].inode == i
  }

  /** r is a directory whose first ten entries do not list the name. */
  ghost predicate NotEntered(disk: seq<byte>, v: Volume, r: Inode, name: string) {
    && r.i_mode / 0x1000 == 4
    && exists es: seq<DirEntry>, b: seq<byte> ::
         EntriesStored(disk, v, r, es) && Spells(b, name) && NoneNamed(es, 10, b) && (|es| >= 10 || name != "")
  }

  lemma SpelledBytes(b: seq<byte>, name: string)
    requires Spells(b, name)
    ensures b == Bytes(name)
  {
  }

  lemma StoredRecord(disk: seq<byte>, v: Volume, i: nat, r: Inode)
    requires VolumeOk(v) && InodeStored(disk, v, i, r)
    ensures InodeOn(disk, v, i) && InodeRecord(disk, v, i) == WriteInode(r)
  {
    hide WriteInode, InodeOn, InodeRecord, VolumeOk;
    var g: nat, k: nat :| Numbered(v, g, k, i) && RecordStored(disk, v, g, k, r);
    RecordReached(disk, v, g, k, i);
  }

  /** What the search of a stored directory sees. */
  lemma StoredBlock(disk: seq<byte>, v: Volume, r: Inode, es: seq<DirEntry>)
    requires VolumeOk(v) && EntriesStored(disk, v, r, es) && r.i_mode / 0x1000 == 4
    ensures PassesDirCheck(Mode(WriteInode(r))) && BlockOn(disk, v, WriteInode(r))
    ensures DirBlock(disk, v, WriteInode(r)) == WriteDir(es) && |WriteDir(es)| + 512 < 0x1_0000_0000
  {
    hide WriteInode, WriteDir, Wanted, Readable, PassesDirCheck, BlockSize;
    WrittenInode(r);
    DirCheckExactly(r.i_mode);
    BlockReached(disk, v, r, v.block_size);
    BlockBelowLimit(v);
  }

  /** A listed name leads to the record of the inode it is listed as. */
  lemma EnteredStep(disk: seq<byte>, v: Volume, r: Inode, name: string, i: nat, next: Inode)
    requires VolumeOk(v) && Entered(disk, v, r, name, i) && InodeStored(disk, v, i, next)
    ensures InodeOk(r) && StepOk(disk, v, WriteInode(r), Bytes(name))
    ensures Step(disk, v, WriteInode(r), name) == Some(WriteInode(next))
  {
    hide WriteInode, WriteDir, VolumeOk, PassesDirCheck, BlockOn, DirBlock, WalkIn, Lookup10, InodeStored, Bytes;
    hide InodeOn, InodeRecord, NextHeader;
    var es: seq<DirEntry>, k: nat, b: seq<byte> :|
      EntriesStored(disk, v, r, es) && Spells(b, name) && FirstNamed(es, k, b) && k < 10 && es[k].inode == i;
    SpelledBytes(b, name);
    StoredRecord(disk, v, i, next);
    StoredBlock(disk, v, r, es);
    WrittenLookup(WriteDir(es), es, Bytes(name));
  }

  /** A name that is not listed leads nowhere. */
  lemma NotEnteredStep(disk: seq<byte>, v: Volume, r: Inode, name: string)
    requires VolumeOk(v) && NotEntered(disk, v, r, name)
    ensures InodeOk(r) && StepOk(disk, v, WriteInode(r), Bytes(name))
    ensures Step(disk, v, WriteInode(r), name) == None
  {
    hide WriteInode, WriteDir, VolumeOk, PassesDirCheck, BlockOn, DirBlock, WalkIn, Lookup10, Bytes, NextHeader;
    var es: seq<DirEntry>, b: seq<byte> :|
      EntriesStored(disk, v, r, es) && Spells(b, name) && NoneNamed(es, 10, b) && (|es| >= 10 || name != "");
    SpelledBytes(b, name);
    StoredBlock(disk, v, r, es);
    WrittenLookup(WriteDir(es), es, Bytes(name));
  }

  // Ways through a tree.

  /** An inode by its number and what is written in its record. */
  datatype Stop = Stop(number: nat, inode: Inode)

  /** From directory r the names lead to the stops, one after the other. */
  ghost predicate Way(disk: seq<byte>, v: Volume, r: Inode, names: seq<string>, stops: seq<Stop>)
    decreases |stops|
  {
    |stops| <= |names| &&
    (stops != [] ==>
       && Entered(disk, v, r, names[0], stops[0].number)
       && InodeStored(disk, v, stops[0].number, stops[0].inode)
       && Way(disk, v, stops[0].inode, names[1..], stops[1..]))
  }

  function Last(r: Inode, stops: seq<Stop>): Inode {
    if stops == [] then r else stops[|stops| - 1].inode
  }

  /** The lookups follow a way to its end: to the last inode when the names end there, and with
      -1 to the same inode when that is a directory which does not list the next name. */
  lemma {:induction false} WayIsFollowed(
    disk: seq<byte>, v: Volume, r: Inode, names: seq<string>, stops: seq<Stop>)
    requires VolumeOk(v) && InodeOk(r) && Way(disk, v, r, names, stops)
    requires |stops| < |names| ==> NotEntered(disk, v, Last(r, stops), names[|stops|])
    ensures InodeOk(Last(r, stops)) && StepsOk(disk, v, WriteInode(r), names)
    ensures Fold(Steps(disk, v), WriteInode(r), names) ==
            (if |stops| == |names| then 0 else -1, WriteInode(Last(r, stops)))
    decreases |stops|
  {
    hide StepOk, DiskLookup, VolumeOk, Entered, NotEntered, WriteInode, Bytes;
    if stops == [] {
      if names != [] { NotEnteredStep(disk, v, r, names[0]); }
    } else {
      var next := stops[0].inode;
      EnteredStep(disk, v, r, names[0], stops[0].number, next);
      StoredOk(disk, v, stops[0].number, next);
      WayIsFollowed(disk, v, next, names[1..], stops[1..]);
      assert Step(disk, v, WriteInode(r), names[0]) == Some(WriteInode(next));
    }
  }

  lemma StoredOk(disk: seq<byte>, v: Volume, i: nat, r: Inode)
    requires InodeStored(disk, v, i, r)
    ensures InodeOk(r)
  {
  }

  /** The file that a joined path names in a tree: read_file may be called for it, and ends with
      the last inode of the way that the path goes. */
  lemma TreeIsRead(
    disk: seq<byte>, v: Volume, r: Inode, names: seq<string>, leading: bool, trailing: bool, stops: seq<Stop>)
    requires VolumeOk(v) && names != [] && forall n | n in names :: IsName(n)
    requires InodeStored(disk, v, 2, r) && Way(disk, v, r, names, stops)
    requires |stops| < |names| ==> NotEntered(disk, v, Last(r, stops), names[|stops|])
    ensures InodeOn(disk, v, 2) && InodeOk(Last(r, stops))
    ensures
      var path := JoinedPath(names, leading, trailing);
      && StepsOk(disk, v, Root(disk, v), Tokens(path))
      && Fold(Steps(disk, v), Root(disk, v), Tokens(path)).0 == (if |stops| == |names| then 0 else -1)
      && FileInode(disk, v, path) == WriteInode(Last(r, stops))
  {
    hide *;
    ParserTokens(names, leading, trailing);
    StoredOk(disk, v, 2, r);
    StoredRecord(disk, v, 2, r);
    WayIsFollowed(disk, v, r, names, stops);
    FileInodeIs(disk, v, JoinedPath(names, leading, trailing));
    RootIs(disk, v);
  }

  lemma RootIs(disk: seq<byte>, v: Volume)
    requires InodeOn(disk, v, 2)
    ensures Root(disk, v) == InodeRecord(disk, v, 2)
  {
  }
}
