/** EXT2 structures as they are written to disk, field by field in the order of the driver's
    declarations. Nothing here reads them. */
module Ext2Disk {
  import opened Memory

  /** An inode: numbers of 2, 2, 4 (five times), 2, 2, 4 (three times), 15 times 4 and 4 (four
      times) bytes, then 12 and 128 bytes. */
  datatype Inode = Inode(
    i_mode: nat, i_uid: nat,
    i_size: nat, i_atime: nat, i_ctime: nat, i_mtime: nat, i_dtime: nat,
    i_gid: nat, i_links_count: nat,
    i_blocks: nat, i_flags: nat, i_osd1: nat,
    i_block: seq<nat>,
    i_generation: nat, i_file_acl: nat, i_dir_acl: nat, i_faddr: nat,
    i_osd2: seq<byte>, i_unused: seq<byte>)

  /** The fields that are read have their widths, and the record its length. */
  predicate InodeOk(r: Inode) {
    && r.i_mode < 0x1_0000 && |r.i_block| == 15 && (forall k | 0 <= k < 15 :: r.i_block[k] < 0x1_0000_0000)
    && |r.i_osd2| == 12 && |r.i_unused| == 128
  }

  function WriteWords(ws: seq<nat>): (s: seq<byte>)
    ensures |s| == 4 * |ws|
  {
    if ws == [] then [] else ToLe(ws[0], 4) + WriteWords(ws[1..])
  }

  function WriteInode(r: Inode): (s: seq<byte>)
    requires InodeOk(r)
    ensures |s| == 256
  {
    ToLe(r.i_mode, 2) + ToLe(r.i_uid, 2)
    + WriteWords([r.i_size, r.i_atime, r.i_ctime, r.i_mtime, r.i_dtime])
    + ToLe(r.i_gid, 2) + ToLe(r.i_links_count, 2)
    + WriteWords([r.i_blocks, r.i_flags, r.i_osd1])
    + WriteWords(r.i_block)
    + WriteWords([r.i_generation, r.i_file_acl, r.i_dir_acl, r.i_faddr])
    + r.i_osd2 + r.i_unused
  }

  /** The first fields and the block numbers, at the offsets to which the widths add up. */
  lemma InodeLayout(r: Inode)
    requires InodeOk(r)
    ensures WriteInode(r)[0..2] == ToLe(r.i_mode, 2)
    ensures WriteInode(r)[40..44] == ToLe(r.i_block[0], 4)
  {
    hide ToLe;
    var s := WriteInode(r);
    var before := s[..40];
    var blocks, first := WriteWords(r.i_block), ToLe(r.i_block[0], 4);
    assert s[40..100] == blocks;
    assert blocks[..4] == first;
    assert s[40..44] == s[40..100][..4];
  }

  function WordsOf(s: seq<byte>): (ws: seq<nat>)
    requires |s| % 4 == 0
    ensures |ws| == |s| / 4
  {
    if s == [] then [] else [Le(s[..4])] + WordsOf(s[4..])
  }

  lemma {:induction false} WordsWritten(s: seq<byte>)
    requires |s| % 4 == 0
    ensures WriteWords(WordsOf(s)) == s && forall k | 0 <= k < |s| / 4 :: WordsOf(s)[k] < 0x1_0000_0000
    decreases |s|
  {
    if s != [] {
      ToLeLe(s[..4]);
      assert Pow256(4) == 0x1_0000_0000;
      WordsWritten(s[4..]);
      hide ToLe, Le;
      assert WordsOf(s)[1..] == WordsOf(s[4..]);
      assert s == s[..4] + s[4..];
    }
  }

  /** Every record of 256 bytes is the writing of some inode. */
  lemma EveryRecord(s: seq<byte>) returns (r: Inode)
    requires |s| == 256
    ensures InodeOk(r) && WriteInode(r) == s
  {
    hide ToLe, Le, WriteWords, WordsOf;
    assert Pow256(2) == 0x1_0000;
    ToLeLe(s[0..2]);
    ToLeLe(s[2..4]);
    WordsWritten(s[4..24]);
    ToLeLe(s[24..26]);
    ToLeLe(s[26..28]);
    WordsWritten(s[28..40]);
    WordsWritten(s[40..100]);
    WordsWritten(s[100..116]);
    var a, b, c := WordsOf(s[4..24]), WordsOf(s[28..40]), WordsOf(s[100..116]);
    r := Inode(Le(s[0..2]), Le(s[2..4]), a[0], a[1], a[2], a[3], a[4], Le(s[24..26]), Le(s[26..28]),
               b[0], b[1], b[2], WordsOf(s[40..100]), c[0], c[1], c[2], c[3], s[116..128], s[128..256]);
    assert a == [a[0], a[1], a[2], a[3], a[4]] && b == [b[0], b[1], b[2]] && c == [c[0], c[1], c[2], c[3]];
    assert s == s[0..2] + s[2..4] + s[4..24] + s[24..26] + s[26..28] + s[28..40] + s[40..100] + s[100..116]
                + s[116..128] + s[128..256];
  }

  /** A directory entry: the inode number in 4 bytes, the length of the record in 2, the
      length of the name and the file type in one each, the name, and padding. */
  datatype DirEntry = DirEntry(inode: nat, file_type: byte, name: seq<byte>, padding: seq<byte>)

  predicate EntryOk(e: DirEntry) {
    e.inode < 0x1_0000_0000 && |e.name| < 256 && 8 + |e.name| + |e.padding| < 0x1_0000
  }

  function WriteEntry(e: DirEntry): (s: seq<byte>)
    requires EntryOk(e)
    ensures |s| == 8 + |e.name| + |e.padding|
  {
    ToLe(e.inode, 4) + ToLe(8 + |e.name| + |e.padding|, 2) + [|e.name|] + [e.file_type] + e.name + e.padding
  }

  lemma EntryLayout(e: DirEntry)
    requires EntryOk(e)
    ensures WriteEntry(e)[0..4] == ToLe(e.inode, 4)
    ensures WriteEntry(e)[4..6] == ToLe(|WriteEntry(e)|, 2)
    ensures WriteEntry(e)[6..7] == [|e.name|]
    ensures WriteEntry(e)[8..8 + |e.name|] == e.name
  {
    hide ToLe;
  }

  predicate EntriesOk(es: seq<DirEntry>) {
    forall e | e in es :: EntryOk(e)
  }

  /** Entries one after the other. */
  function WriteDir(es: seq<DirEntry>): seq<byte>
    requires EntriesOk(es)
  {
    if es == [] then [] else WriteEntry(es[0]) + WriteDir(es[1..])
  }

  /** Entry k is the first with the name. */
  predicate FirstNamed(es: seq<DirEntry>, k: nat, name: seq<byte>) {
    k < |es| && es[k].name == name && forall j | 0 <= j < k :: es[j].name != name
  }

  /** None of the first n entries has the name. */
  predicate NoneNamed(es: seq<DirEntry>, n: nat, name: seq<byte>) {
    forall j | 0 <= j < |es| && j < n :: es[j].name != name
  }

  /** The n bytes from `at` on, and the sectors that read asks for to get them, lie on a disk of
      d bytes; the first of these has a number of 32 bits. */
  predicate InReach(d: nat, at: nat, n: nat) {
    at + n <= d && at / 512 < 0x1_0000_0000 && at / 512 * 512 + (n / 512 + 1) * 512 <= d
  }

  /** The disk holds s from byte `at` on, in reach of read. */
  predicate Stored(disk: seq<byte>, at: nat, s: seq<byte>) {
    InReach(|disk|, at, |s|) && disk[at..at + |s|] == s
  }
}
