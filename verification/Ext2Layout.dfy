/** Where libxadisk/xadisk_linux_ext2.c looks for an inode, against where ext2 keeps it. */
module Ext2Layout {
  import opened Bits

  datatype Super = Super(blockSize: uint32, blocksPerGroup: uint32, inodesPerGroup: uint32, inodeSize: uint32)

  function Quot(x: nat, n: nat): (q: nat)
    requires n > 0
  {
    QuotientNat(x, n);
    x / n
  }

  function Rem(x: nat, n: nat): (r: nat)
    requires n > 0
    ensures r < n && x == Quot(x, n) * n + r
  {
    x % n
  }

  /** Sizes are positive, and a group has no more than 2^32 bytes. */
  predicate SuperOk(sb: Super) {
    && sb.blockSize > 0 && sb.blocksPerGroup > 0 && sb.inodesPerGroup > 0 && sb.inodeSize > 0
    && sb.blocksPerGroup * sb.blockSize <= 0x1_0000_0000
  }

  /** `xa_linux_ext2_dir_getgroup`: the offset of the group in the image. */
  function GetGroup(sb: Super, inode: uint32): nat
    requires sb.inodesPerGroup > 0
  {
    var group := Quot(inode, sb.inodesPerGroup);
    group * sb.blocksPerGroup * sb.blockSize
  }

  /** `xa_linux_ext2_findinode`: the offset in the group, computed in 32 bits. */
  function FindInode(sb: Super, table: uint32, inode: uint32): nat
    requires sb.blocksPerGroup > 0 && sb.inodesPerGroup > 0
  {
    (Rem(table, sb.blocksPerGroup) * sb.blockSize + (Rem(inode, sb.inodesPerGroup) - 1) * sb.inodeSize) % 0x1_0000_0000
  }

  /** Where the code looks. */
  function Offset(sb: Super, tables: seq<uint32>, inode: uint32): nat
    requires SuperOk(sb) && Quot(inode, sb.inodesPerGroup) < |tables|
  {
    GetGroup(sb, inode) + FindInode(sb, tables[Quot(inode, sb.inodesPerGroup)], inode)
  }

  /** Where ext2 keeps the inode: numbers start at 1. */
  function Location(sb: Super, tables: seq<uint32>, inode: uint32): nat
    requires SuperOk(sb) && inode > 0 && Quot(inode - 1, sb.inodesPerGroup) < |tables|
  {
    tables[Quot(inode - 1, sb.inodesPerGroup)] * sb.blockSize + Rem(inode - 1, sb.inodesPerGroup) * sb.inodeSize
  }

  /** The inode table of each group lies within the group. */
  predicate TablesOk(sb: Super, tables: seq<uint32>)
    requires SuperOk(sb)
  {
    forall g :: 0 <= g < |tables| ==> TableInGroup(sb, g, tables[g])
  }

  predicate TableInGroup(sb: Super, g: nat, table: uint32)
    requires SuperOk(sb)
  {
    && Quot(table, sb.blocksPerGroup) == g
    && Rem(table, sb.blocksPerGroup) * sb.blockSize + sb.inodesPerGroup * sb.inodeSize
         <= sb.blocksPerGroup * sb.blockSize
  }

  lemma QuotRem(x: nat, n: nat, q: nat, r: nat)
    requires r < n && x == q * n + r
    ensures Quot(x, n) == q && Rem(x, n) == r
  {
    ModUnique(x, n, q, r);
  }

  lemma Predecessor(inode: nat, n: nat)
    requires n > 0 && inode > 0
    ensures Rem(inode, n) != 0 ==> Quot(inode - 1, n) == Quot(inode, n) && Rem(inode - 1, n) == Rem(inode, n) - 1
    ensures Rem(inode, n) == 0 ==>
      Quot(inode, n) > 0 && Quot(inode - 1, n) == Quot(inode, n) - 1 && Rem(inode - 1, n) == n - 1
  {
    var q, r := Quot(inode, n), Rem(inode, n);
    if r != 0 {
      QuotRem(inode - 1, n, q, r - 1);
    } else {
      assert (q - 1) * n == q * n - n;
      QuotRem(inode - 1, n, q - 1, n - 1);
    }
  }

  /** A block number, split into its group and the rest, in bytes. */
  lemma GroupBytes(table: nat, bpg: nat, bs: nat)
    requires bpg > 0
    ensures table * bs == Quot(table, bpg) * bpg * bs + Rem(table, bpg) * bs
  {
    assert table == Quot(table, bpg) * bpg + Rem(table, bpg);
  }

  lemma LessTimes(a: nat, b: nat, c: nat)
    requires a < b && c > 0
    ensures a * c < b * c
  {
    assert b * c == a * c + (b - a) * c;
  }

  lemma InTable(sb: Super, t: nat, k: nat)
    requires SuperOk(sb) && 0 < k < sb.inodesPerGroup
    requires t * sb.blockSize + sb.inodesPerGroup * sb.inodeSize <= sb.blocksPerGroup * sb.blockSize
    ensures 0 <= t * sb.blockSize + (k - 1) * sb.inodeSize < 0x1_0000_0000
  {
    LessTimes(k - 1, sb.inodesPerGroup, sb.inodeSize);
  }

  lemma OffsetInTable(sb: Super, tables: seq<uint32>, inode: uint32)
    requires SuperOk(sb) && Quot(inode, sb.inodesPerGroup) < |tables| && Rem(inode, sb.inodesPerGroup) != 0
    requires TableInGroup(sb, Quot(inode, sb.inodesPerGroup), tables[Quot(inode, sb.inodesPerGroup)])
    ensures Offset(sb, tables, inode)
         == tables[Quot(inode, sb.inodesPerGroup)] * sb.blockSize + (Rem(inode, sb.inodesPerGroup) - 1) * sb.inodeSize
  {
    var table := tables[Quot(inode, sb.inodesPerGroup)];
    GroupBytes(table, sb.blocksPerGroup, sb.blockSize);
    InTable(sb, Rem(table, sb.blocksPerGroup), Rem(inode, sb.inodesPerGroup));
  }

  /** Group g - 1 keeps its last inode before group g starts, the code looks in group g. */
  lemma LastOfGroup(sb: Super, tables: seq<uint32>, inode: uint32)
    requires SuperOk(sb) && inode > 0 && Quot(inode, sb.inodesPerGroup) < |tables| && Rem(inode, sb.inodesPerGroup) == 0
    requires Quot(inode - 1, sb.inodesPerGroup) == Quot(inode, sb.inodesPerGroup) - 1
    requires Rem(inode - 1, sb.inodesPerGroup) == sb.inodesPerGroup - 1
    requires TableInGroup(sb, Quot(inode, sb.inodesPerGroup) - 1, tables[Quot(inode, sb.inodesPerGroup) - 1])
    ensures Location(sb, tables, inode) < GetGroup(sb, inode)
  {
    var g := Quot(inode, sb.inodesPerGroup);
    var size := sb.blocksPerGroup * sb.blockSize;
    GroupBytes(tables[g - 1], sb.blocksPerGroup, sb.blockSize);
    Distribute(g, sb.blocksPerGroup, sb.blockSize);
    assert (sb.inodesPerGroup - 1) * sb.inodeSize == sb.inodesPerGroup * sb.inodeSize - sb.inodeSize;
  }

  lemma Distribute(g: nat, bpg: nat, bs: nat)
    requires g > 0
    ensures (g - 1) * bpg * bs == g * bpg * bs - bpg * bs
  {
    assert (g - 1) * bpg == g * bpg - bpg;
  }

  /** The code finds the inode if and only if its number is not a multiple of the number of
      inodes per group: for a multiple it looks in the group after the inode's own. */
  lemma OffsetIsLocation(sb: Super, tables: seq<uint32>, inode: uint32)
    requires SuperOk(sb) && TablesOk(sb, tables) && inode > 0 && Quot(inode, sb.inodesPerGroup) < |tables|
    ensures Quot(inode - 1, sb.inodesPerGroup) < |tables|
    ensures Offset(sb, tables, inode) == Location(sb, tables, inode) <==> Rem(inode, sb.inodesPerGroup) != 0
  {
    Predecessor(inode, sb.inodesPerGroup);
    if Rem(inode, sb.inodesPerGroup) != 0 {
      OffsetInTable(sb, tables, inode);
    } else {
      LastOfGroup(sb, tables, inode);
    }
  }

  /** With 8192 inodes to a group, inode 8192 is the last of the first group; the code looks for
      it in front of the table of the second. */
  lemma MissedInode()
    ensures
      var sb := Super(4096, 32768, 8192, 128);
      SuperOk(sb) && TablesOk(sb, [3, 32771]) &&
      Location(sb, [3, 32771], 8192) == 1060736 && Offset(sb, [3, 32771], 8192) == 134229888
  {
    var sb := Super(4096, 32768, 8192, 128);
    assert TableInGroup(sb, 0, 3) && TableInGroup(sb, 1, 32771);
  }
}
