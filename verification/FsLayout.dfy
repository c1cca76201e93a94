/** The disk image of kernel/fs.h: one boot sector, one bitmap sector, one directory
    sector, 4096 data blocks; and how the C structures lie in those sectors. */
module FsLayout {
  import opened Words
  import opened Bitmap

  const FILENAME_LENGTH: nat := 24
  const ENTRY_COUNT: nat := 16
  const N_INODE_DATABLOCK: nat := 127
  const INODE_CAPACITY: nat := 65024
  const FSOFFSET_BITMAP: nat := 1
  const FSOFFSET_DIR: nat := 2
  const FSOFFSET_DATA: nat := 3
  const NO_INODE: u32 := 0xFFFF_FFFF
  const FDPOOL_SIZE: nat := 1024

  type Block = b: nat | b < 4096
  /** What the search for a free block comes to: a block, or a read past the bitmap's last word. */
  datatype Search = Found(block: Block) | PastEnd
  type Slot = i: nat | i < 16
  type Name = s: seq<byte> | |s| == 24 witness seq(24, _ => 0)
  datatype DirEntry = DirEntry(fileName: Name, fileSize: u32, inodeOffset: u32)
  type Dir = d: seq<DirEntry> | |d| == 16 witness seq(16, _ => EmptyEntry())
  function EmptyEntry(): DirEntry { DirEntry(seq(24, _ => 0), 0, 0) }

  type Pointers = p: seq<u32> | |p| == 127 witness seq(127, _ => 0)
  datatype INode = INode(dataBlocks: Pointers, next: u32)
  function ZeroINode(): INode { INode(seq(127, _ => 0), 0) }

  type Image = d: seq<Sector> | |d| == 4099 witness seq<Sector>(4099, _ => ZeroSector())

  // ---------------------------------------------------------------- inodes

  function EncodeINode(n: INode): Sector { ToBytes(n.dataBlocks + [n.next]) }

  function DecodeINode(s: Sector): INode {
    var w := ToWords(s);
    INode(w[..127], w[127])
  }

  lemma INodeRoundTrip(n: INode)
    ensures DecodeINode(EncodeINode(n)) == n
  {
    var w: WordSector := n.dataBlocks + [n.next];
    WordsRoundTrip(w);
    assert w[..127] == n.dataBlocks;
  }

  // ---------------------------------------------------------------- bitmap

  function EncodeBitmap(b: WordSector): Sector { ToBytes(b) }

  function DecodeBitmap(s: Sector): WordSector { ToWords(s) }

  // ---------------------------------------------------------------- directory

  function EntryByte(e: DirEntry, k: nat): byte
    requires k < 32
  {
    if k < 24 then e.fileName[k]
    else if k < 28 then ByteOf(e.fileSize, k - 24)
    else ByteOf(e.inodeOffset, k - 28)
  }

  function EncodeDir(d: Dir): Sector {
    seq(512, k requires 0 <= k < 512 => EntryByte(d[k / 32], k % 32))
  }

  function EntryAt(s: Sector, i: nat): DirEntry
    requires i < 16
  {
    DirEntry(s[32 * i..32 * i + 24], WordAt(s, 8 * i + 6), WordAt(s, 8 * i + 7))
  }

  function DecodeDir(s: Sector): Dir {
    seq(16, i requires 0 <= i < 16 => EntryAt(s, i))
  }

  lemma EntryRoundTrip(d: Dir, i: nat)
    requires i < 16
    ensures EntryAt(EncodeDir(d), i) == d[i]
  {
    var s := EncodeDir(d);
    assert s[32 * i..32 * i + 24] == d[i].fileName by {
      forall k | 0 <= k < 24 ensures s[32 * i + k] == d[i].fileName[k] { DirByte(d, i, k); }
    }
    DirByte(d, i, 24); DirByte(d, i, 25); DirByte(d, i, 26); DirByte(d, i, 27);
    WordFromBytes(s, 8 * i + 6, d[i].fileSize);
    DirByte(d, i, 28); DirByte(d, i, 29); DirByte(d, i, 30); DirByte(d, i, 31);
    WordFromBytes(s, 8 * i + 7, d[i].inodeOffset);
  }

  lemma DirByte(d: Dir, i: nat, k: nat)
    requires i < 16 && k < 32
    ensures EncodeDir(d)[32 * i + k] == EntryByte(d[i], k)
  {
    assert (32 * i + k) / 32 == i && (32 * i + k) % 32 == k;
  }

  lemma DirRoundTrip(d: Dir)
    ensures DecodeDir(EncodeDir(d)) == d
  {
    forall i | 0 <= i < 16 ensures DecodeDir(EncodeDir(d))[i] == d[i] {
      EntryRoundTrip(d, i);
    }
  }

  /** Where the fields of an entry lie in the sector (kernel/fs.h:29-32): 24 bytes of name, the
      size, the number of the first inode, both with the least significant byte first. */
  lemma EntryBytes(d: Dir, i: Slot)
    ensures var s, o, x, y := EncodeDir(d), 32 * i, d[i].fileSize, d[i].inodeOffset;
            && s[o..o + 24] == d[i].fileName
            && s[o + 24] == x % 0x100 && s[o + 25] == x / 0x100 % 0x100
            && s[o + 26] == x / 0x1_0000 % 0x100 && s[o + 27] == x / 0x100_0000
            && s[o + 28] == y % 0x100 && s[o + 29] == y / 0x100 % 0x100
            && s[o + 30] == y / 0x1_0000 % 0x100 && s[o + 31] == y / 0x100_0000
  {
    hide DecodeDir, WordAt;
    EntryRoundTrip(d, i);
    DirByte(d, i, 24); DirByte(d, i, 25); DirByte(d, i, 26); DirByte(d, i, 27);
    DirByte(d, i, 28); DirByte(d, i, 29); DirByte(d, i, 30); DirByte(d, i, 31);
  }

  /** Decoding loses nothing. */
  lemma DirBytesRoundTrip(s: Sector)
    ensures EncodeDir(DecodeDir(s)) == s
  {
    hide EntryAt, EntryByte;
    forall k | 0 <= k < 512 ensures EncodeDir(DecodeDir(s))[k] == s[k] {
      EntryByteBack(s, k / 32, k % 32);
    }
  }

  lemma EntryByteBack(s: Sector, i: nat, m: nat)
    requires i < 16 && m < 32
    ensures EntryByte(EntryAt(s, i), m) == s[32 * i + m]
  {
    hide WordAt, ByteOf;
    BytesOfWord(s, 8 * i + 6);
    BytesOfWord(s, 8 * i + 7);
  }

  lemma INodeBytesRoundTrip(s: Sector)
    ensures EncodeINode(DecodeINode(s)) == s
  {
    var w := ToWords(s);
    assert w[..127] + [w[127]] == w;
    BytesRoundTrip(s);
  }

  /** Where the pointers of an inode lie (kernel/fs.h:35-38): 127 data blocks, then next, each
      four bytes, the least significant first. */
  lemma INodeBytes(n: INode, k: nat)
    requires k < 128
    ensures var s, o, x := EncodeINode(n), 4 * k, if k < 127 then n.dataBlocks[k] else n.next;
            && s[o] == x % 0x100 && s[o + 1] == x / 0x100 % 0x100
            && s[o + 2] == x / 0x1_0000 % 0x100 && s[o + 3] == x / 0x100_0000
  {
    WordsInPlace(n.dataBlocks + [n.next], k);
  }

  /** Block b's bit is bit b % 8 of byte b / 8 of the bitmap's sector. */
  lemma BitmapBytes(bitmap: WordSector, b: Block)
    ensures Used(bitmap, b) <==> Bit(EncodeBitmap(bitmap)[b / 8], b % 8)
  {
    assert b / 8 / 4 == b / 32 && b / 8 % 4 == b % 32 / 8 && b % 8 == b % 32 % 8;
    BitOfByte(bitmap[b / 32], b % 32);
  }

  lemma SectorRoundTrips(d: Dir, b: WordSector)
    ensures DecodeDir(EncodeDir(d)) == d
    ensures DecodeBitmap(EncodeBitmap(b)) == b
  {
    DirRoundTrip(d);
    WordsRoundTrip(b);
  }

  // ---------------------------------------------------------------- sizes

  function CeilDiv(n: nat, d: nat): nat
    requires d > 0
  {
    (n + d - 1) / d
  }

  /** Data blocks of a file of n bytes. */
  function DataBlocksOf(n: nat): nat { CeilDiv(n, 512) }

  /** Inodes of a file of n bytes. */
  function INodesOf(n: nat): nat { CeilDiv(n, 65024) }

  /** All blocks a file of n bytes occupies. */
  function BlocksOf(n: nat): nat { DataBlocksOf(n) + INodesOf(n) }

  lemma BlocksOfMono(a: nat, b: nat)
    requires a <= b
    ensures DataBlocksOf(a) <= DataBlocksOf(b) && INodesOf(a) <= INodesOf(b)
    ensures BlocksOf(a) <= BlocksOf(b)
  {
  }

  /** Position arithmetic: byte offset -> sector -> inode. */
  lemma Position(n: nat)
    ensures n / 512 / 127 == n / 65024
    ensures n % 65024 == 0 ==> n % 512 == 0
    ensures n % 65024 == 0 <==> n % 512 == 0 && n / 512 % 127 == 0
    ensures n / 512 == 127 * (n / 65024) + n / 512 % 127
  {
  }
}
