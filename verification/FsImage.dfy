/** What a disk image says on its own: a reader with no caches and no ghosts, walking inode
    chains from the directory. Mounting an image and closing every descriptor agree with it. */
module FsImage {
  import opened Words
  import opened FsLayout
  import opened FsSpec
  import opened FsInv
  import opened FsAbs

  // ---------------------------------------------------------------- the reader

  function DirOf(disk: Image): Dir { DecodeDir(disk[2]) }

  /** The data block with this number; numbers beyond the disk read as block 0. */
  function BlockAt(disk: Image, b: u32): Sector { if b < 4096 then disk[3 + b] else disk[3] }

  /** Block number of the c-th inode of the chain that starts at b. */
  function ChainAt(disk: Image, b: u32, c: nat): u32 {
    if c == 0 then b else DecodeINode(BlockAt(disk, ChainAt(disk, b, c - 1))).next
  }

  /** Sector s of the file whose chain starts at b. */
  function SectorAt(disk: Image, b: u32, s: nat): Sector {
    BlockAt(disk, DecodeINode(BlockAt(disk, ChainAt(disk, b, s / 127))).dataBlocks[s % 127])
  }

  function BytesAt(disk: Image, b: u32, n: nat): seq<byte> {
    seq(n, k requires 0 <= k < n => SectorAt(disk, b, k / 512)[k % 512])
  }

  function FileAt(disk: Image, i: Slot): File {
    var e := DirOf(disk)[i];
    if Occupied(e) then File(e.fileName, BytesAt(disk, e.inodeOffset, e.fileSize)) else NoFile
  }

  /** The files on the image. */
  function DiskFiles(disk: Image): FileTable { seq(16, i requires 0 <= i < 16 => FileAt(disk, i)) }

  // ---------------------------------------------------------------- mounting

  function AllClosed(): Pool { seq(1024, _ => ClosedFd()) }

  lemma NothingOpen()
    ensures forall j :: 0 <= j < 1024 ==> !AllClosed()[j].isOpen
  {
  }

  /** The state of a fresh process after fs_init. */
  function Mounted(disk: Image): Sys {
    Sys(disk, DirOf(disk), DecodeBitmap(disk[1]), USEFUL, USEFUL, AllClosed())
  }

  /** The image is consistent: its bitmap, directory and chains fit together. */
  ghost predicate ImageOk(disk: Image) { exists G :: Inv(Mounted(disk), G) }

  /** On a mounted image every block holds what it means. */
  lemma MountedBlock(disk: Image, G: Ghosts, b: Block)
    requires Inv(Mounted(disk), G) && G.owner[b] != Free
    ensures BlockAt(disk, b) == Logical(G, b)
  {
    hide OwnerOk, BitmapOk, DirOk, FlagsOk, PositionsOk, SizesOk;
    var S := Mounted(disk);
    assert HolderOk(S.pool, G.holder, -1, G.owner[b].slot);
    assert !Dirty(S.pool, G, b);
    assert S.disk[3 + b] == Logical(G, b);
  }

  lemma MountedOwner(disk: Image, G: Ghosts)
    requires Inv(Mounted(disk), G)
    ensures OwnerOk(G)
  {
  }

  lemma {:induction false} MountedChain(disk: Image, G: Ghosts, i: Slot, c: nat)
    requires Inv(Mounted(disk), G) && c < |G.files[i].chain|
    ensures ChainAt(disk, G.files[i].chain[0], c) == G.files[i].chain[c]
    ensures DecodeINode(BlockAt(disk, G.files[i].chain[c])) == INodeOf(G.files[i], c)
  {
    hide Inv;
    MountedOwner(disk, G);
    assert FileOwned(G.owner, G.files[i], i);
    MountedBlock(disk, G, G.files[i].chain[c]);
    INodeRoundTrip(INodeOf(G.files[i], c));
    if c == 0 {
    } else {
      MountedChain(disk, G, i, c - 1);
    }
  }

  lemma MountedSector(disk: Image, G: Ghosts, i: Slot, s: nat)
    requires Inv(Mounted(disk), G) && s < |G.files[i].blocks|
    ensures s / 127 < |G.files[i].chain|
    ensures SectorAt(disk, G.files[i].chain[0], s) == G.files[i].sects[s]
  {
    hide Inv;
    MountedOwner(disk, G);
    assert FileOwned(G.owner, G.files[i], i);
    MountedChain(disk, G, i, s / 127);
    DataPointer(G, i, s);
    MountedBlock(disk, G, G.files[i].blocks[s]);
  }

  /** The cache-free reader finds on a mounted image exactly the files of its state. */
  lemma MountedFiles(disk: Image, G: Ghosts)
    requires Inv(Mounted(disk), G)
    ensures Abs(Mounted(disk), G).files == DiskFiles(disk)
  {
    hide Inv, FileAt, AbsFile, DirOf;
    forall i: Slot ensures FileAt(disk, i) == AbsFile(DirOf(disk)[i], G.files[i]) {
      MountedFile(disk, G, i);
    }
    assert AbsFiles(DirOf(disk), G.files) == DiskFiles(disk);
  }

  lemma MountedFile(disk: Image, G: Ghosts, i: Slot)
    requires Inv(Mounted(disk), G)
    ensures FileAt(disk, i) == AbsFile(DirOf(disk)[i], G.files[i])
  {
    hide Core, SectorAt, DecodeDir, PositionsOk;
    var e, g := DirOf(disk)[i], G.files[i];
    MountedEntry(disk, G, i);
    if Occupied(e) {
      var a, b := BytesAt(disk, e.inodeOffset, e.fileSize), Content(g, e.fileSize);
      forall k | 0 <= k < e.fileSize ensures a[k] == b[k] {
        assert k / 512 < |g.blocks|;
        MountedSector(disk, G, i, k / 512);
      }
      assert a == b;
    }
  }

  lemma MountedEntry(disk: Image, G: Ghosts, i: Slot)
    requires Inv(Mounted(disk), G)
    ensures EntryOk(DirOf(disk)[i], G.files[i]) && Sized(G.files[i], DirOf(disk)[i].fileSize)
    ensures |G.files[i].sects| == |G.files[i].blocks|
  {
    assert FileOwned(G.owner, G.files[i], i);
  }

  // ---------------------------------------------------------------- separation

  /** Number of the block that holds sector s of the file in slot i. */
  function DataAt(disk: Image, i: Slot, s: nat): u32 {
    DecodeINode(BlockAt(disk, ChainAt(disk, DirOf(disk)[i].inodeOffset, s / 127))).dataBlocks[s % 127]
  }

  /** Number of the block that holds inode c of the file in slot i. */
  function INodeAt(disk: Image, i: Slot, c: nat): u32 { ChainAt(disk, DirOf(disk)[i].inodeOffset, c) }

  function INodeCount(disk: Image, i: Slot): nat { INodesOf(DirOf(disk)[i].fileSize) }

  function DataCount(disk: Image, i: Slot): nat { DataBlocksOf(DirOf(disk)[i].fileSize) }

  lemma WalkINode(disk: Image, G: Ghosts, i: Slot, c: nat)
    requires Inv(Mounted(disk), G) && c < |G.files[i].chain|
    ensures INodeAt(disk, i, c) == G.files[i].chain[c]
    ensures DecodeINode(BlockAt(disk, G.files[i].chain[c])).next == 0 <==> c == |G.files[i].chain| - 1
  {
    hide Core, DecodeDir, DecodeINode, INodeOf;
    MountedEntry(disk, G, i);
    MountedOwner(disk, G);
    assert FileOwned(G.owner, G.files[i], i);
    MountedChain(disk, G, i, c);
    NextINode(G, i, c);
  }

  lemma WalkData(disk: Image, G: Ghosts, i: Slot, s: nat)
    requires Inv(Mounted(disk), G) && s < |G.files[i].blocks|
    ensures DataAt(disk, i, s) == G.files[i].blocks[s]
  {
    hide Core, DecodeDir, DecodeINode, INodeOf;
    MountedEntry(disk, G, i);
    MountedOwner(disk, G);
    assert FileOwned(G.owner, G.files[i], i);
    MountedChain(disk, G, i, s / 127);
    DataPointer(G, i, s);
  }

  /** The walk over the disk meets the blocks of the invariant. */
  lemma WalkMeets(disk: Image, G: Ghosts, i: Slot)
    requires Inv(Mounted(disk), G)
    ensures INodeCount(disk, i) == |G.files[i].chain| && DataCount(disk, i) == |G.files[i].blocks|
    ensures forall c :: 0 <= c < INodeCount(disk, i) ==> INodeAt(disk, i, c) == G.files[i].chain[c]
    ensures forall s :: 0 <= s < DataCount(disk, i) ==> DataAt(disk, i, s) == G.files[i].blocks[s]
    ensures forall c :: 0 <= c < INodeCount(disk, i) ==>
              (DecodeINode(BlockAt(disk, INodeAt(disk, i, c))).next == 0 <==> c == INodeCount(disk, i) - 1)
  {
    hide Inv, INodeAt, DataAt, DecodeINode, DecodeDir;
    var g, n := G.files[i], DirOf(disk)[i].fileSize;
    MountedEntry(disk, G, i);
    SizedBlocks(g, n);
    forall c | 0 <= c < |g.chain|
      ensures INodeAt(disk, i, c) == g.chain[c]
      ensures DecodeINode(BlockAt(disk, g.chain[c])).next == 0 <==> c == |g.chain| - 1
    {
      WalkINode(disk, G, i, c);
    }
    forall s | 0 <= s < |g.blocks| ensures DataAt(disk, i, s) == g.blocks[s] { WalkData(disk, G, i, s); }
  }

  /** Told of a consistent image alone: chains end with next 0 just after their last inode, and
      no block on them, or behind a data pointer, of any two files is met twice, or is out of
      range, or is block 0 but as a first inode. */
  lemma DiskSeparation(disk: Image, i: Slot, k: Slot)
    requires ImageOk(disk)
    ensures forall c, d :: 0 <= c < INodeCount(disk, i) && 0 <= d < INodeCount(disk, k) ==>
              INodeAt(disk, i, c) == INodeAt(disk, k, d) ==> i == k && c == d
    ensures forall s, t :: 0 <= s < DataCount(disk, i) && 0 <= t < DataCount(disk, k) ==>
              DataAt(disk, i, s) == DataAt(disk, k, t) ==> i == k && s == t
    ensures forall c, t :: 0 <= c < INodeCount(disk, i) && 0 <= t < DataCount(disk, k) ==>
              INodeAt(disk, i, c) != DataAt(disk, k, t)
    ensures forall s :: 0 <= s < DataCount(disk, i) ==> 0 < DataAt(disk, i, s) < 4096
    ensures forall c :: 0 <= c < INodeCount(disk, i) ==>
              INodeAt(disk, i, c) < 4096 && (c > 0 ==> INodeAt(disk, i, c) != 0)
              && (DecodeINode(BlockAt(disk, INodeAt(disk, i, c))).next == 0 <==> c == INodeCount(disk, i) - 1)
  {
    hide Inv, INodeAt, DataAt, INodeCount, DataCount, DecodeINode;
    var G :| Inv(Mounted(disk), G);
    MountedOwner(disk, G);
    WalkMeets(disk, G, i);
    WalkMeets(disk, G, k);
    BlockSeparation(G, i, k);
    var chain := G.files[i].chain;
    assert forall c :: 0 < c < |chain| ==> chain[c] == chain[1..][c - 1];
  }

  // ---------------------------------------------------------------- durability

  /** With every descriptor closed and the tables written back, the disk alone carries the
      whole state. */
  lemma Durable(S: Sys, G: Ghosts)
    requires Inv(S, G) && S.stateDir == USEFUL && S.stateBitmap == USEFUL
    requires forall j :: 0 <= j < 1024 ==> !S.pool[j].isOpen
    ensures Inv(Mounted(S.disk), G)
    ensures Abs(S, G).files == DiskFiles(S.disk)
  {
    SectorRoundTrips(S.dir, S.bitmap);
    DurableInv(S, G);
    MountedFiles(S.disk, G);
  }

  lemma DurableInv(S: Sys, G: Ghosts)
    requires Inv(S, G) && S.stateDir == USEFUL && S.stateBitmap == USEFUL
    requires forall j :: 0 <= j < 1024 ==> !S.pool[j].isOpen
    requires DirOf(S.disk) == S.dir && DecodeBitmap(S.disk[1]) == S.bitmap
    ensures Inv(Mounted(S.disk), G)
  {
    hide OwnerOk, DirOk, BitmapOk, EncodeDir, EncodeBitmap, DecodeDir, DecodeBitmap;
    var M := Mounted(S.disk);
    forall i: Slot ensures G.holder[i] == -1 { assert HolderOk(S.pool, G.holder, -1, i); }
    assert DiskOk(M, G, -1) by {
      forall b: Block | G.owner[b] != Free && !Dirty(M.pool, G, b) ensures M.disk[3 + b] == Logical(G, b) {
        assert !Dirty(S.pool, G, b);
      }
    }
  }

  // ---------------------------------------------------------------- the first file's layout

  /** The image holds one file, in slot i, laid out block by block from block 0. */
  ghost predicate LoneFile(image: Image, i: int) {
    0 <= i < 16 && exists G :: Inv(Mounted(image), G) && Linear(G, i)
  }

  /** Read off the disk alone: inode c of the lone file is block 128 * c, and its sector s is
      block s + s / 127 + 1. */
  lemma ClosedFormLayout(image: Image, i: Slot, c: nat, s: nat)
    requires LoneFile(image, i) && Occupied(DirOf(image)[i])
    ensures c < INodeCount(image, i) ==> INodeAt(image, i, c) == 128 * c
    ensures s < DataCount(image, i) ==> DataAt(image, i, s) == s + s / 127 + 1
  {
    hide Inv, INodeAt, DataAt, INodeCount, DataCount;
    var G :| Inv(Mounted(image), G) && Linear(G, i);
    WalkMeets(image, G, i);
  }
}
