/** kernel/fs.c. The fields are its global variables plus the disk behind ide_read and
    ide_write; `G` is the ghost account of what the blocks mean. */
module FileSystem {
  import opened Words
  import opened CString
  import opened Bitmap
  import opened FsLayout
  import opened FsSpec
  import opened FsInv
  import opened FsAbs
  import opened FsImage

  class FileSystem {
    var disk: Image
    var dir: Dir
    var bitmap: WordSector
    var stateDir: CacheState
    var stateBitmap: CacheState
    var fdPool: Pool
    ghost var G: Ghosts

    ghost function S(): Sys
      reads this
    {
      Sys(disk, dir, bitmap, stateDir, stateBitmap, fdPool)
    }

    ghost predicate Valid()
      reads this
    {
      Inv(S(), G)
    }

    /** The files and descriptors this state stands for. */
    ghost function State(): Fs
      reads this
    {
      Abs(S(), G)
    }

    /** Every open descriptor's caches are just where its cursor is. */
    ghost predicate AllTight()
      reads this
    {
      forall j :: 0 <= j < 1024 && fdPool[j].isOpen ==> Tight(fdPool[j])
    }

    /** With no descriptor open the tables are written back. */
    ghost predicate Clean()
      reads this
    {
      NoneOpen(State()) ==> stateDir == USEFUL && stateBitmap == USEFUL
    }

    /** A fresh process over the image: the C variables start zeroed. */
    constructor (image: Image)
      ensures disk == image && fdPool == AllClosed()
    {
      disk := image;
      dir := seq(16, _ => EmptyEntry());
      bitmap := seq(128, _ => 0);
      stateDir, stateBitmap := GARBAGE, GARBAGE;
      fdPool := AllClosed();
      G := Ghosts(seq(16, _ => EMPTY_FILE), seq(4096, _ => Free), seq(16, _ => -1));
    }

    /** Reads the directory and the bitmap. From a consistent image this gives a valid state
        with exactly the files the image holds. */
    method FsInit()
      requires ImageOk(disk) && fdPool == AllClosed()
      modifies this
      ensures Valid() && AllTight() && Clean() && disk == old(disk) && fdPool == AllClosed()
      ensures S() == Mounted(disk)
      ensures State().files == DiskFiles(disk)
    {
      hide Inv, DiskFiles, AbsFiles, AbsDescs, DecodeDir, DecodeBitmap, AllClosed;
      stateBitmap, stateDir := USEFUL, USEFUL;
      dir := DecodeDir(disk[FSOFFSET_DIR]);
      bitmap := DecodeBitmap(disk[FSOFFSET_BITMAP]);
      ghost var meaning :| Inv(Mounted(disk), meaning);
      G := meaning;
      MountedFiles(disk, G);
      NothingOpen();
    }

    /** Writes the dirty tables back. */
    method FsFlush(ghost a: int)
      requires Core(S(), G, -1, a)
      modifies this`disk, this`stateDir, this`stateBitmap
      ensures Core(S(), G, -1, a)
      ensures stateDir == USEFUL && stateBitmap == USEFUL
      ensures disk[1] == EncodeBitmap(bitmap) && disk[2] == EncodeDir(dir)
      ensures disk[3..] == old(disk[3..])
    {
      ghost var S0 := S();
      if stateDir == NEED_WASHING { disk := disk[FSOFFSET_DIR := EncodeDir(dir)]; }
      if stateBitmap == NEED_WASHING { disk := disk[FSOFFSET_BITMAP := EncodeBitmap(bitmap)]; }
      stateBitmap, stateDir := USEFUL, USEFUL;
      FlushTables(S0, G, a, S());
    }

    /** Takes the lowest clear bit of the bitmap. The search bound is the source's 4096 words,
        though only 128 exist: with every bit set, and only then, the search reads on past the
        array. */
    method FindEmptyInode() returns (r: Search)
      requires stateBitmap != GARBAGE
      modifies this`bitmap, this`stateBitmap
      ensures r.PastEnd? <==> |UsedSet(old(bitmap))| == 4096
      ensures r.PastEnd? ==> bitmap == old(bitmap) && stateBitmap == old(stateBitmap)
      ensures r.Found? ==> FirstFit(old(bitmap), bitmap, r.block) && stateBitmap == NEED_WASHING
    {
      hide UsedSet;
      ClearBitExists(bitmap);
      var i := 0;
      while i < 4096
        invariant 0 <= i <= 128
        invariant forall m :: 0 <= m < i ==> Not32(bitmap[m]) == 0
        invariant bitmap == old(bitmap) && stateBitmap == old(stateBitmap)
      {
        if i == |bitmap| {
          forall b | 0 <= b < NBLOCKS ensures Used(bitmap, b) { FullWord(bitmap[b / 32], b % 32); }
          return PastEnd;
        }
        if Not32(bitmap[i]) != 0 {
          var k := LowestClearBit(bitmap[i]);
          stateBitmap := NEED_WASHING;
          SetBit(bitmap[i], k);
          SetBitFirstFit(bitmap, i, k);
          bitmap := bitmap[i := Or(bitmap[i], Pow2(k))];
          return Found(32 * i + k);
        }
        i := i + 1;
      }
    }

    /** Writes a dirty inode back; no block changes its meaning. */
    method FdInodeFlush(fd: nat, ghost x: int, ghost a: int)
      requires fd < 1024 && Live(fdPool, a, fd) && Core(S(), G, x, a)
      modifies this`disk, this`fdPool
      ensures Core(S(), G, x, a)
      ensures fdPool == old(fdPool)[fd := fdPool[fd]]
      ensures fdPool[fd] == old(fdPool[fd]).(inodeState := fdPool[fd].inodeState)
      ensures var st := old(fdPool[fd]).inodeState;
              fdPool[fd].inodeState == if st == NEED_WASHING then USEFUL else st
      ensures disk[..3] == old(disk[..3])
    {
      hide Core, OwnerOk, BitmapOk, HolderOk, FileOwned, INodeOf, EncodeINode, UsedSet;
      if fdPool[fd].inodeState == NEED_WASHING {
        ghost var S0 := S();
        CoreFacts(S0, G, x, a, fd);
        fdPool := fdPool[fd := fdPool[fd].(inodeState := USEFUL)];
        disk := disk[3 + fdPool[fd].inodeIdx := EncodeINode(fdPool[fd].inode)];
        FlushINode(S0, G, x, a, fd, S());
      }
    }

    /** Writes a dirty sector back and forgets it; no block changes its meaning. */
    method FdBufferFlush(fd: nat, ghost a: int)
      requires fd < 1024 && Live(fdPool, a, fd) && Core(S(), G, -1, a)
      modifies this`disk, this`fdPool
      ensures Core(S(), G, -1, a)
      ensures fdPool == old(fdPool)[fd := old(fdPool[fd]).(bufferState := GARBAGE)]
      ensures disk[..3] == old(disk[..3])
    {
      hide Core, OwnerOk, BitmapOk, HolderOk, FileOwned, INodeOf, SectorOf, UsedSet;
      ghost var S0 := S();
      CoreFacts(S0, G, -1, a, fd);
      if fdPool[fd].bufferState == NEED_WASHING {
        disk := disk[3 + fdPool[fd].bufferIdx := fdPool[fd].buffer];
        fdPool := fdPool[fd := fdPool[fd].(bufferState := GARBAGE)];
        FlushBuffer(S0, G, a, fd, S());
      } else {
        fdPool := fdPool[fd := fdPool[fd].(bufferState := GARBAGE)];
        Recache(S0, G, a, fd, fdPool[fd], S());
      }
    }

    /** Gives an empty file its first inode. */
    method FdSetInode(fd: nat)
      requires fd < 1024 && Core(S(), G, -1, fd)
      requires fdPool[fd].inodeState == GARBAGE && |UsedSet(bitmap)| < 4096
      requires G.holder[fdPool[fd].index] == fd && G.files[fdPool[fd].index].chain == []
      modifies this`bitmap, this`stateBitmap, this`dir, this`stateDir, this`fdPool, this`G
      ensures Core(S(), G, -1, fd)
      ensures var i, b := old(fdPool[fd].index), fdPool[fd].inodeIdx;
              && b < 4096 && FirstFit(old(bitmap), bitmap, b) && old(G).owner[b] == Free
              && G == GrowChain(old(G), i, b)
              && SameEntries(old(dir), dir, i)
              && fdPool == old(fdPool)[fd := old(fdPool[fd]).(inodeIdx := b, inode := ZeroINode(),
                                                               inodeState := NEED_WASHING)]
    {
      ghost var S0 := S();
      var i := fdPool[fd].index;
      var r := FindEmptyInode();
      var b := r.block;
      FirstFitBlock(S0.bitmap, bitmap, G, b);
      dir := dir[i := dir[i].(inodeOffset := b)];
      stateDir := NEED_WASHING;
      fdPool := fdPool[fd := fdPool[fd].(inodeIdx := b, inode := ZeroINode(), inodeState := NEED_WASHING)];
      SetINode(S0, G, fd, fd, b, bitmap, S());
      G := GrowChain(G, i, b);
    }

    /** Links a new inode after the last one of the chain and turns the cache to it. */
    method FdAllocNextInode(fd: nat)
      requires fd < 1024 && Core(S(), G, -1, fd)
      requires |UsedSet(bitmap)| < 4096
      requires var i, d := fdPool[fd].index, fdPool[fd];
               && G.holder[i] == fd && G.files[i].chain != [] && d.inodeIdx < 4096
               && G.owner[d.inodeIdx] == InodeOf(i, |G.files[i].chain| - 1)
               && d.inode == INodeOf(G.files[i], |G.files[i].chain| - 1)
               && |G.files[i].blocks| <= 127 * |G.files[i].chain|
      modifies this`bitmap, this`stateBitmap, this`disk, this`fdPool, this`G
      ensures Core(S(), G, -1, fd)
      ensures var i, b := old(fdPool[fd].index), fdPool[fd].inodeIdx;
              && b < 4096 && FirstFit(old(bitmap), bitmap, b) && old(G).owner[b] == Free
              && G == GrowChain(old(G), i, b)
              && fdPool == old(fdPool)[fd := old(fdPool[fd]).(inodeIdx := b, inode := ZeroINode(),
                                                               inodeState := NEED_WASHING)]
    {
      hide Core, OwnerOk, BitmapOk, HolderOk, FileOwned, FdOk, FirstFit, UsedSet, INodeOf;
      ghost var S0 := S();
      ghost var i := fdPool[fd].index;
      CoreFacts(S0, G, -1, fd, fd);
      fdPool := fdPool[fd := fdPool[fd].(inodeState := NEED_WASHING)];
      var r := FindEmptyInode();
      var b := r.block;
      FirstFitBlock(S0.bitmap, bitmap, G, b);
      fdPool := fdPool[fd := fdPool[fd].(inode := fdPool[fd].inode.(next := b))];
      LinkNext(S0, G, fd, fd, b, bitmap, S());
      G := GrowChain(G, i, b);
      FdInodeFlush(fd, b, fd);
      ghost var S1 := S();
      assert fdPool[fd].inode.next == b;
      fdPool := fdPool[fd := fdPool[fd].(inodeState := NEED_WASHING, inodeIdx := fdPool[fd].inode.next,
                                         inode := ZeroINode())];
      ZeroINodeOf(G.files[i], |G.files[i].chain| - 1);
      assert G.owner[b] == InodeOf(i, |G.files[i].chain| - 1);
      FreshINode(S1, G, fd, fd, b, S());
    }

    /** Brings the inode for the current offset into the cache: the file's first, the next
        one of the chain, or a newly allocated one when the chain ends here. */
    method FdInodeStateInit(fd: nat)
      requires fd < 1024 && Core(S(), G, -1, fd)
      requires var d := fdPool[fd];
               var g, c := G.files[d.index], d.offset / 65024;
               && d.inodeState == GARBAGE && d.offset % 65024 == 0 && c <= |g.chain|
               && (c > 0 ==> d.inodeIdx < 4096 && G.owner[d.inodeIdx] == InodeOf(d.index, c - 1))
               && (c > 0 ==> d.inode == INodeOf(g, c - 1))
               && (c == |g.chain| ==> G.holder[d.index] == fd && |UsedSet(bitmap)| < 4096 && |g.blocks| == 127 * c)
      modifies this
      ensures Core(S(), G, -1, fd)
      ensures var d, d' := old(fdPool[fd]), fdPool[fd];
              var i, c := d.index, d.offset / 65024;
              && fdPool == old(fdPool)[fd := d.(inodeIdx := d'.inodeIdx, inode := d'.inode,
                                                 inodeState := d'.inodeState)]
              && d'.inodeState != GARBAGE && d'.inodeIdx < 4096 && G.owner[d'.inodeIdx] == InodeOf(i, c)
              && Extends(old(G), G, i) && SameEntries(old(dir), dir, i)
              && G.files[i].blocks == old(G).files[i].blocks
              && |G.files[i].chain| == (if c < |old(G).files[i].chain| then |old(G).files[i].chain| else c + 1)
              && (c < |old(G).files[i].chain| ==> G == old(G) && dir == old(dir) && bitmap == old(bitmap))
              && |UsedSet(bitmap)| <= |UsedSet(old(bitmap))| + 1
              && (Linear(old(G), i) ==> Linear(G, i))
    {
      hide Core, OwnerOk, BitmapOk, HolderOk, FdOk, FirstFit, Linear, INodeOf, DecodeINode, UsedSet;
      ghost var S0, G0 := S(), G;
      ghost var i, c := fdPool[fd].index, fdPool[fd].offset / 65024;
      CoreFacts(S0, G, -1, fd, fd);
      if fdPool[fd].offset == 0 {
        FirstINode(S0, G, fd, fd);
        if dir[fdPool[fd].index].inodeOffset == NO_INODE {
          FdSetInode(fd);
          GrowChainExtends(G0, i, fdPool[fd].inodeIdx);
          FirstFitSize(S0.bitmap, bitmap, fdPool[fd].inodeIdx);
          if Linear(G0, i) { GrowChainLinear(S0.bitmap, bitmap, G0, i, fdPool[fd].inodeIdx); }
          return;
        }
        LoadINode(S0, G, fd, fd, G.files[i].chain[0], 0);
        fdPool := fdPool[fd := fdPool[fd].(inodeState := USEFUL, inodeIdx := dir[fdPool[fd].index].inodeOffset,
                                           inode := DecodeINode(disk[3 + dir[fdPool[fd].index].inodeOffset]))];
        return;
      }
      NextINode(G, i, c - 1);
      if fdPool[fd].inode.next == 0 {
        FdAllocNextInode(fd);
        GrowChainExtends(G0, i, fdPool[fd].inodeIdx);
        FirstFitSize(S0.bitmap, bitmap, fdPool[fd].inodeIdx);
        if Linear(G0, i) { GrowChainLinear(S0.bitmap, bitmap, G0, i, fdPool[fd].inodeIdx); }
        return;
      }
      LoadINode(S0, G, fd, fd, G.files[i].chain[c], c);
      fdPool := fdPool[fd := fdPool[fd].(inodeState := USEFUL, inodeIdx := fdPool[fd].inode.next,
                                         inode := DecodeINode(disk[3 + fdPool[fd].inode.next]))];
    }

    /** kernel/fs.c:119-123: at an inode boundary, moves the inode cache on. */
    method FdInodeFetch(fd: nat)
      requires fd < 1024 && fdPool[fd].isOpen && Core(S(), G, -1, fd)
      requires var d := fdPool[fd];
               && d.bufferState == GARBAGE
               && SizesOk(G.files, dir) && PosOk(G.owner, d, dir[d.index].fileSize)
               && (d.offset == dir[d.index].fileSize && d.offset % 65024 == 0 ==>
                     G.holder[d.index] == fd && |UsedSet(bitmap)| < 4096)
      modifies this
      ensures Core(S(), G, -1, fd)
      ensures old(fdPool[fd].offset) < old(dir[fdPool[fd].index].fileSize) || old(fdPool[fd].offset) % 65024 != 0 ==>
                G == old(G) && dir == old(dir) && bitmap == old(bitmap)
      ensures |UsedSet(bitmap)| <= |UsedSet(old(bitmap))| + 1
      ensures INodeFetched(old(S()), old(G), S(), G, fd)
    {
      hide Core, OwnerOk, BitmapOk, HolderOk, FirstFit, Linear, INodeOf, DecodeINode, UsedSet, FileOwned, SizesOk;
      CoreFacts(S(), G, -1, fd, fd);
      SizedPosition(G.files, dir, fdPool[fd].index, fdPool[fd].offset);
      if fdPool[fd].offset % INODE_CAPACITY == 0 {
        FdInodeFlush(fd, -1, fd);
        DropINode(S(), G, fd, fd);
        fdPool := fdPool[fd := fdPool[fd].(inodeState := GARBAGE)];
        FdInodeStateInit(fd);
      }
    }

    /** kernel/fs.c:126-127, 129: a fresh block for the sector at the current offset. Its disk
        sector stays stale until the buffer is written. */
    method FdBufferAlloc(fd: nat, index: nat) returns (b: Block)
      requires fd < 1024 && Core(S(), G, -1, fd)
      requires var d, g := fdPool[fd], G.files[fdPool[fd].index];
               && G.holder[d.index] == fd && |UsedSet(bitmap)| < 4096
               && d.bufferState == GARBAGE && d.inodeState != GARBAGE && d.inodeIdx < 4096
               && |g.blocks| < 127 * |g.chain| && index == |g.blocks| % 127
               && G.owner[d.inodeIdx] == InodeOf(d.index, |g.blocks| / 127)
      modifies this
      ensures Core(S(), G, b, fd)
      ensures var d, d' := old(fdPool[fd]), fdPool[fd];
              var i := d.index;
              && fdPool == old(fdPool)[fd := d.(inode := d'.inode, inodeState := NEED_WASHING,
                                                 bufferIdx := b, bufferState := USEFUL)]
              && old(G).owner[b] == Free && G == GrowBlocks(old(G), i, b, d.buffer)
              && dir == old(dir)
              && (Linear(old(G), i) && |G.files[i].chain| == old(|G.files[fdPool[fd].index].blocks|) / 127 + 1 ==>
                    Linear(G, i))
    {
      hide Core, OwnerOk, BitmapOk, HolderOk, FirstFit, Linear, INodeOf, FileOwned, FdOk;
      ghost var S0, i := S(), fdPool[fd].index;
      CoreFacts(S0, G, -1, fd, fd);
      var r := FindEmptyInode();
      b := r.block;
      FirstFitBlock(S0.bitmap, bitmap, G, b);
      var inode := fdPool[fd].inode;
      fdPool := fdPool[fd := fdPool[fd].(inode := inode.(dataBlocks := inode.dataBlocks[index := b]),
                                         inodeState := NEED_WASHING, bufferIdx := b, bufferState := USEFUL)];
      AllocSector(S0, G, fd, fd, b, bitmap, S());
      if Linear(G, i) && |G.files[i].chain| == |G.files[i].blocks| / 127 + 1 {
        GrowBlocksLinear(S0.bitmap, bitmap, G, i, b, fdPool[fd].buffer);
      }
      G := GrowBlocks(G, i, b, fdPool[fd].buffer);
    }

    /** kernel/fs.c:128-129: reads the sector the cached inode points at. */
    method FdBufferLoad(fd: nat, index: nat)
      requires fd < 1024 && Core(S(), G, -1, fd) && index < 127
      requires var d := fdPool[fd];
               && d.bufferState == GARBAGE && d.inode.dataBlocks[index] < 4096
               && G.owner[d.inode.dataBlocks[index]].DataOf? && G.owner[d.inode.dataBlocks[index]].slot == d.index
      modifies this`fdPool
      ensures Core(S(), G, -1, fd)
      ensures var d, d' := old(fdPool[fd]), fdPool[fd];
              fdPool == old(fdPool)[fd := d.(bufferIdx := d.inode.dataBlocks[index], buffer := d'.buffer,
                                              bufferState := USEFUL)]
    {
      hide Core;
      LoadSector(S(), G, fd, fd, fdPool[fd].inode.dataBlocks[index], G.owner[fdPool[fd].inode.dataBlocks[index]].idx);
      fdPool := fdPool[fd := fdPool[fd].(bufferIdx := fdPool[fd].inode.dataBlocks[index],
                                         buffer := disk[3 + fdPool[fd].inode.dataBlocks[index]],
                                         bufferState := USEFUL)];
    }

    /** The buffer holds, or is the new home of, the sector at the current offset. At the end
        of a whole number of sectors this allocates; anywhere else it never does. When it
        allocates, the block's sector on disk (x) is stale until the buffer is written. */
    method FdBufferFetch(fd: nat) returns (ghost x: int)
      requires fd < 1024 && fdPool[fd].isOpen && Core(S(), G, -1, fd)
      requires var d := fdPool[fd];
               && SizesOk(G.files, dir) && PosOk(G.owner, d, dir[d.index].fileSize)
               && (d.offset == dir[d.index].fileSize && d.offset % 512 == 0 ==>
                     && G.holder[d.index] == fd
                     && |UsedSet(bitmap)| + 1 + (if d.offset % 65024 == 0 then 1 else 0) <= 4096)
      modifies this
      ensures Core(S(), G, x, fd)
      ensures x == -1 || x == fdPool[fd].bufferIdx
      ensures old(fdPool[fd].offset) < old(dir[fdPool[fd].index].fileSize) ==>
                x == -1 && G == old(G) && dir == old(dir) && bitmap == old(bitmap)
      ensures Fetched(old(S()), old(G), S(), G, fd)
    {
      hide Core, OwnerOk, BitmapOk, HolderOk, FirstFit, Linear, INodeOf, UsedSet, FileOwned, FdOk, SizesOk, Extends,
           Fetched;
      ghost var S0, G0 := S(), G;
      ghost var i, s, c := fdPool[fd].index, fdPool[fd].offset / 512, fdPool[fd].offset / 65024;
      CoreFacts(S(), G, -1, fd, fd);
      SizedPosition(G.files, dir, i, fdPool[fd].offset);
      x := -1;
      if fdPool[fd].bufferState == GARBAGE {
        assert fdPool[fd].offset % SECTSIZE == 0;
        FdInodeFetch(fd);
        ghost var S1, G1 := S(), G;
        var index := fdPool[fd].offset / SECTSIZE % N_INODE_DATABLOCK;
        CachedPointer(S(), G, fd, fd, s);
        if fdPool[fd].inode.dataBlocks[index] == 0 {
          var b := FdBufferAlloc(fd, index);
          x := b;
          FetchedByAlloc(S0, G0, S1, G1, S(), G, fd, b);
        } else {
          FdBufferLoad(fd, index);
          FetchedByLoad(S0, G0, S1, G1, S(), fd);
        }
      } else {
        FetchedAlready(S0, G0, fd);
      }
    }

    /** One turn of the loop at kernel/fs.c:176-185: the bytes from the cursor to the end of
        its sector, at most `rest` of them. */
    method FdReadChunk(fd: nat, rest: nat) returns (chunk: seq<byte>)
      requires Valid() && fd < 1024 && fdPool[fd].isOpen
      requires 0 < rest <= dir[fdPool[fd].index].fileSize - fdPool[fd].offset
      modifies this
      ensures Valid() && G == old(G) && bitmap == old(bitmap) && dir == old(dir)
      ensures 0 < |chunk| <= rest
      ensures var d, d' := old(fdPool[fd]), fdPool[fd];
              && fdPool == old(fdPool)[fd := d']
              && d'.isOpen && d'.index == d.index && d'.writable == d.writable && d'.offset == d.offset + |chunk|
              && chunk == Content(G.files[d.index], dir[d.index].fileSize)[d.offset..d.offset + |chunk|]
              && Tight(d')
    {
      hide Core, OwnerOk, SizesOk, PosOk, Content, FdOk, HolderOk, UsedSet, Linear, Extends, SameEntries, SectorOf, Abs;
      ghost var S0, i := S(), fdPool[fd].index;
      CoreOfOpen(S0, G, -1, fd);
      OpenView(S0, G, fd);
      ghost var x := FdBufferFetch(fd);
      var d := fdPool[fd];
      var offset := d.offset % SECTSIZE;
      var count := Min(rest, SECTSIZE - offset);
      MoveOffset(S(), G, fd, fd, d.offset + count);
      fdPool := fdPool[fd := d.(offset := d.offset + count)];
      chunk := fdPool[fd].buffer[offset..offset + count];
      BufferSlice(S(), G, -1, fd, fd, d.offset / 512);
      SectorSlice(G.files[i], dir[i].fileSize, d.offset, count);
      if fdPool[fd].offset % SECTSIZE == 0 {
        FdBufferFlush(fd, fd);
      }
      PosAdvance(G.owner, d, fdPool[fd], count, dir[i].fileSize);
      PositionsKept(G, G, S0.pool, fdPool, dir, dir, fd);
      Settle(S(), G, fd);
    }

    /** Reads up to len bytes from the cursor of fd into buf: exactly the bytes of the file
        there, stopping at its end. Nothing is allocated and no file changes. */
    method FsRead(fd: nat, buf: array<byte>, len: int) returns (nRead: int)
      requires Valid() && fd < 1024 && IsOpen(State(), fd)
      requires ReadCount(State(), fd, len) <= buf.Length
      modifies this, buf
      ensures Valid()
      ensures nRead == ReadCount(old(State()), fd, len)
      ensures State() == ReadOp(old(State()), fd, len).0
      ensures buf[..nRead] == ReadOp(old(State()), fd, len).1
      ensures buf[nRead..] == old(buf[nRead..])
      ensures (old(AllTight()) ==> AllTight()) && (nRead == 0 ==> S() == old(S()))
      ensures G == old(G) && bitmap == old(bitmap) && dir == old(dir)
    {
      hide Inv, Content, ReadOp, AbsFiles, AbsDescs;
      ghost var S0 := S();
      ghost var i, off0 := fdPool[fd].index, fdPool[fd].offset;
      ghost var content := Content(G.files[i], dir[i].fileSize);
      OpenIsOpen(S0, G, fd);
      OpenView(S0, G, fd);
      var limit := Min(len, dir[fdPool[fd].index].fileSize - fdPool[fd].offset);
      nRead := 0;
      while nRead < limit
        invariant 0 <= nRead && (nRead <= limit || nRead == 0)
        invariant Valid() && G == old(G) && bitmap == old(bitmap) && dir == old(dir)
        invariant if nRead == 0 then S() == S0 else Tight(fdPool[fd])
        invariant fdPool[fd].isOpen && fdPool[fd].index == i && fdPool[fd].writable == old(fdPool[fd]).writable
        invariant fdPool[fd].offset == off0 + nRead
        invariant fdPool == old(fdPool)[fd := fdPool[fd]]
        invariant buf[..nRead] == content[off0..off0 + nRead]
        invariant buf[nRead..] == old(buf[nRead..])
      {
        ghost var before := buf[..];
        var chunk := FdReadChunk(fd, limit - nRead);
        Memcpy(buf, nRead, chunk);
        CopiedOn(old(buf[..]), before, buf[..], nRead, chunk, content[off0..off0 + nRead]);
        SliceJoin(content, off0, off0 + nRead, off0 + nRead + |chunk|);
        nRead := nRead + |chunk|;
      }
      ReadDone(S0, G, S(), fd, len, nRead);
    }

    /** kernel/fs.c:197-204: lays chunk into the fetched buffer, moves the cursor past it and
        lengthens the file if it now ends there. */
    method FdStore(fd: nat, chunk: seq<byte>, ghost x: int)
      requires fd < 1024 && fdPool[fd].isOpen && Core(S(), G, x, fd)
      requires var d := fdPool[fd];
               && G.holder[d.index] == fd && 0 < |chunk| <= 512 - d.offset % 512
               && AtHand(G.owner, d, d.offset) && (x == -1 || x == d.bufferIdx)
               && d.offset + |chunk| < 0x1_0000_0000
      modifies this`fdPool, this`dir, this`stateDir, this`G
      ensures Core(S(), G, -1, fd)
      ensures Stored(old(S()), old(G), S(), G, fd, chunk)
    {
      hide Core, OwnerOk, BitmapOk, HolderOk, FileOwned, FdOk, UsedSet, SectorOf;
      ghost var S0, d := S(), fdPool[fd];
      BufferSlice(S0, G, x, fd, fd, d.offset / 512);
      CoreFacts(S0, G, x, fd, fd);
      var offset := fdPool[fd].offset % SECTSIZE;
      fdPool := fdPool[fd := fdPool[fd].(bufferState := NEED_WASHING, offset := fdPool[fd].offset + |chunk|,
                                         buffer := Patched(fdPool[fd].buffer, offset, chunk))];
      if dir[fdPool[fd].index].fileSize < fdPool[fd].offset {
        dir := dir[fdPool[fd].index := dir[fdPool[fd].index].(fileSize := fdPool[fd].offset)];
        stateDir := NEED_WASHING;
      }
      StoreSector(S0, G, x, fd, fd, d.offset / 512, fdPool[fd], dir, stateDir, S());
      G := SetSector(G, d.index, d.offset / 512, fdPool[fd].buffer);
    }

    /** One turn of the loop at kernel/fs.c:194-208: the bytes of src that fit in the current
        sector are laid over the file's content at the cursor. */
    method FdWriteChunk(fd: nat, src: seq<byte>) returns (count: nat)
      requires Valid() && fd < 1024 && fdPool[fd].isOpen && fdPool[fd].writable && src != []
      requires var i, o := fdPool[fd].index, fdPool[fd].offset;
               && G.holder[i] == fd
               && |UsedSet(bitmap)| + BlocksOf(Max(dir[i].fileSize, o + |src|)) - BlocksOf(dir[i].fileSize) <= 4096
      modifies this
      ensures Valid() && 0 < count <= |src|
      ensures Spliced(old(S()), old(G), S(), G, fd, src[..count]) && G.holder == old(G).holder
      ensures Tight(fdPool[fd])
    {
      hide Core, OwnerOk, SizesOk, PosOk, BlocksOf, Linear, FileOwned, FdOk, Spliced, PositionsOk, AtHand;
      ghost var S0, G0, i := S(), G, fdPool[fd].index;
      CoreOfOpen(S0, G, -1, fd);
      OpenView(S0, G, fd);
      WriteRoom(S0, G, fd, |src|);
      var offset := fdPool[fd].offset % SECTSIZE;
      count := Min(|src|, SECTSIZE - offset);
      ghost var x := FdBufferFetch(fd);
      ghost var S1, G1 := S(), G;
      SectorEnd(fdPool[fd].offset, count);
      FdStore(fd, src[..count], x);
      ghost var S2 := S();
      if offset + count == SECTSIZE {
        FdBufferFlush(fd, fd);
      }
      WriteSettled(S0, G0, S1, G1, S2, S(), G, fd, src[..count]);
    }

    /** Lays the first len bytes of buf over the file of fd at its cursor, lengthening it as
        needed. */
    method FsWrite(fd: nat, buf: array<byte>, len: int) returns (result: int)
      requires Valid() && len <= buf.Length
      requires MayWrite(State(), fd, Prefix(buf[..], len))
      modifies this
      ensures Valid()
      ensures result == |Prefix(buf[..], len)|
      ensures State() == WriteOp(old(State()), fd, Prefix(buf[..], len))
      ensures old(AllTight()) ==> AllTight()
      ensures Linear(old(G), old(fdPool[fd].index)) ==> Linear(G, old(fdPool[fd].index))
      ensures forall k: Slot :: k != old(fdPool[fd].index) ==> G.files[k] == old(G).files[k]
    {
      hide Inv, Linear, Sole, BlocksTaken, BlocksOf, UsedSet, WriteOp, Writable;
      OpenOnly(S(), G, fd, Prefix(buf[..], len));
      ghost var s0, data, i := State(), Prefix(buf[..], len), fdPool[fd].index;
      TakeHold(S(), G, fd, G.(holder := G.holder[i := fd]));
      G := G.(holder := G.holder[i := fd]);
      LinearHolder(old(G), G, i);
      result := 0;
      while result < len
        invariant 0 <= result <= |data|
        invariant Valid() && Writable(s0, fd) && State() == WriteOp(s0, fd, data[..result])
        invariant fdPool[fd].isOpen && fdPool[fd].index == i && fdPool[fd].writable && G.holder[i] == fd
        invariant fdPool == old(fdPool)[fd := fdPool[fd]] && (result == 0 ==> fdPool == old(fdPool))
        invariant result > 0 ==> Tight(fdPool[fd])
        invariant Linear(old(G), i) ==> Linear(G, i)
        invariant forall k: Slot :: k != i ==> G.files[k] == old(G).files[k]
      {
        ghost var S1, G1, rest := S(), G, data[result..];
        WriteTwice(s0, fd, data[..result], rest);
        assert data[..result] + rest == data;
        RoomLeft(S1, G1, fd, rest);
        var count := FdWriteChunk(fd, buf[result..len]);
        SplicedAbs(S1, G1, S(), G, fd, rest[..count]);
        WriteTwice(s0, fd, data[..result], rest[..count]);
        assert data[..result] + rest[..count] == data[..result + count] && fdPool[fd].writable;
        result := result + count;
      }
      assert data[..result] == data;
    }

    /** The first closed descriptor, or -1: the loops at kernel/fs.c:150 and 159. */
    method FirstClosedFd() returns (j: int)
      ensures j == FirstClosed(State())
    {
      hide Inv, AbsFiles;
      ghost var descs := State().descs;
      j := 0;
      while j < FDPOOL_SIZE
        invariant 0 <= j <= 1024
        invariant forall k :: 0 <= k < j ==> descs[k].Open?
      {
        if !fdPool[j].isOpen {
          assert descs[j].Closed?;
          return;
        }
        j := j + 1;
      }
      j := -1;
    }

    /** kernel/fs.c:138-142 */
    method InternalOpen(fd: nat)
      requires fd < 1024
      modifies this`fdPool
      ensures fdPool == old(fdPool)[fd := old(fdPool[fd]).(bufferState := GARBAGE, inodeState := GARBAGE,
                                                            offset := 0, isOpen := true)]
    {
      fdPool := fdPool[fd := fdPool[fd].(bufferState := GARBAGE, inodeState := GARBAGE)];
      fdPool := fdPool[fd := fdPool[fd].(offset := 0)];
      fdPool := fdPool[fd := fdPool[fd].(isOpen := true)];
    }

    /** kernel/fs.c:151-153. The `&&` on line 151 short-circuits for every slot but 0, so only
        there is the writable flag set, and only there is write access refused. */
    method OpenExisting(i: Slot, j: nat, flags: int) returns (r: int)
      requires Valid() && j < 1024 && !fdPool[j].isOpen && Occupied(dir[i])
      requires (i == 0 && RdWr(flags)) || Quiet(State(), i)
      modifies this`fdPool
      ensures Valid()
      ensures var s := old(State());
              (State(), r) == if i == 0 && RdWr(flags) then (s.(descs := s.descs[j := Closed(true)]), E_ACCESS)
                              else (s.(descs := s.descs[j := Open(i, 0, i != 0 && s.descs[j].writable, false)]), j)
      ensures Opened(old(fdPool), fdPool)
    {
      hide Inv, Quiet, AbsFiles;
      ghost var S0, s := S(), State();
      assert s.descs[j] == Closed(fdPool[j].writable);
      fdPool := fdPool[j := fdPool[j].(index := i)];
      if i == 0 {
        fdPool := fdPool[j := fdPool[j].(writable := RdWr(flags))];
        if fdPool[j].writable {
          assert fdPool == S0.pool[j := fdPool[j]];
          TouchClosed(S0, G, j, fdPool[j]);
          return E_ACCESS;
        }
      }
      InternalOpen(j);
      QuietView(S0, G, i);
      assert fdPool == S0.pool[j := fdPool[j]];
      OpenSlot(S0, G, i, j, fdPool[j]);
      return j;
    }

    /** kernel/fs.c:160-167 */
    method CreateFile(i: Slot, j: nat, path: seq<byte>, flags: int)
      requires Valid() && j < 1024 && !fdPool[j].isOpen && !Occupied(dir[i])
      requires Readable(path, 24) && path != [] && path[0] != 0
      requires forall k: Slot :: Occupied(dir[k]) ==> dir[k].fileName != NameForm(path, 24)
      modifies this
      ensures Valid() && G == old(G) && bitmap == old(bitmap)
      ensures var s := old(State());
              State() == Fs(s.files[i := File(NameForm(path, 24), [])],
                            s.descs[j := Open(i, 0, RdWr(flags) || s.descs[j].writable, false)])
      ensures dir == old(dir)[i := DirEntry(NameForm(path, 24), 0, 0xFFFF_FFFF)]
      ensures Opened(old(fdPool), fdPool)
    {
      hide Inv, NameForm, AbsFiles;
      ghost var S0, s := S(), State();
      assert s.descs[j] == Closed(fdPool[j].writable);
      var fileName := new byte[24];
      Strncpy(fileName, path, FILENAME_LENGTH);
      assert fileName[..24] == fileName[..];
      NameHead(path);
      fdPool := fdPool[j := fdPool[j].(index := i)];
      stateDir := NEED_WASHING;
      if RdWr(flags) { fdPool := fdPool[j := fdPool[j].(writable := true)]; }
      InternalOpen(j);
      dir := dir[i := DirEntry(fileName[..], 0, NO_INODE)];
      ghost var S1 := S0.(dir := dir, stateDir := NEED_WASHING);
      NameSlot(S0, G, i, NameForm(path, 24), S1);
      assert fdPool == S1.pool[j := fdPool[j]];
      OpenSlot(S1, G, i, j, fdPool[j]);
    }

    /** Opens the file with this name, or creates it; the result is a descriptor or an error
        code, exactly as OpenOp says. */
    method FsOpen(path: Path, flags: int) returns (r: int)
      requires Valid() && MayOpen(State(), path, flags)
      modifies this
      ensures Valid()
      ensures (State(), r) == OpenOp(old(State()), path, flags)
      ensures Opened(old(fdPool), fdPool) && (old(AllTight()) ==> AllTight())
      ensures r < 0 ==> disk == old(disk) && dir == old(dir)
      ensures r < 0 ==> stateDir == old(stateDir) && stateBitmap == old(stateBitmap)
      ensures G == old(G) && bitmap == old(bitmap)
    {
      hide Inv, FirstClosed, SlotOf, FirstFree, Quiet, NameForm, AbsFiles, AbsDescs;
      if EmptyPath(path) { return E_EMPTYPATH; }
      ghost var S0, s, name := S(), State(), NameForm(path.bytes, 24);
      var fileSlot := -1;
      var i: nat := 0;
      while i < ENTRY_COUNT
        invariant i <= 16 && S() == S0 && G == old(G)
        invariant -1 <= fileSlot < i
        invariant forall k: Slot :: k < (if fileSlot >= 0 then fileSlot else i) ==> s.files[k].File?
        invariant fileSlot >= 0 ==> s.files[fileSlot].NoFile?
        invariant forall k: Slot :: k < i && Named(s.files[k], name) ==> FirstClosed(s) < 0
      {
        SlotView(S0, G, i);
        if fileSlot < 0 && dir[i].fileName[0] == 0 { fileSlot := i; }
        var differ := Strncmp(path.bytes, dir[i].fileName, FILENAME_LENGTH);
        NameHead(path.bytes);
        if differ == 0 {
          var j := FirstClosedFd();
          if j >= 0 {
            SlotIs(s, name, i);
            ClosedView(S0, G, j);
            r := OpenExisting(i, j, flags);
            return;
          }
        }
        i := i + 1;
      }
      SlotMiss(s, name);
      if !Creat(flags) { return E_NOENT; }
      FreeSlotIs(s, fileSlot);
      if fileSlot < 0 { return E_DQUOT; }
      var notKernel := Strncmp(path.bytes, KERNEL_NAME, FILENAME_LENGTH);
      assert if notKernel != 0 then fileSlot > 0 else fileSlot == 0; // kernel/fs.c:158
      var j := FirstClosedFd();
      if j >= 0 {
        NoSlot(S0, G, name);
        ClosedView(S0, G, j);
        SlotView(S0, G, fileSlot);
        CreateFile(fileSlot, j, path.bytes, flags);
        return j;
      }
      return E_NOENT;
    }

    /** SEEK_SET: writes the caches back and rewinds. */
    method Rewind(fd: nat)
      requires Valid() && IsOpen(State(), fd)
      modifies this
      ensures Valid()
      ensures State() == RewindOp(old(State()), fd)
      ensures old(AllTight()) ==> AllTight()
      ensures G.files == old(G).files && dir == old(dir) && bitmap == old(bitmap)
    {
      hide Core, PosOk, SizesOk;
      ghost var S0, G0, i := S(), G, fdPool[fd].index;
      CoreOfOpen(S0, G, -1, fd);
      OpenView(S0, G, fd);
      FdBufferFlush(fd, fd);
      FdInodeFlush(fd, -1, fd);
      DropCaches(S(), G, fd, fd);
      fdPool := fdPool[fd := fdPool[fd].(offset := 0, inodeState := GARBAGE)];
      G := G.(holder := if G.holder[i] == fd then G.holder[i := -1] else G.holder);
      Rewound(S0, G0, S(), G, fd);
    }

    /** SEEK_SET ignores its offset and rewinds, so the cursor ends up where it was asked to be
        just for offset 0. SEEK_CUR and SEEK_END add to the cursor, on 32 bits, and leave the
        caches as they are, which keeps the file system in order just for the moves that are
        served by what is cached. */
    method FsLseek(fd: nat, offset: int, whence: int) returns (r: int)
      requires Valid() && IsOpen(State(), fd) && 0 <= whence <= 2
      modifies this
      ensures r == 0 && G.files == old(G).files && dir == old(dir) && bitmap == old(bitmap)
      ensures whence == SEEK_SET ==> Valid() && State() == RewindOp(old(State()), fd)
      ensures whence == SEEK_SET ==> (State().descs[fd].offset == offset <==> offset == 0)
      ensures Lands(old(State()), fd, offset, whence, fdPool[fd].offset)
      ensures whence == SEEK_SET && old(AllTight()) ==> AllTight()
      ensures whence != SEEK_SET ==>
                var n := SeekTarget(old(State()), fd, offset, whence);
                && State() == SeekOp(old(State()), fd, n)
                && S() == old(S()).(pool := old(fdPool)[fd := old(fdPool[fd]).(offset := n)])
                && (old(AllTight()) ==> (Valid() <==> SeekServed(old(State()), fd, n)))
                && (old(AllTight()) && SeekSafe(old(State()), fd, n) ==> AllTight())
    {
      hide Inv, Abs;
      r := 0;
      OpenIsOpen(S(), G, fd);
      OpenView(S(), G, fd);
      if whence == SEEK_SET {
        Rewind(fd);
        OpenIsOpen(S(), G, fd);
        OpenView(S(), G, fd);
        return;
      }
      ghost var S0 := S();
      if whence == SEEK_CUR {
        fdPool := fdPool[fd := fdPool[fd].(offset := (fdPool[fd].offset + offset) % 0x1_0000_0000)];
      } else {
        var size := dir[fdPool[fd].index].fileSize;
        fdPool := fdPool[fd := fdPool[fd].(offset := (fdPool[fd].offset + size + offset) % 0x1_0000_0000)];
      }
      Moved(S0, G, fd, fdPool[fd].offset);
    }

    /** Closes fd. Its caches and the tables are written back, so once every descriptor is
        closed the disk alone holds the files. */
    method FsClose(fd: nat) returns (r: int)
      requires Valid() && IsOpen(State(), fd)
      modifies this
      ensures Valid() && r == 0
      ensures State() == CloseOp(old(State()), fd)
      ensures old(AllTight()) ==> AllTight()
      ensures stateDir == USEFUL && stateBitmap == USEFUL
      ensures disk[1] == EncodeBitmap(bitmap) && disk[2] == EncodeDir(dir)
      ensures G.files == old(G).files && dir == old(dir)
      ensures forall i :: Linear(old(G), i) ==> Linear(G, i)
      ensures NoneOpen(State()) ==> ImageOk(disk) && State().files == DiskFiles(disk)
    {
      hide Core, PosOk, SizesOk, Linear, DiskFiles, NoneOpen;
      ghost var S0, G0, i := S(), G, fdPool[fd].index;
      CoreOfOpen(S0, G, -1, fd);
      OpenView(S0, G, fd);
      CloseCore(S0, G, fd);
      fdPool := fdPool[fd := fdPool[fd].(isOpen := false)];
      FdInodeFlush(fd, -1, fd);
      FdBufferFlush(fd, fd);
      FsFlush(fd);
      r := 0;
      G := G.(holder := if G.holder[i] == fd then G.holder[i := -1] else G.holder);
      Shut(S0, G0, S(), G, fd);
      forall k: Slot ensures Linear(G0, k) ==> Linear(G, k) { LinearHolder(G0, G, k); }
      if NoneOpen(State()) {
        NoneOpenPool(S(), G);
        Durable(S(), G);
      }
    }
  }

  function Prefix(s: seq<byte>, n: int): seq<byte>
    requires n <= |s|
  {
    if n < 0 then [] else s[..n]
  }

  /** A buffer filled up to n from its start, after the next chunk. */
  lemma CopiedOn(start: seq<byte>, before: seq<byte>, after: seq<byte>, n: nat, chunk: seq<byte>, done: seq<byte>)
    requires |start| == |before| && n + |chunk| <= |before|
    requires after == before[..n] + chunk + before[n + |chunk|..]
    requires before[..n] == done && before[n..] == start[n..]
    ensures after[..n + |chunk|] == done + chunk && after[n + |chunk|..] == start[n + |chunk|..]
  {
    assert before[n + |chunk|..] == before[n..][|chunk|..] == start[n + |chunk|..];
  }

  /** memcpy(dest + at, src, |src|) */
  method Memcpy(dest: array<byte>, at: nat, src: seq<byte>)
    requires at + |src| <= dest.Length
    modifies dest
    ensures dest[..] == old(dest[..at]) + src + old(dest[at + |src|..])
  {
    var k := 0;
    while k < |src|
      invariant k <= |src|
      invariant forall m :: 0 <= m < dest.Length ==>
                  dest[m] == if at <= m < at + k then src[m - at] else old(dest[m])
    {
      dest[at + k] := src[k];
      k := k + 1;
    }
  }
}
