/** boot/main.c: the boot loader's own walk of the kernel file, with no caches and no file
    system code, and why it loads the same bytes the file system holds. */
module BootLoader {
  import opened Words
  import opened FsLayout
  import opened FsInv
  import opened FsAbs
  import opened FsImage
  import opened MyfsTools

  // ---------------------------------------------------------------- the ELF header

  function U16(h: seq<byte>, o: nat): nat
    requires o + 2 <= |h|
  {
    var a: int, b: int := h[o], h[o + 1];
    a + 0x100 * b
  }

  function U32(h: seq<byte>, o: nat): u32
    requires o + 4 <= |h|
  {
    var a: int, b: int, c: int, d: int := h[o], h[o + 1], h[o + 2], h[o + 3];
    a + 0x100 * b + 0x1_0000 * c + 0x100_0000 * d
  }

  function Phoff(h: seq<byte>): u32
    requires |h| >= 46
  {
    U32(h, 28)
  }

  function Phnum(h: seq<byte>): nat
    requires |h| >= 46
  {
    U16(h, 44)
  }

  /** The ELF header's fields and the program headers lie within these bytes. */
  predicate HeadersFit(h: seq<byte>) { |h| >= 46 && Phoff(h) + 32 * Phnum(h) <= |h| }

  datatype Segment = Segment(offset: u32, pa: u32, filesz: u32, memsz: u32)

  function SegmentAt(h: seq<byte>, k: nat): Segment
    requires HeadersFit(h) && k < Phnum(h)
  {
    var o := Phoff(h) + 32 * k;
    Segment(U32(h, o + 4), U32(h, o + 12), U32(h, o + 16), U32(h, o + 20))
  }

  function Segments(h: seq<byte>): seq<Segment>
    requires HeadersFit(h)
  {
    seq(Phnum(h), k requires 0 <= k < Phnum(h) => SegmentAt(h, k))
  }

  /** Byte by byte (inc/elf.h:6-33): e_phoff in bytes 28 to 31, e_phnum in bytes 44 and 45, and in
      each 32-byte program header p_offset at 4, p_pa at 12, p_filesz at 16 and p_memsz at 20, all
      of them little-endian, make exactly these segments. */
  lemma SegmentsAre(h: seq<byte>, phoff: nat, ss: seq<Segment>)
    requires |h| >= 46 && phoff + 32 * |ss| <= |h|
    requires h[28] == phoff % 0x100 && h[29] == phoff / 0x100 % 0x100
    requires h[30] == phoff / 0x1_0000 % 0x100 && h[31] == phoff / 0x100_0000
    requires h[44] == |ss| % 0x100 && h[45] == |ss| / 0x100
    requires forall k :: 0 <= k < |ss| ==>
               var o := phoff + 32 * k;
               && h[o + 4] == ss[k].offset % 0x100 && h[o + 5] == ss[k].offset / 0x100 % 0x100
               && h[o + 6] == ss[k].offset / 0x1_0000 % 0x100 && h[o + 7] == ss[k].offset / 0x100_0000
               && h[o + 12] == ss[k].pa % 0x100 && h[o + 13] == ss[k].pa / 0x100 % 0x100
               && h[o + 14] == ss[k].pa / 0x1_0000 % 0x100 && h[o + 15] == ss[k].pa / 0x100_0000
               && h[o + 16] == ss[k].filesz % 0x100 && h[o + 17] == ss[k].filesz / 0x100 % 0x100
               && h[o + 18] == ss[k].filesz / 0x1_0000 % 0x100 && h[o + 19] == ss[k].filesz / 0x100_0000
               && h[o + 20] == ss[k].memsz % 0x100 && h[o + 21] == ss[k].memsz / 0x100 % 0x100
               && h[o + 22] == ss[k].memsz / 0x1_0000 % 0x100 && h[o + 23] == ss[k].memsz / 0x100_0000
    ensures HeadersFit(h) && Segments(h) == ss
  {
    hide ByteOf;
    U32Is(h, 28, phoff);
    assert Phoff(h) == phoff && Phnum(h) == |ss|;
    forall k | 0 <= k < |ss| ensures SegmentAt(h, k) == ss[k] {
      var o := phoff + 32 * k;
      U32Is(h, o + 4, ss[k].offset);
      U32Is(h, o + 12, ss[k].pa);
      U32Is(h, o + 16, ss[k].filesz);
      U32Is(h, o + 20, ss[k].memsz);
    }
  }

  lemma U32Is(h: seq<byte>, o: nat, x: nat)
    requires o + 4 <= |h| && h[o] == x % 0x100 && h[o + 1] == x / 0x100 % 0x100
    requires h[o + 2] == x / 0x1_0000 % 0x100 && h[o + 3] == x / 0x100_0000
    ensures U32(h, o) == x
  {
    assert x / 0x100_0000 < 0x100;
    WordBytes(x);
  }

  /** More bytes after them make no difference. */
  lemma SegmentsOfPrefix(h: seq<byte>, g: seq<byte>)
    requires g <= h && HeadersFit(g)
    ensures HeadersFit(h) && Segments(h) == Segments(g)
  {
    assert Phoff(h) == Phoff(g) && Phnum(h) == Phnum(g);
    forall k | 0 <= k < Phnum(g) ensures SegmentAt(h, k) == SegmentAt(g, k) {
    }
  }

  /** Sectors a segment reads, and where in the file they start. */
  function FirstSector(s: Segment): nat { s.offset / 512 }
  function SectorCount(s: Segment): nat { CeilDiv(s.filesz, 512) }

  /** Bytes of memory a segment writes: whole sectors, and the zeros up to memsz. */
  function Footprint(s: Segment): nat {
    if 512 * SectorCount(s) > s.memsz then 512 * SectorCount(s) else s.memsz
  }

  /** Each loaded segment is sensible on its own: no more file bytes than memory, all of them
      in the file (of n sectors) and all of it in memory. */
  ghost predicate SegmentOk(s: Segment, n: nat, memory: nat) {
    s.memsz != 0 ==>
      s.filesz <= s.memsz && FirstSector(s) + SectorCount(s) <= n && s.pa + Footprint(s) <= memory
  }

  /** b is loaded after a: the walk need not go back to an earlier inode for it, and its writes
      miss a's memory. */
  ghost predicate Follows(a: Segment, b: Segment) {
    a.memsz != 0 && b.memsz != 0 ==>
      && (FirstSector(a) + SectorCount(a)) / 127 <= FirstSector(b) / 127
      && (b.pa + Footprint(b) <= a.pa || a.pa + a.memsz <= b.pa)
  }

  /** Segments within the file and the memory, ascending by inode, none overwriting an earlier
      one. */
  ghost predicate Loadable(ss: seq<Segment>, n: nat, memory: nat) {
    && (forall k :: 0 <= k < |ss| ==> SegmentOk(ss[k], n, memory))
    && (forall a, b :: 0 <= a < b < |ss| ==> Follows(ss[a], ss[b]))
  }

  // ---------------------------------------------------------------- what loading means

  /** The first n bytes of memory at pa are the file's from the start of sector f on. */
  ghost predicate Copied(mem: seq<byte>, g: FileG, pa: nat, f: nat, n: nat) {
    pa + n <= |mem| && forall p :: pa <= p < pa + n ==> mem[p] == ByteAt(g, 512 * f + p - pa)
  }

  /** Memory holds segment s: the file's bytes from the start of the sector its offset falls
      in, then zeros. */
  ghost predicate Loaded(mem: seq<byte>, g: FileG, s: Segment) {
    s.memsz != 0 ==>
      && Copied(mem, g, s.pa, FirstSector(s), s.filesz)
      && s.filesz <= s.memsz && s.pa + s.memsz <= |mem|
      && forall p :: s.pa + s.filesz <= p < s.pa + s.memsz ==> mem[p] == 0
  }

  /** Only addresses from lo up to hi differ. */
  ghost predicate OnlyWithin(before: seq<byte>, after: seq<byte>, lo: nat, hi: nat) {
    |after| == |before| && forall p :: 0 <= p < |before| && !(lo <= p < hi) ==> after[p] == before[p]
  }

  /** Byte k of the kernel file as the cache-free reader of the disk sees it, counting the
      slack of its last sector. */
  function KernelByte(image: Image, k: nat): byte { SectorAt(image, 0, k / 512)[k % 512] }

  function KernelSectors(image: Image): nat { DataBlocksOf(DirOf(image)[0].fileSize) }

  function Header(image: Image): Sector { SectorAt(image, 0, 0) }

  /** As Loaded, told of the disk. */
  ghost predicate LoadedFrom(mem: seq<byte>, image: Image, s: Segment) {
    s.memsz != 0 ==>
      && s.filesz <= s.memsz && s.pa + s.memsz <= |mem|
      && (forall p :: s.pa <= p < s.pa + s.filesz ==> mem[p] == KernelByte(image, 512 * FirstSector(s) + p - s.pa))
      && (forall p :: s.pa + s.filesz <= p < s.pa + s.memsz ==> mem[p] == 0)
  }

  /** Address p is among the whole sectors that hold the bytes of a segment, or in its memory. */
  ghost predicate Covered(ss: seq<Segment>, p: nat) {
    exists k :: 0 <= k < |ss| && ss[k].memsz != 0 &&
      ss[k].pa <= p < ss[k].pa + Max((ss[k].filesz + 511) / 512 * 512, ss[k].memsz)
  }

  // ---------------------------------------------------------------- the walk

  /** The inode at hand is inode number c of the kernel file, or the walk has just run off
      the end of its chain. */
  ghost predicate Hand(G: Ghosts, inode: INode, c: nat) {
    c <= |G.files[0].chain| && (c < |G.files[0].chain| ==> inode == INodeOf(G.files[0], c))
  }

  /** Following next from inode c gives inode c + 1. */
  lemma HandNext(image: Image, G: Ghosts, inode: INode, c: nat)
    requires Inv(Mounted(image), G) && KernelInPlace(image)
    requires Hand(G, inode, c) && c < |G.files[0].chain|
    ensures inode.next < 4096 && Hand(G, DecodeINode(image[3 + inode.next]), c + 1)
  {
    hide Inv, DecodeINode, INodeOf;
    MountedOwner(image, G);
    NextINode(G, 0, c);
    if c + 1 < |G.files[0].chain| { MountedChain(image, G, 0, c + 1); }
  }

  /** The data pointer i of the inode at hand leads to sector 127 * c + i of the file. */
  lemma HandSector(image: Image, G: Ghosts, inode: INode, c: nat, i: nat)
    requires Inv(Mounted(image), G) && Hand(G, inode, c) && i < 127 && 127 * c + i < |G.files[0].blocks|
    ensures c < |G.files[0].chain|
    ensures inode.dataBlocks[i] < 4096 && image[3 + inode.dataBlocks[i]] == SectorOf(G.files[0], 127 * c + i)
  {
    hide Inv, INodeOf;
    var s := 127 * c + i;
    assert s / 127 == c && s % 127 == i;
    MountedOwner(image, G);
    assert FileOwned(G.owner, G.files[0], 0);
    DataPointer(G, 0, s);
    MountedBlock(image, G, G.files[0].blocks[s]);
  }

  /** readsect: one sector into memory. */
  method Readsect(mem: array<byte>, at: nat, image: Image, sector: nat)
    requires sector < 4099 && at + 512 <= mem.Length
    modifies mem
    ensures mem[..] == old(mem[..at]) + image[sector] + old(mem[at + 512..])
  {
    var k := 0;
    while k < 512
      invariant 0 <= k <= 512
      invariant forall m :: 0 <= m < mem.Length ==>
                  mem[m] == if at <= m < at + k then image[sector][m - at] else old(mem[m])
    {
      mem[at + k] := image[sector][k];
      k := k + 1;
    }
  }

  method Memset(mem: array<byte>, at: nat, n: nat)
    requires at + n <= mem.Length
    modifies mem
    ensures forall m :: 0 <= m < mem.Length ==> mem[m] == if at <= m < at + n then 0 else old(mem[m])
  {
    var k := 0;
    while k < n
      invariant k <= n
      invariant forall m :: 0 <= m < mem.Length ==> mem[m] == if at <= m < at + k then 0 else old(mem[m])
    {
      mem[at + k] := 0;
      k := k + 1;
    }
  }

  /** boot/main.c:30-33: follows the chain up to the inode of sector f. */
  method WalkTo(image: Image, ghost G: Ghosts, f: nat, inode0: INode, index0: nat) returns (inode: INode, index: nat)
    requires Inv(Mounted(image), G) && KernelInPlace(image)
    requires Hand(G, inode0, index0) && index0 <= f / 127 && f <= |G.files[0].blocks|
    ensures Hand(G, inode, index) && index == f / 127
  {
    hide Inv, KernelInPlace, Hand;
    inode, index := inode0, index0;
    while index < f / N_INODE_DATABLOCK
      invariant Hand(G, inode, index) && index <= f / 127
    {
      ChainLongEnough(image, G, index);
      HandNext(image, G, inode, index);
      inode := DecodeINode(image[FSOFFSET_DATA + inode.next]);
      index := index + 1;
    }
  }

  /** boot/main.c:34-44: reads whole sectors from sector f on until filesz bytes are in place. */
  method LoadSectors(image: Image, ghost G: Ghosts, mem: array<byte>, pa: nat, f: nat, filesz: nat,
                     inode0: INode, index0: nat)
    returns (inode: INode, index: nat)
    requires Inv(Mounted(image), G) && KernelInPlace(image)
    requires Hand(G, inode0, index0) && index0 == f / 127
    requires f + CeilDiv(filesz, 512) <= |G.files[0].blocks| && pa + 512 * CeilDiv(filesz, 512) <= mem.Length
    modifies mem
    ensures Hand(G, inode, index) && index == (f + CeilDiv(filesz, 512)) / 127
    ensures Copied(mem[..], G.files[0], pa, f, filesz)
    ensures OnlyWithin(old(mem[..]), mem[..], pa, pa + 512 * CeilDiv(filesz, 512))
  {
    hide Inv, KernelInPlace, Hand, SectorOf, Copied, OnlyWithin;
    inode, index := inode0, index0;
    var i := f % N_INODE_DATABLOCK;
    var count := 0;
    ghost var n := 0;
    NothingCopied(mem[..], G.files[0], pa, f);
    while count < filesz
      invariant count == 512 * n && n <= CeilDiv(filesz, 512)
      invariant 0 <= i < 127 && 127 * index + i == f + n
      invariant Hand(G, inode, index)
      invariant Copied(mem[..], G.files[0], pa, f, count)
      invariant OnlyWithin(old(mem[..]), mem[..], pa, pa + 512 * CeilDiv(filesz, 512))
    {
      HandSector(image, G, inode, index, i);
      ghost var before := mem[..];
      Readsect(mem, pa + count, image, FSOFFSET_DATA + inode.dataBlocks[i]);
      SectorLoaded(G.files[0], pa, f, n, before, mem[..]);
      WithinTwice(old(mem[..]), before, mem[..], pa, pa + count, pa + count + 512, pa + 512 * CeilDiv(filesz, 512));
      i := i + 1;
      if i == N_INODE_DATABLOCK {
        i := 0;
        HandNext(image, G, inode, index);
        inode := DecodeINode(image[FSOFFSET_DATA + inode.next]);
        index := index + 1;
      }
      count := count + SECTSIZE;
      n := n + 1;
    }
    assert n == CeilDiv(filesz, 512);
    CopiedLess(mem[..], G.files[0], pa, f, count, filesz);
  }

  /** The body of the loop over program headers (boot/main.c:28-46). The inode at hand is
      carried in and out. */
  method LoadSegment(image: Image, ghost G: Ghosts, mem: array<byte>, s: Segment, inode0: INode, index0: nat)
    returns (inode: INode, index: nat)
    requires Inv(Mounted(image), G) && KernelInPlace(image)
    requires s.memsz != 0 && SegmentOk(s, |G.files[0].blocks|, mem.Length)
    requires Hand(G, inode0, index0) && index0 <= FirstSector(s) / 127
    modifies mem
    ensures Hand(G, inode, index) && index == (FirstSector(s) + SectorCount(s)) / 127
    ensures Loaded(mem[..], G.files[0], s)
    ensures OnlyWithin(old(mem[..]), mem[..], s.pa, s.pa + Footprint(s))
  {
    hide Inv, KernelInPlace, Hand;
    inode, index := WalkTo(image, G, s.offset / SECTSIZE, inode0, index0);
    inode, index := LoadSectors(image, G, mem, s.pa, s.offset / SECTSIZE, s.filesz, inode, index);
    Memset(mem, s.pa + s.filesz, s.memsz - s.filesz);
  }

  lemma NothingCopied(mem: seq<byte>, g: FileG, pa: nat, f: nat)
    requires pa <= |mem|
    ensures Copied(mem, g, pa, f, 0)
    ensures forall lo: nat, hi: nat :: OnlyWithin(mem, mem, lo, hi)
  {
  }

  lemma WithinTwice(a: seq<byte>, b: seq<byte>, c: seq<byte>, lo: nat, m: nat, n: nat, hi: nat)
    requires OnlyWithin(a, b, lo, hi) && OnlyWithin(b, c, m, n) && lo <= m && n <= hi
    ensures OnlyWithin(a, c, lo, hi)
  {
  }

  lemma CopiedLess(mem: seq<byte>, g: FileG, pa: nat, f: nat, n: nat, m: nat)
    requires Copied(mem, g, pa, f, n) && m <= n
    ensures Copied(mem, g, pa, f, m)
  {
  }

  lemma ChainLongEnough(image: Image, G: Ghosts, c: nat)
    requires Inv(Mounted(image), G) && 127 * (c + 1) <= |G.files[0].blocks|
    ensures c < |G.files[0].chain|
  {
    MountedOwner(image, G);
    assert FileOwned(G.owner, G.files[0], 0);
  }

  /** One more sector in place. */
  lemma SectorLoaded(g: FileG, pa: nat, f: nat, n: nat, before: seq<byte>, after: seq<byte>)
    requires pa + 512 * n + 512 <= |before|
    requires after == before[..pa + 512 * n] + SectorOf(g, f + n) + before[pa + 512 * n + 512..]
    requires Copied(before, g, pa, f, 512 * n)
    ensures Copied(after, g, pa, f, 512 * n + 512)
    ensures OnlyWithin(before, after, pa + 512 * n, pa + 512 * n + 512)
  {
    forall p | pa <= p < pa + 512 * n + 512 ensures after[p] == ByteAt(g, 512 * f + p - pa) {
      if p >= pa + 512 * n {
        assert (512 * f + p - pa) / 512 == f + n;
        assert (512 * f + p - pa) % 512 == p - pa - 512 * n;
      } else {
        assert after[p] == before[p];
      }
    }
  }

  /** boot/main.c:14-46. The first inode and the header come from fixed blocks; then each
      program header is loaded in turn. */
  method Bootmain(image: Image, mem: array<byte>)
    requires ImageOk(image) && KernelInPlace(image) && HeadersFit(Header(image))
    requires Loadable(Segments(Header(image)), KernelSectors(image), mem.Length)
    modifies mem
    ensures forall k :: 0 <= k < Phnum(Header(image)) ==> LoadedFrom(mem[..], image, Segments(Header(image))[k])
    ensures forall p :: 0 <= p < mem.Length && !Covered(Segments(Header(image)), p) ==> mem[p] == old(mem[p])
  {
    hide Inv, Hand, Loaded, LoadedFrom, SegmentAt, Loadable, KernelInPlace, KernelSectors, SegmentOk, Covered;
    ghost var G :| Inv(Mounted(image), G);
    KernelStart(image, G);
    var inode := DecodeINode(image[FSOFFSET_DATA]);
    var header := image[FSOFFSET_DATA + 1];
    ghost var ss := Segments(header);
    var index: nat := 0;
    var k := 0;
    while k < Phnum(header)
      invariant 0 <= k <= |ss|
      invariant Hand(G, inode, index)
      invariant forall m :: k <= m < |ss| && ss[m].memsz != 0 ==> index <= FirstSector(ss[m]) / 127
      invariant forall m :: 0 <= m < k ==> Loaded(mem[..], G.files[0], ss[m])
      invariant forall p :: 0 <= p < mem.Length && !Covered(ss, p) ==> mem[p] == old(mem[p])
    {
      var s := SegmentAt(header, k);
      assert s == ss[k];
      SegmentFacts(ss, |G.files[0].blocks|, mem.Length, k);
      if s.memsz != 0 {
        ghost var before := mem[..];
        inode, index := LoadSegment(image, G, mem, s, inode, index);
        forall m | 0 <= m < k ensures Loaded(mem[..], G.files[0], ss[m]) {
          StillLoaded(before, mem[..], G.files[0], ss[m], s);
        }
        forall p | 0 <= p < mem.Length && !Covered(ss, p) ensures mem[p] == old(mem[p]) {
          CoveredBy(ss, k, p);
          assert before[p] == old(mem[p]);
        }
      } else {
        NotLoaded(mem[..], G.files[0], s);
      }
      k := k + 1;
    }
    forall m | 0 <= m < |ss| ensures LoadedFrom(mem[..], image, ss[m]) {
      SegmentFacts(ss, |G.files[0].blocks|, mem.Length, m);
      FromDisk(image, G, mem[..], ss[m]);
    }
  }

  lemma CoveredBy(ss: seq<Segment>, k: nat, p: nat)
    requires k < |ss| && ss[k].memsz != 0 && !Covered(ss, p)
    ensures !(ss[k].pa <= p < ss[k].pa + Footprint(ss[k]))
  {
  }

  /** What is loaded is what the cache-free reader sees on the disk. */
  lemma FromDisk(image: Image, G: Ghosts, mem: seq<byte>, s: Segment)
    requires Inv(Mounted(image), G) && KernelInPlace(image) && Loaded(mem, G.files[0], s)
    requires SegmentOk(s, |G.files[0].blocks|, |mem|)
    ensures LoadedFrom(mem, image, s)
  {
    hide Inv, SectorAt;
    if s.memsz != 0 {
      MountedOwner(image, G);
      InPlaceMeaning(image, G);
      assert FileOwned(G.owner, G.files[0], 0);
      forall p | s.pa <= p < s.pa + s.filesz ensures mem[p] == KernelByte(image, 512 * FirstSector(s) + p - s.pa) {
        var q := 512 * FirstSector(s) + p - s.pa;
        assert q / 512 < FirstSector(s) + SectorCount(s);
        MountedSector(image, G, 0, q / 512);
      }
    }
  }

  lemma SegmentFacts(ss: seq<Segment>, n: nat, memory: nat, k: nat)
    requires Loadable(ss, n, memory) && k < |ss|
    ensures SegmentOk(ss[k], n, memory)
    ensures forall m :: 0 <= m < k ==> Follows(ss[m], ss[k])
    ensures forall m :: k < m < |ss| ==> Follows(ss[k], ss[m])
  {
  }

  lemma NotLoaded(mem: seq<byte>, g: FileG, s: Segment)
    requires s.memsz == 0
    ensures Loaded(mem, g, s)
  {
  }

  lemma StillLoaded(before: seq<byte>, after: seq<byte>, g: FileG, a: Segment, b: Segment)
    requires Loaded(before, g, a) && Follows(a, b) && b.memsz != 0
    requires OnlyWithin(before, after, b.pa, b.pa + Footprint(b))
    ensures Loaded(after, g, a)
  {
  }

  lemma KernelStart(image: Image, G: Ghosts)
    requires Inv(Mounted(image), G) && KernelInPlace(image)
    ensures |G.files[0].sects| > 0
    ensures Hand(G, DecodeINode(image[3]), 0)
    ensures image[4] == Header(image) && KernelSectors(image) == |G.files[0].blocks|
  {
    hide Core;
    InPlaceMeaning(image, G);
    MountedOwner(image, G);
    assert FileOwned(G.owner, G.files[0], 0);
    MountedChain(image, G, 0, 0);
    MountedSector(image, G, 0, 0);
    DataPointer(G, 0, 0);
    MountedBlock(image, G, 1);
    SizedBlocks(G.files[0], DirOf(image)[0].fileSize);
    assert Sized(G.files[0], DirOf(image)[0].fileSize);
  }

  /** The offset the loader starts a segment from. */
  function SectorStart(s: Segment): nat { s.offset - s.offset % 512 }

  /** Memory holds segment s of a file with this content, as the loader places it: the bytes
      from the start of its first sector on, then zeros. */
  ghost predicate Placed(mem: seq<byte>, content: seq<byte>, s: Segment)
    requires s.offset + s.filesz <= |content|
  {
    && s.filesz <= s.memsz && s.pa + s.memsz <= |mem|
    && mem[s.pa..s.pa + s.filesz] == content[SectorStart(s)..SectorStart(s) + s.filesz]
    && forall p :: s.pa + s.filesz <= p < s.pa + s.memsz ==> mem[p] == 0
  }

  /** A segment within the file is placed from the start of its sector. So it holds the bytes at
      its own offset exactly when those are the same bytes, as for every aligned segment. */
  lemma LoadedIsContent(image: Image, mem: seq<byte>, s: Segment)
    requires ImageOk(image) && KernelInPlace(image) && LoadedFrom(mem, image, s) && s.memsz != 0
    ensures DiskFiles(image)[0].File?
    ensures var content := DiskFiles(image)[0].content;
            s.offset + s.filesz <= |content| ==>
              && Placed(mem, content, s)
              && (mem[s.pa..s.pa + s.filesz] == content[s.offset..s.offset + s.filesz] <==>
                    content[SectorStart(s)..SectorStart(s) + s.filesz] == content[s.offset..s.offset + s.filesz])
  {
    hide SectorAt, ImageOk, BytesAt, DecodeDir, DecodeINode, KernelByte;
    var n := DirOf(image)[0].fileSize;
    assert DiskFiles(image)[0] == FileAt(image, 0);
    assert DiskFiles(image)[0].content == BytesAt(image, 0, n);
    KernelBytes(image, n);
    if s.offset + s.filesz <= n {
      var a, b := mem[s.pa..s.pa + s.filesz], BytesAt(image, 0, n)[SectorStart(s)..SectorStart(s) + s.filesz];
      forall k | 0 <= k < s.filesz ensures a[k] == b[k] {
        assert a[k] == mem[s.pa + k];
      }
      assert a == b;
    }
  }

  /** A one-sector kernel with the first two bytes of every ELF file and one program header, at
      52: one byte at offset 1, to be loaded at 1 MB. */
  function MisalignedByte(k: nat): byte {
    if k == 0 then 0x7F
    else if k == 1 then 0x45
    else if k == 28 then 52
    else if k == 44 || k == 56 || k == 68 || k == 72 then 1
    else if k == 66 then 0x10
    else 0
  }

  function MisalignedKernel(): Sector { seq(512, k requires 0 <= k < 512 => MisalignedByte(k)) }

  lemma MisalignedHeader(h: Sector, memory: nat)
    requires forall k :: 0 <= k < 512 ==> h[k] == MisalignedByte(k)
    requires memory >= 0x10_0200
    ensures HeadersFit(h) && Segments(h) == [Segment(1, 0x10_0000, 1, 1)]
    ensures Loadable(Segments(h), 1, memory)
  {
    assert Phoff(h) == 52 && Phnum(h) == 1;
    assert SegmentAt(h, 0) == Segment(1, 0x10_0000, 1, 1);
  }

  /** It meets all that Bootmain asks of a kernel, and is loaded wrong: 0x7F where its file has
      0x45. */
  lemma MisalignedMisloads(image: Image, mem: seq<byte>)
    requires ImageOk(image) && KernelInPlace(image) && |mem| >= 0x10_0200
    requires DiskFiles(image)[0].File? && DiskFiles(image)[0].content == MisalignedKernel()
    ensures HeadersFit(Header(image)) && Segments(Header(image)) == [Segment(1, 0x10_0000, 1, 1)]
    ensures Loadable(Segments(Header(image)), KernelSectors(image), |mem|)
    ensures LoadedFrom(mem, image, Segments(Header(image))[0]) ==>
              mem[0x10_0000] == 0x7F && DiskFiles(image)[0].content[1] == 0x45
  {
    hide ImageOk, DiskFiles, SectorAt, LoadedFrom, KernelInPlace, Segments, HeadersFit, Loadable, Header, KernelSectors;
    var h, content := Header(image), DiskFiles(image)[0].content;
    HeaderIsContent(image);
    assert Beginning(content) == content;
    MisalignedHeader(h, |mem|);
    if LoadedFrom(mem, image, Segments(h)[0]) {
      LoadedIsContent(image, mem, Segments(h)[0]);
      assert mem[0x10_0000] == mem[0x10_0000..0x10_0001][0];
    }
  }

  /** As much of the file as the first sector can hold. */
  function Beginning(content: seq<byte>): seq<byte> { content[..Min(512, |content|)] }

  /** The header the loader reads is the beginning of the file. */
  lemma HeaderIsContent(image: Image)
    requires ImageOk(image) && KernelInPlace(image)
    ensures DiskFiles(image)[0].File?
    ensures var content := DiskFiles(image)[0].content;
            KernelSectors(image) == DataBlocksOf(|content|) && Beginning(content) <= Header(image)
  {
    hide SectorAt, ImageOk, BytesAt, DecodeDir, DecodeINode;
    var n := DirOf(image)[0].fileSize;
    assert DiskFiles(image)[0] == FileAt(image, 0);
    assert DiskFiles(image)[0].content == BytesAt(image, 0, n);
    KernelBytes(image, n);
    var b := Beginning(BytesAt(image, 0, n));
    forall k | 0 <= k < |b| ensures b[k] == Header(image)[k] {
      assert KernelByte(image, k) == Header(image)[k];
    }
  }

  /** From the build to the boot: the kernel that write_myfs put on the image is what bootmain
      finds there and places in memory, segment by segment. */
  method BuildAndBoot(boot: Sector, kernel: Stdin, user: Stdin, mem: array<byte>)
    requires kernel != user && kernel.pos == 0 && user.pos == 0
    requires BlocksOf(|kernel.data|) + BlocksOf(|user.data|) <= 4096
    requires HeadersFit(Beginning(kernel.data))
    requires Loadable(Segments(Beginning(kernel.data)), DataBlocksOf(|kernel.data|), mem.Length)
    modifies kernel, user, mem
    ensures var ss := Segments(Beginning(kernel.data));
            forall k :: 0 <= k < |ss| && ss[k].memsz != 0 && ss[k].offset + ss[k].filesz <= |kernel.data| ==>
              Placed(mem[..], kernel.data, ss[k])
  {
    hide DiskFiles, ImageOk, Loadable, KernelInPlace, Header, KernelSectors, LoadedFrom, Covered, Placed, Segments,
         HeadersFit;
    KernelNotEmpty(kernel.data);
    var image, _, _ := FsTest(boot, kernel, user);
    HeaderIsContent(image);
    SegmentsOfPrefix(Header(image), Beginning(kernel.data));
    BootmainSegments(image);
    Bootmain(image, mem);
    ghost var ss := Segments(Beginning(kernel.data));
    forall k | 0 <= k < |ss| && ss[k].memsz != 0 && ss[k].offset + ss[k].filesz <= |kernel.data|
      ensures Placed(mem[..], kernel.data, ss[k])
    {
      LoadedIsContent(image, mem[..], ss[k]);
    }
  }

  lemma KernelNotEmpty(data: seq<byte>)
    requires HeadersFit(Beginning(data))
    ensures data != []
  {
  }

  lemma BootmainSegments(image: Image)
    requires HeadersFit(Header(image))
    ensures |Segments(Header(image))| == Phnum(Header(image))
  {
  }

  lemma KernelBytes(image: Image, n: nat)
    ensures |BytesAt(image, 0, n)| == n
    ensures forall k :: 0 <= k < n ==> BytesAt(image, 0, n)[k] == KernelByte(image, k)
  {
  }
}
