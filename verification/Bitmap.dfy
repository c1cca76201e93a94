/** The block allocation bitmap of kernel/fs.c and its first-fit search. */
module Bitmap {
  import opened Words

  const NBLOCKS: nat := 4096

  /** Block b is marked used. */
  predicate Used(bitmap: WordSector, b: nat)
    requires b < NBLOCKS
  {
    Bit(bitmap[b / 32], b % 32)
  }

  ghost function UsedBelow(bitmap: WordSector, n: nat): set<nat>
    requires n <= NBLOCKS
  {
    if n == 0 then {} else UsedBelow(bitmap, n - 1) + (if Used(bitmap, n - 1) then {n - 1} else {})
  }

  /** The blocks marked used. */
  ghost function UsedSet(bitmap: WordSector): set<nat> { UsedBelow(bitmap, 32 * |bitmap|) }

  lemma {:induction false} UsedBelowMember(bitmap: WordSector, n: nat, b: nat)
    requires n <= NBLOCKS
    ensures b in UsedBelow(bitmap, n) <==> b < n && Used(bitmap, b)
  {
    if n == 0 {
    } else {
      UsedBelowMember(bitmap, n - 1, b);
    }
  }

  lemma UsedSetMember(bitmap: WordSector, b: nat)
    ensures b in UsedSet(bitmap) <==> b < NBLOCKS && Used(bitmap, b)
  {
    UsedBelowMember(bitmap, 32 * |bitmap|, b);
  }

  lemma {:induction false} UsedCount(bitmap: WordSector, n: nat)
    requires n <= NBLOCKS
    ensures |UsedBelow(bitmap, n)| <= n
    ensures |UsedBelow(bitmap, n)| == n <==> forall b :: 0 <= b < n ==> Used(bitmap, b)
  {
    hide Used;
    if n == 0 {
    } else {
      UsedCount(bitmap, n - 1);
      UsedBelowMember(bitmap, n - 1, n - 1);
    }
  }

  /** There is a clear bit to find exactly when fewer than 4096 blocks are in use. */
  lemma ClearBitExists(bitmap: WordSector)
    ensures |UsedSet(bitmap)| <= NBLOCKS
    ensures |UsedSet(bitmap)| < NBLOCKS <==> exists b :: 0 <= b < NBLOCKS && !Used(bitmap, b)
  {
    UsedCount(bitmap, NBLOCKS);
  }

  /** b is the lowest clear bit, and after differs from before in that bit alone. */
  ghost predicate FirstFit(before: WordSector, after: WordSector, b: nat) {
    && b < NBLOCKS
    && !Used(before, b)
    && (forall c :: 0 <= c < b ==> Used(before, c))
    && (forall c :: 0 <= c < NBLOCKS ==> (Used(after, c) <==> Used(before, c) || c == b))
  }

  lemma FirstFitSize(before: WordSector, after: WordSector, b: nat)
    requires FirstFit(before, after, b)
    ensures UsedSet(after) == UsedSet(before) + {b} && b !in UsedSet(before)
    ensures |UsedSet(after)| == |UsedSet(before)| + 1
  {
    UsedSetMember(before, b);
    forall c: nat ensures c in UsedSet(after) <==> c in UsedSet(before) + {b} {
      UsedSetMember(before, c);
      UsedSetMember(after, c);
    }
  }

  /** Bit k is the lowest clear bit of the word w. */
  ghost predicate LowestClear(w: u32, k: nat) {
    k < 32 && !Bit(w, k) && forall m :: 0 <= m < k ==> Bit(w, m)
  }

  lemma NotBit(w: u32, k: nat)
    requires k < 32
    ensures Bit(Not32(w), k) == !Bit(w, k)
  {
    Pow2of32();
    BitComplement(w, 32, k);
  }

  lemma FullWord(w: u32, k: nat)
    requires Not32(w) == 0 && k < 32
    ensures Bit(w, k)
  {
    NotBit(w, k);
    BitZero(k);
  }

  /** The complement-and-shift loop at kernel/fs.c:47-52. */
  method LowestClearBit(w: u32) returns (bitCount: nat)
    requires Not32(w) != 0
    ensures LowestClear(w, bitCount)
  {
    var j: nat := Not32(w);
    bitCount := 0;
    while j % 2 == 0
      invariant j != 0
      invariant j == ShiftR(Not32(w), bitCount)
      invariant forall m :: 0 <= m < bitCount ==> !Bit(Not32(w), m)
      decreases j
    {
      ShiftRStep(Not32(w), bitCount);
      j := j / 2;
      bitCount := bitCount + 1;
    }
    if bitCount >= 32 {
      Pow2of32();
      if bitCount > 32 { Pow2Mono(32, bitCount); }
      ShiftRZero(Not32(w), bitCount);
    }
    forall m | 0 <= m <= bitCount ensures Bit(Not32(w), m) == !Bit(w, m) { NotBit(w, m); }
  }

  /** w |= 1 << k sets bit k and no other. */
  lemma SetBit(w: u32, k: nat)
    requires k < 32
    ensures Or(w, Pow2(k)) < 0x1_0000_0000
    ensures forall m: nat :: Bit(Or(w, Pow2(k)), m) == (Bit(w, m) || m == k)
  {
    Pow2of32();
    Pow2Mono(k, 32);
    OrBound(w, Pow2(k), 32);
    forall m: nat ensures Bit(Or(w, Pow2(k)), m) == (Bit(w, m) || m == k) {
      BitOr(w, Pow2(k), m);
      BitPow2(k, m);
    }
  }

  lemma SetBitFirstFit(bitmap: WordSector, i: nat, k: nat)
    requires i < 128 && LowestClear(bitmap[i], k)
    requires forall m :: 0 <= m < i ==> Not32(bitmap[m]) == 0
    requires Or(bitmap[i], Pow2(k)) < 0x1_0000_0000
    ensures FirstFit(bitmap, bitmap[i := Or(bitmap[i], Pow2(k))], 32 * i + k)
  {
    var after: WordSector := bitmap[i := Or(bitmap[i], Pow2(k))];
    var b := 32 * i + k;
    forall c | 0 <= c < b ensures Used(bitmap, c) {
      if c / 32 < i { FullWord(bitmap[c / 32], c % 32); }
    }
    SetBit(bitmap[i], k);
    forall c | 0 <= c < NBLOCKS ensures Used(after, c) <==> Used(bitmap, c) || c == b {
    }
  }
}
