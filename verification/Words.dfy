/** Machine integers of the 32-bit target, the bit operations the sources apply to them,
    and the little-endian view of a 512-byte sector as 128 words. */
module Words {
  type byte = x: int | 0 <= x < 0x100
  type u32 = x: int | 0 <= x < 0x1_0000_0000

  const SECTSIZE := 512
  type Sector = s: seq<byte> | |s| == 512 witness seq(512, _ => 0)
  type WordSector = w: seq<u32> | |w| == 128 witness seq(128, _ => 0)

  function ZeroSector(): Sector { seq(512, _ => 0) }

  function Max(a: nat, b: nat): nat { if a > b then a else b }

  function Min(a: int, b: int): int { if a < b then a else b }

  lemma SliceJoin(c: seq<byte>, x: nat, y: nat, z: nat)
    requires x <= y <= z <= |c|
    ensures c[x..y] + c[y..z] == c[x..z]
  {
  }

  // ---------------------------------------------------------------- bits

  function Pow2(k: nat): (p: nat)
    ensures p >= 1
  {
    if k == 0 then 1 else 2 * Pow2(k - 1)
  }

  /** x >> k */
  function ShiftR(x: nat, k: nat): nat {
    if k == 0 then x else ShiftR(x / 2, k - 1)
  }

  /** Bit k of x. */
  predicate Bit(x: nat, k: nat) { ShiftR(x, k) % 2 == 1 }

  /** x | y */
  function Or(x: nat, y: nat): nat
    decreases x + y
  {
    if x == 0 && y == 0 then 0
    else 2 * Or(x / 2, y / 2) + (if x % 2 == 1 || y % 2 == 1 then 1 else 0)
  }

  /** ~x on 32 bits. */
  function Not32(x: u32): u32 { 0xFFFF_FFFF - x }

  lemma {:induction false} ShiftRStep(x: nat, k: nat)
    ensures ShiftR(x, k + 1) == ShiftR(x, k) / 2
  {
    if k == 0 {
    } else {
      ShiftRStep(x / 2, k - 1);
    }
  }

  lemma {:induction false} ShiftRZero(x: nat, k: nat)
    requires x < Pow2(k)
    ensures ShiftR(x, k) == 0
  {
    if k == 0 {
    } else {
      ShiftRZero(x / 2, k - 1);
    }
  }

  lemma {:induction false} BitOr(x: nat, y: nat, k: nat)
    ensures Bit(Or(x, y), k) == (Bit(x, k) || Bit(y, k))
    decreases k
  {
    if x == 0 && y == 0 {
      BitZero(k);
    } else if k > 0 {
      BitOr(x / 2, y / 2, k - 1);
    }
  }

  lemma {:induction false} BitZero(k: nat)
    ensures !Bit(0, k)
  {
    if k == 0 {
    } else {
      BitZero(k - 1);
    }
  }

  lemma {:induction false} BitPow2(k: nat, m: nat)
    ensures Bit(Pow2(k), m) == (k == m)
  {
    if m == 0 {
    } else if k == 0 {
      BitZero(m - 1);
    } else {
      BitPow2(k - 1, m - 1);
    }
  }

  /** Complementing an n-bit number flips each of its n bits. */
  lemma {:induction false} BitComplement(x: nat, n: nat, k: nat)
    requires x < Pow2(n) && k < n
    ensures Bit(Pow2(n) - 1 - x, k) == !Bit(x, k)
  {
    if k == 0 {
    } else {
      assert (Pow2(n) - 1 - x) / 2 == Pow2(n - 1) - 1 - x / 2;
      BitComplement(x / 2, n - 1, k - 1);
    }
  }

  lemma Pow2of32()
    ensures Pow2(32) == 0x1_0000_0000
  {
    assert Pow2(8) == 256;
    assert Pow2(16) == 65536;
    assert Pow2(24) == 0x100_0000;
  }

  lemma {:induction false} OrBound(x: nat, y: nat, n: nat)
    requires x < Pow2(n) && y < Pow2(n)
    ensures Or(x, y) < Pow2(n)
  {
    if n == 0 || (x == 0 && y == 0) {
    } else {
      OrBound(x / 2, y / 2, n - 1);
    }
  }

  lemma {:induction false} OrZero(x: nat)
    ensures Or(x, 0) == x
  {
    if x == 0 {
    } else {
      OrZero(x / 2);
    }
  }

  lemma OrHalf(h: nat, y: nat)
    requires Or(h, y / 2) == h + y / 2
    ensures Or(2 * h, y) == 2 * h + y
  {
  }

  lemma TwiceProduct(m: nat, p: nat)
    ensures m * (2 * p) == 2 * (m * p)
  {
  }

  /** x | y is x + y when x is a multiple of 2^k and y is below it. */
  lemma {:induction false} OrAdd(m: nat, y: nat, k: nat)
    requires y < Pow2(k)
    ensures Or(m * Pow2(k), y) == m * Pow2(k) + y
  {
    hide Or;
    if k == 0 {
      OrZero(m);
    } else {
      OrAdd(m, y / 2, k - 1);
      OrHalf(m * Pow2(k - 1), y);
      TwiceProduct(m, Pow2(k - 1));
    }
  }

  lemma {:induction false} Pow2Mono(a: nat, b: nat)
    requires a < b
    ensures Pow2(a) < Pow2(b)
    decreases b
  {
    if a == b - 1 {
    } else {
      Pow2Mono(a, b - 1);
    }
  }

  // ---------------------------------------------------------------- little-endian words

  function WordAt(s: Sector, i: nat): u32
    requires i < 128
  {
    var a: int, b: int, c: int, d: int := s[4 * i], s[4 * i + 1], s[4 * i + 2], s[4 * i + 3];
    a + 0x100 * b + 0x1_0000 * c + 0x100_0000 * d
  }

  function ByteOf(x: u32, k: nat): byte
    requires k < 4
  {
    if k == 0 then x % 0x100
    else if k == 1 then x / 0x100 % 0x100
    else if k == 2 then x / 0x1_0000 % 0x100
    else x / 0x100_0000
  }

  function ToWords(s: Sector): WordSector {
    seq(128, i requires 0 <= i < 128 => WordAt(s, i))
  }

  function ToBytes(w: WordSector): Sector {
    seq(512, k requires 0 <= k < 512 => ByteOf(w[k / 4], k % 4))
  }

  lemma WordBytes(x: u32)
    ensures ByteOf(x, 0) + 0x100 * ByteOf(x, 1) + 0x1_0000 * ByteOf(x, 2) + 0x100_0000 * ByteOf(x, 3) == x
  {
    var h, q := x / 0x100, x / 0x1_0000;
    assert h / 0x100 == q && q / 0x100 == x / 0x100_0000;
    assert x == 0x100 * h + ByteOf(x, 0) && h == 0x100 * q + ByteOf(x, 1) && q == 0x100 * ByteOf(x, 3) + ByteOf(x, 2);
  }

  /** Four little-endian bytes of x in place make the word x. */
  lemma WordFromBytes(s: Sector, i: nat, x: u32)
    requires i < 128
    requires s[4 * i] == ByteOf(x, 0) && s[4 * i + 1] == ByteOf(x, 1)
    requires s[4 * i + 2] == ByteOf(x, 2) && s[4 * i + 3] == ByteOf(x, 3)
    ensures WordAt(s, i) == x
  {
    WordBytes(x);
  }

  /** Word k of a sector is its bytes 4k to 4k + 3, the least significant first. */
  lemma WordsInPlace(w: WordSector, k: nat)
    requires k < 128
    ensures var s, o, x := ToBytes(w), 4 * k, w[k];
            && s[o] == x % 0x100 && s[o + 1] == x / 0x100 % 0x100
            && s[o + 2] == x / 0x1_0000 % 0x100 && s[o + 3] == x / 0x100_0000
  {
  }

  lemma Quotient(x: nat, d: nat, q: nat, r: nat)
    requires x == d * q + r && r < d
    ensures x / d == q && x % d == r
  {
    var t := x / d;
    if t > q { NextMultiple(d, q, t); }
    if t < q { NextMultiple(d, t, q); }
  }

  lemma NextMultiple(d: nat, q: nat, t: nat)
    requires q < t
    ensures d * t >= d * q + d
  {
    var n := t - q - 1;
    assert d * t == d * q + d + d * n;
  }

  /** Bit k of x is the parity of x / 2^k. */
  lemma {:induction false} BitIs(x: nat, k: nat)
    ensures ShiftR(x, k) == x / Pow2(k)
    ensures Bit(x, k) <==> x / Pow2(k) % 2 == 1
  {
    if k == 0 {
    } else {
      BitIs(x / 2, k - 1);
      var h, p := x / 2, Pow2(k - 1);
      var q, r := h / p, h % p;
      assert h == p * q + r;
      assert x == (2 * p) * q + (2 * r + x % 2);
      Quotient(x, 2 * p, q, 2 * r + x % 2);
    }
  }

  /** The bits below n are those of the remainder by 2^n. */
  lemma {:induction false} LowBits(x: nat, n: nat, k: nat)
    requires k < n
    ensures Bit(x % Pow2(n), k) <==> Bit(x, k)
  {
    HalfRemainder(x, Pow2(n), Pow2(n - 1));
    if k == 0 {
    } else {
      LowBits(x / 2, n - 1, k - 1);
    }
  }

  lemma HalfRemainder(x: nat, d: nat, p: nat)
    requires d == 2 * p > 0
    ensures x % d / 2 == x / 2 % p && x % d % 2 == x % 2
  {
    var q, r := DivMod(x, d);
    HalfSum(x, d, p, q, r);
  }

  lemma DivMod(x: nat, d: nat) returns (q: nat, r: nat)
    requires d > 0
    ensures r == x % d && x == d * q + r && r < d
  {
    q, r := x / d, x % d;
  }

  lemma HalfSum(x: nat, d: nat, p: nat, q: nat, r: nat)
    requires d == 2 * p && x == d * q + r && r < d
    ensures x / 2 % p == r / 2 && x % 2 == r % 2
  {
    TwiceProduct(q, p);
    var pq := q * p;
    assert x == 2 * pq + r;
    Quotient(x / 2, p, q, r / 2);
  }

  lemma {:induction false} BitOfByte(w: u32, k: nat)
    requires k < 32
    ensures Bit(w, k) <==> Bit(ByteOf(w, k / 8), k % 8)
  {
    assert Pow2(8) == 0x100;
    var b := k / 8 * 8;
    assert Pow2(16) == 0x1_0000;
    assert Pow2(24) == 0x100_0000;
    BitIs(w, b);
    ShiftShift(w, b, k % 8);
    if k / 8 < 3 {
      LowBits(ShiftR(w, b), 8, k % 8);
    }
  }

  lemma {:induction false} ShiftShift(x: nat, a: nat, b: nat)
    ensures ShiftR(x, a + b) == ShiftR(ShiftR(x, a), b)
  {
    if a == 0 {
    } else {
      ShiftShift(x / 2, a - 1, b);
    }
  }

  /** Storing 128 words in a sector and loading them again is the identity ... */
  lemma WordsRoundTrip(w: WordSector)
    ensures ToWords(ToBytes(w)) == w
  {
    var s := ToBytes(w);
    forall i | 0 <= i < 128 ensures WordAt(s, i) == w[i] {
      WordFromBytes(s, i, w[i]);
    }
  }

  /** ... and so is loading any sector and storing it again. */
  lemma BytesRoundTrip(s: Sector)
    ensures ToBytes(ToWords(s)) == s
  {
    var w := ToWords(s);
    forall k | 0 <= k < 512 ensures ByteOf(w[k / 4], k % 4) == s[k] {
      var i := k / 4;
      assert w[i] == WordAt(s, i);
      BytesOfWord(s, i);
      assert k == 4 * i + k % 4;
    }
  }

  lemma BytesOfWord(s: Sector, i: nat)
    requires i < 128
    ensures forall k :: 0 <= k < 4 ==> ByteOf(WordAt(s, i), k) == s[4 * i + k]
  {
    var a: int, b: int, c: int, d: int := s[4 * i], s[4 * i + 1], s[4 * i + 2], s[4 * i + 3];
    var x: int := WordAt(s, i);
    assert x / 0x100 == b + 0x100 * c + 0x1_0000 * d;
    assert x / 0x1_0000 == c + 0x100 * d;
    assert x / 0x100_0000 == d;
  }
}
