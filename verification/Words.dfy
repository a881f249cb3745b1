/** Machine words: the unsigned types of the device and the driver, the bitwise
    operations the split 64/32-bit registers use, and little-endian bytes. */
module Words {

  const TWO32: int := 0x1_0000_0000
  const TWO64: int := 0x1_0000_0000_0000_0000

  type u8 = x: int | 0 <= x < 0x100
  type u32 = x: int | 0 <= x < TWO32
  type u64 = x: int | 0 <= x < TWO64

  const ALL_ONES: u64 := TWO64 - 1

  function Pow2(k: nat): (p: nat)
    ensures p > 0
  {
    if k == 0 then 1 else 2 * Pow2(k - 1)
  }

  /** Bitwise OR. */
  function OrBits(a: nat, b: nat): nat
    decreases a + b
  {
    if a == 0 && b == 0 then 0
    else 2 * OrBits(a / 2, b / 2) + (if a % 2 == 1 || b % 2 == 1 then 1 else 0)
  }

  /** Bit k of a. */
  predicate BitAt(a: nat, k: nat) {
    if k == 0 then a % 2 == 1 else BitAt(a / 2, k - 1)
  }

  /** A bit of the result is set if and only if it is set in one of the operands, or in both. */
  lemma {:induction false} OrBitByBit(a: nat, b: nat, k: nat)
    ensures BitAt(OrBits(a, b), k) <==> BitAt(a, k) || BitAt(b, k)
  {
    if k > 0 {
      assert OrBits(a, b) / 2 == OrBits(a / 2, b / 2);
      OrBitByBit(a / 2, b / 2, k - 1);
    }
  }

  lemma {:induction false} OrFits(k: nat, a: nat, b: nat)
    requires a < Pow2(k) && b < Pow2(k)
    ensures OrBits(a, b) < Pow2(k)
  {
    if k > 0 {
      OrFits(k - 1, a / 2, b / 2);
    }
  }

  lemma Pow2Of64()
    ensures Pow2(32) == TWO32 && Pow2(64) == TWO64
  {
    assert Pow2(8) == 0x100;
    assert Pow2(16) == 0x1_0000;
    assert Pow2(24) == 0x100_0000;
    assert Pow2(32) == TWO32;
    assert Pow2(40) == 0x100_0000_0000;
    assert Pow2(48) == 0x1_0000_0000_0000;
    assert Pow2(56) == 0x100_0000_0000_0000;
  }

  /** The C expression a | b on unsigned 64-bit operands. */
  function Or64(a: u64, b: u64): u64 {
    Pow2Of64();
    OrFits(64, a, b);
    OrBits(a, b)
  }

  /** The C expression v << 32 on an unsigned 64-bit operand: the upper half is lost. */
  function Shl32(v: u64): u64 {
    (v % TWO32) * TWO32
  }

  /** The C expression v >> 32 on an unsigned 64-bit operand. */
  function Shr32(v: u64): u32 {
    v / TWO32
  }

  /** Truncation of a 64-bit value to a 32-bit word. */
  function Low32(v: u64): u32 {
    v % TWO32
  }

  lemma {:induction false} OrWithZero(a: nat)
    ensures OrBits(a, 0) == a
  {
    if a > 0 {
      OrWithZero(a / 2);
    }
  }

  /** Operands that share no bit are joined by addition: q is the upper operand shifted down by j. */
  lemma {:induction false} OrOfDisjoint(j: nat, q: nat, lo: nat)
    requires lo < Pow2(j)
    ensures OrBits(q * Pow2(j), lo) == q * Pow2(j) + lo
  {
    if j == 0 {
      OrWithZero(q);
    } else {
      assert q * Pow2(j) == 2 * (q * Pow2(j - 1));
      OrOfDisjoint(j - 1, q, lo / 2);
    }
  }

  lemma Or64OfHalves(lo: u32, hi: u32)
    ensures Or64(hi * TWO32, lo) == hi * TWO32 + lo
  {
    Pow2Of64();
    OrOfDisjoint(32, hi, lo);
  }

  lemma ShiftedWord(hi: u32)
    ensures Shl32(hi) == hi * TWO32
  {
  }

  lemma HalvesOfSum(lo: u32, hi: u32)
    ensures Low32(hi * TWO32 + lo) == lo && Shr32(hi * TWO32 + lo) == hi
  {
  }

  /** Joining two words and taking the halves apart again gives the words back. */
  lemma JoinThenSplit(lo: u32, hi: u32)
    ensures Or64(Shl32(hi), lo) == hi * TWO32 + lo
    ensures Low32(Or64(Shl32(hi), lo)) == lo
    ensures Shr32(Or64(Shl32(hi), lo)) == hi
  {
    ShiftedWord(hi);
    Or64OfHalves(lo, hi);
    HalvesOfSum(lo, hi);
  }

  /** Splitting a 64-bit value and joining its halves gives the value back. */
  lemma SplitThenJoin(v: u64)
    ensures Or64(Shl32(Shr32(v)), Low32(v)) == v
  {
    JoinThenSplit(Low32(v), Shr32(v));
  }

  // ----- Little-endian bytes of a 32-bit word -----

  function WordBytes(w: u32): (b: seq<u8>)
    ensures |b| == 4
  {
    var w1 := w / 0x100;
    var w2 := w1 / 0x100;
    [w % 0x100, w1 % 0x100, w2 % 0x100, w2 / 0x100]
  }

  function BytesWord(b: seq<u8>): u32
    requires |b| == 4
  {
    var b0: int, b1: int, b2: int, b3: int := b[0], b[1], b[2], b[3];
    b0 + 0x100 * (b1 + 0x100 * (b2 + 0x100 * b3))
  }

  /** Byte k of a word is its k-th digit to the base 256. */
  lemma WordBytesAscend(w: u32)
    ensures WordBytes(w) == [w % 256, w / 256 % 256, w / 65536 % 256, w / 16777216]
  {
    assert w / 256 / 256 == w / 65536 && w / 256 / 256 / 256 == w / 16777216;
  }

  lemma WordBytesRoundTrip(w: u32)
    ensures BytesWord(WordBytes(w)) == w
  {
  }

  lemma BytesWordRoundTrip(b: seq<u8>)
    requires |b| == 4
    ensures WordBytes(BytesWord(b)) == b
  {
    var w := BytesWord(b);
    var w2: int := b[2] as int + 0x100 * b[3] as int;
    assert w / 0x100 == b[1] as int + 0x100 * w2;
    assert w / 0x100 / 0x100 == w2;
  }

  // ----- Byte buffers as ascending words -----

  /** The words of a byte buffer whose length is a multiple of four. */
  function AsWords(b: seq<u8>): (ws: seq<u32>)
    requires |b| % 4 == 0
    ensures |ws| == |b| / 4
  {
    if b == [] then [] else [BytesWord(b[..4])] + AsWords(b[4..])
  }

  function Bytes(ws: seq<u32>): (b: seq<u8>)
    ensures |b| == 4 * |ws|
  {
    if ws == [] then [] else WordBytes(ws[0]) + Bytes(ws[1..])
  }

  lemma {:induction false} BytesOfWords(b: seq<u8>)
    requires |b| % 4 == 0
    ensures Bytes(AsWords(b)) == b
  {
    if b != [] {
      BytesWordRoundTrip(b[..4]);
      BytesOfWords(b[4..]);
      assert AsWords(b)[1..] == AsWords(b[4..]);
    }
  }

  lemma {:induction false} BytesAppend(ws: seq<u32>, w: u32)
    ensures Bytes(ws + [w]) == Bytes(ws) + WordBytes(w)
  {
    if ws == [] {
      assert Bytes([w]) == WordBytes(w) + Bytes([]);
    } else {
      BytesAppend(ws[1..], w);
      assert (ws + [w])[1..] == ws[1..] + [w];
    }
  }

  lemma {:induction false} WordsAppend(b: seq<u8>, w: seq<u8>)
    requires |b| % 4 == 0 && |w| == 4
    ensures AsWords(b + w) == AsWords(b) + [BytesWord(w)]
  {
    if b == [] {
      assert b + w == w && w[..4] == w && w[4..] == [];
    } else {
      assert (b + w)[..4] == b[..4] && (b + w)[4..] == b[4..] + w;
      WordsAppend(b[4..], w);
    }
  }

  lemma {:induction false} WordsOfBytes(ws: seq<u32>)
    ensures AsWords(Bytes(ws)) == ws
  {
    if ws != [] {
      WordBytesRoundTrip(ws[0]);
      WordsOfBytes(ws[1..]);
      assert Bytes(ws)[..4] == WordBytes(ws[0]) && Bytes(ws)[4..] == Bytes(ws[1..]);
    }
  }

  /** The memory image of a 64-bit value. */
  function Bytes64(v: u64): (b: seq<u8>)
    ensures |b| == 8
  {
    Bytes([Low32(v), Shr32(v)])
  }

  /** The 64-bit value in a memory image. */
  function Value64(b: seq<u8>): u64
    requires |b| == 8
  {
    BytesWord(b[4..]) * TWO32 + BytesWord(b[..4])
  }

  /** A 64-bit value from its two words. */
  function Joined64(lo: u32, hi: u32): u64 {
    hi * TWO32 + lo
  }

  lemma Value64OfWords(lo: u32, hi: u32)
    ensures Value64(Bytes([lo, hi])) == Joined64(lo, hi)
  {
    assert [lo, hi][1..] == [hi] && [hi][1..] == [];
    assert Bytes([hi]) == WordBytes(hi);
    assert Bytes([lo, hi]) == WordBytes(lo) + WordBytes(hi);
    WordBytesRoundTrip(lo);
    WordBytesRoundTrip(hi);
  }
}
