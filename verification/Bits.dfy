/**
 Machine words: the bit helpers on 16-bit words, the branch-free population count, and the
 reading of words and bytes as bit sequences, most significant bit first.
 */
module Bits {
  import opened Gf2

  type uint16 = bv16
  type uint8 = bv8

  // The word with only bit n, counted from the most significant.
  function Mask(n: nat): uint16
    requires n < 16
  {
    1 << (15 - n)
  }

  function SetNthBit(n: nat, m: uint16): uint16
    requires n < 16
  {
    m | Mask(n)
  }

  function GetNthBit(n: nat, m: uint16): uint16
    requires n < 16
  {
    (m >> (15 - n)) & 1
  }

  function ChgNthBit(n: nat, m: uint16): uint16
    requires n < 16
  {
    m ^ Mask(n)
  }

  predicate Bit(n: nat, m: uint16)
    requires n < 16
  {
    GetNthBit(n, m) == 1
  }

  function WordBits(m: uint16): (w: Word)
    ensures |w| == 16 && forall i :: 0 <= i < 16 ==> w[i] == Bit(i, m)
  {
    seq(16, i requires 0 <= i < 16 => Bit(i, m))
  }

  function Widen(x: uint8): uint16 {
    x as bv16
  }

  // The bits of a byte are the low half of the word it widens to.
  function ByteBits(x: uint8): (w: Word)
    ensures |w| == 8 && forall i :: 0 <= i < 8 ==> w[i] == Bit(i + 8, Widen(x))
  {
    seq(8, i requires 0 <= i < 8 => Bit(i + 8, Widen(x)))
  }

  // Truncation to a byte.
  function LowByte(m: uint16): uint8 {
    (m & 0xff) as bv8
  }

  // A data byte above a control byte.
  function Join(d: uint8, c: uint8): uint16 {
    (Widen(d) << 8) + Widen(c)
  }

  // ---------- one bit at a time ----------

  lemma ShiftOfXor(a: uint16, b: uint16, s: nat)
    requires s < 16
    ensures (a ^ b) >> s == (a >> s) ^ (b >> s)
  {
  }

  lemma LastBitOfXor(x: uint16, y: uint16)
    ensures (x ^ y) & 1 == 1 <==> (x & 1 == 1) != (y & 1 == 1)
  {
  }

  lemma BitOfXor(a: uint16, b: uint16, n: nat)
    requires n < 16
    ensures Bit(n, a ^ b) == (Bit(n, a) != Bit(n, b))
  {
    ShiftOfXor(a, b, 15 - n);
    LastBitOfXor(a >> (15 - n), b >> (15 - n));
  }

  lemma BitOfShift(m: uint16, n: nat)
    requires n < 16
    ensures Bit(n, m >> 1) == (n > 0 && Bit(n - 1, m))
  {
    if n == 0 {} else if n == 1 {} else if n == 2 {} else if n == 3 {}
    else if n == 4 {} else if n == 5 {} else if n == 6 {} else if n == 7 {}
    else if n == 8 {} else if n == 9 {} else if n == 10 {} else if n == 11 {}
    else if n == 12 {} else if n == 13 {} else if n == 14 {} else { assert n == 15; }
  }

  lemma BitOfAlign(m: uint16, n: nat)
    requires n < 16
    ensures Bit(n, m << 7) == (n + 7 < 16 && Bit(n + 7, m))
  {
    if n == 0 {} else if n == 1 {} else if n == 2 {} else if n == 3 {}
    else if n == 4 {} else if n == 5 {} else if n == 6 {} else if n == 7 {}
    else if n == 8 {} else if n == 9 {} else if n == 10 {} else if n == 11 {}
    else if n == 12 {} else if n == 13 {} else if n == 14 {} else { assert n == 15; }
  }

  lemma ShiftOfOne(s: nat, t: nat)
    requires s < 16 && t < 16
    ensures (((1 as bv16) << s) >> t) & 1 == if s == t then 1 else 0
  {
  }

  lemma BitOfMask(n: nat, i: nat)
    requires n < 16 && i < 16
    ensures Bit(i, Mask(n)) == (i == n)
  {
    ShiftOfOne(15 - n, 15 - i);
  }

  lemma ShiftOfOr(a: uint16, b: uint16, s: nat)
    requires s < 16
    ensures (a | b) >> s == (a >> s) | (b >> s)
  {
  }

  lemma LastBitOfOr(x: uint16, y: uint16)
    ensures (x | y) & 1 == 1 <==> x & 1 == 1 || y & 1 == 1
  {
  }

  lemma BitOfOr(a: uint16, b: uint16, n: nat)
    requires n < 16
    ensures Bit(n, a | b) == (Bit(n, a) || Bit(n, b))
  {
    ShiftOfOr(a, b, 15 - n);
    LastBitOfOr(a >> (15 - n), b >> (15 - n));
  }

  lemma BitOfJoin(d: uint8, c: uint8, n: nat)
    requires n < 16
    ensures Bit(n, Join(d, c)) == if n < 8 then Bit(n + 8, Widen(d)) else Bit(n, Widen(c))
  {
    if n == 0 {} else if n == 1 {} else if n == 2 {} else if n == 3 {}
    else if n == 4 {} else if n == 5 {} else if n == 6 {} else if n == 7 {}
    else if n == 8 {} else if n == 9 {} else if n == 10 {} else if n == 11 {}
    else if n == 12 {} else if n == 13 {} else if n == 14 {} else { assert n == 15; }
  }

  lemma BitOfLowByte(m: uint16, n: nat)
    requires 8 <= n < 16
    ensures Bit(n, Widen(LowByte(m))) == Bit(n, m)
  {
    if n == 8 {} else if n == 9 {} else if n == 10 {} else if n == 11 {}
    else if n == 12 {} else if n == 13 {} else if n == 14 {} else { assert n == 15; }
  }

  // ---------- whole words ----------

  lemma XorBits(a: uint16, b: uint16)
    ensures WordBits(a ^ b) == Xor(WordBits(a), WordBits(b))
  {
    forall i | 0 <= i < 16 ensures WordBits(a ^ b)[i] == Xor(WordBits(a), WordBits(b))[i] {
      BitOfXor(a, b, i);
    }
  }

  // A word moved one place down, a clear bit coming in at the top.
  function ShiftDown(w: Word): (r: Word)
    ensures |r| == |w| && forall i :: 0 <= i < |w| ==> r[i] == (i > 0 && w[i - 1])
  {
    seq(|w|, i requires 0 <= i < |w| => i > 0 && w[i - 1])
  }

  lemma ShiftBits(m: uint16)
    ensures WordBits(m >> 1) == ShiftDown(WordBits(m))
  {
    forall i | 0 <= i < 16 ensures WordBits(m >> 1)[i] == ShiftDown(WordBits(m))[i] {
      BitOfShift(m, i);
    }
  }

  lemma AlignBits(m: uint16)
    ensures WordBits(m << 7) == WordBits(m)[7..] + Zeros(7)
  {
    forall i | 0 <= i < 16 ensures WordBits(m << 7)[i] == (WordBits(m)[7..] + Zeros(7))[i] {
      BitOfAlign(m, i);
    }
  }

  lemma BitOfSet(n: nat, m: uint16, i: nat)
    requires n < 16 && i < 16
    ensures Bit(i, SetNthBit(n, m)) == (i == n || Bit(i, m))
  {
    BitOfOr(m, Mask(n), i);
    BitOfMask(n, i);
  }

  lemma BitOfChg(n: nat, m: uint16, i: nat)
    requires n < 16 && i < 16
    ensures Bit(i, ChgNthBit(n, m)) == ((i == n) != Bit(i, m))
  {
    BitOfXor(m, Mask(n), i);
    BitOfMask(n, i);
  }

  lemma SetBits(n: nat, m: uint16)
    requires n < 16
    ensures WordBits(SetNthBit(n, m)) == WordBits(m)[n := true]
  {
    forall i | 0 <= i < 16 ensures WordBits(SetNthBit(n, m))[i] == WordBits(m)[n := true][i] {
      BitOfSet(n, m, i);
    }
  }

  lemma ChgBits(n: nat, m: uint16)
    requires n < 16
    ensures WordBits(ChgNthBit(n, m)) == WordBits(m)[n := !WordBits(m)[n]]
  {
    forall i | 0 <= i < 16 ensures WordBits(ChgNthBit(n, m))[i] == WordBits(m)[n := !WordBits(m)[n]][i] {
      BitOfChg(n, m, i);
    }
  }

  lemma JoinBits(d: uint8, c: uint8)
    ensures WordBits(Join(d, c)) == ByteBits(d) + ByteBits(c)
  {
    forall i | 0 <= i < 16 ensures WordBits(Join(d, c))[i] == (ByteBits(d) + ByteBits(c))[i] {
      BitOfJoin(d, c, i);
    }
  }

  lemma LowByteBits(m: uint16)
    ensures ByteBits(LowByte(m)) == WordBits(m)[8..]
  {
    forall i | 0 <= i < 8 ensures ByteBits(LowByte(m))[i] == WordBits(m)[8..][i] {
      BitOfLowByte(m, i + 8);
    }
  }

  lemma WidenOfXor(a: uint8, b: uint8)
    ensures Widen(a ^ b) == Widen(a) ^ Widen(b)
  {
  }

  lemma XorByteBits(a: uint8, b: uint8)
    ensures ByteBits(a ^ b) == Xor(ByteBits(a), ByteBits(b))
  {
    WidenOfXor(a, b);
    forall i | 0 <= i < 8 ensures ByteBits(a ^ b)[i] == Xor(ByteBits(a), ByteBits(b))[i] {
      BitOfXor(Widen(a), Widen(b), i + 8);
    }
  }

  // ---------- bytes from bits ----------

  function MaskIf(b: bool, mask: uint8): uint8 {
    if b then mask else 0
  }

  function FromBits(w: Word): uint8
    requires |w| == 8
  {
    MaskIf(w[0], 0x80) | MaskIf(w[1], 0x40) | MaskIf(w[2], 0x20) | MaskIf(w[3], 0x10)
    | MaskIf(w[4], 0x08) | MaskIf(w[5], 0x04) | MaskIf(w[6], 0x02) | MaskIf(w[7], 0x01)
  }

  lemma FromBitsAt(w: Word, i: nat)
    requires |w| == 8 && i < 8
    ensures Bit(i + 8, Widen(FromBits(w))) == w[i]
  {
    if i == 0 {} else if i == 1 {} else if i == 2 {} else if i == 3 {}
    else if i == 4 {} else if i == 5 {} else if i == 6 {} else { assert i == 7; }
  }

  lemma BitsOfFromBits(w: Word)
    requires |w| == 8
    ensures ByteBits(FromBits(w)) == w
  {
    forall i | 0 <= i < 8 ensures ByteBits(FromBits(w))[i] == w[i] {
      FromBitsAt(w, i);
    }
  }

  lemma HighMasks(x: uint8)
    ensures MaskIf(Bit(8, Widen(x)), 0x80) == x & 0x80 && MaskIf(Bit(9, Widen(x)), 0x40) == x & 0x40
    ensures MaskIf(Bit(10, Widen(x)), 0x20) == x & 0x20 && MaskIf(Bit(11, Widen(x)), 0x10) == x & 0x10
  {
  }

  lemma LowMasks(x: uint8)
    ensures MaskIf(Bit(12, Widen(x)), 0x08) == x & 0x08 && MaskIf(Bit(13, Widen(x)), 0x04) == x & 0x04
    ensures MaskIf(Bit(14, Widen(x)), 0x02) == x & 0x02 && MaskIf(Bit(15, Widen(x)), 0x01) == x & 0x01
  {
  }

  lemma FromBitsOfBits(x: uint8)
    ensures FromBits(ByteBits(x)) == x
  {
    HighMasks(x);
    LowMasks(x);
    ByteIsItsBits(x);
  }

  lemma ByteIsItsBits(x: uint8)
    ensures x == (x & 0x80) | (x & 0x40) | (x & 0x20) | (x & 0x10) | (x & 0x08) | (x & 0x04) | (x & 0x02) | (x & 0x01)
  {
  }

  // ---------- population count ----------

  // Bit i from the low end.
  function Low(x: uint16, i: nat): uint16
    requires i < 16
  {
    (x >> i) & 1
  }

  // The first stage leaves the count of every two bits in a field of two.
  lemma PairStage(x: uint16, p: uint16)
    requires p == x - ((x >> 1) & 0x5555)
    ensures (p >> 0) & 3 == Low(x, 0) + Low(x, 1)
    ensures (p >> 2) & 3 == Low(x, 2) + Low(x, 3)
    ensures (p >> 4) & 3 == Low(x, 4) + Low(x, 5)
    ensures (p >> 6) & 3 == Low(x, 6) + Low(x, 7)
    ensures (p >> 8) & 3 == Low(x, 8) + Low(x, 9)
    ensures (p >> 10) & 3 == Low(x, 10) + Low(x, 11)
    ensures (p >> 12) & 3 == Low(x, 12) + Low(x, 13)
    ensures (p >> 14) & 3 == Low(x, 14) + Low(x, 15)
  {
  }

  lemma NibbleStage(p: uint16, q: uint16)
    requires q == (p & 0x3333) + ((p >> 2) & 0x3333)
    ensures (q >> 0) & 15 == ((p >> 0) & 3) + ((p >> 2) & 3)
    ensures (q >> 4) & 15 == ((p >> 4) & 3) + ((p >> 6) & 3)
    ensures (q >> 8) & 15 == ((p >> 8) & 3) + ((p >> 10) & 3)
    ensures (q >> 12) & 15 == ((p >> 12) & 3) + ((p >> 14) & 3)
  {
  }

  lemma NibblesAreSmall(p: uint16, q: uint16)
    requires q == (p & 0x3333) + ((p >> 2) & 0x3333)
    ensures q & 15 <= 6 && (q >> 4) & 15 <= 6 && (q >> 8) & 15 <= 6 && (q >> 12) & 15 <= 6
  {
  }

  // Fields of at most 6 do not carry into their neighbours.
  lemma ByteStage(q: uint16, r: uint16)
    requires r == (q + (q >> 4)) & 0x0f0f
    requires q & 15 <= 6 && (q >> 4) & 15 <= 6 && (q >> 8) & 15 <= 6 && (q >> 12) & 15 <= 6
    ensures (r >> 0) & 255 == ((q >> 0) & 15) + ((q >> 4) & 15)
    ensures (r >> 8) & 255 == ((q >> 8) & 15) + ((q >> 12) & 15)
  {
  }

  lemma WordStage(q: uint16, r: uint16, s: uint16)
    requires r == (q + (q >> 4)) & 0x0f0f && s == (r + (r >> 8)) & 0x7f
    requires q & 15 <= 6 && (q >> 4) & 15 <= 6 && (q >> 8) & 15 <= 6 && (q >> 12) & 15 <= 6
    ensures s == ((r >> 0) & 255) + ((r >> 8) & 255)
  {
  }

  // Small words add as numbers do.
  lemma AddSmall(f: uint16, a: uint16, b: uint16)
    requires f == a + b && a <= 12 && b <= 12
    ensures f as nat == a as nat + b as nat
  {
  }

  lemma PairSums(x: uint16, p: uint16)
    requires p == x - ((x >> 1) & 0x5555)
    ensures ((p >> 0) & 3) as nat == Low(x, 0) as nat + Low(x, 1) as nat
    ensures ((p >> 2) & 3) as nat == Low(x, 2) as nat + Low(x, 3) as nat
    ensures ((p >> 4) & 3) as nat == Low(x, 4) as nat + Low(x, 5) as nat
    ensures ((p >> 6) & 3) as nat == Low(x, 6) as nat + Low(x, 7) as nat
    ensures ((p >> 8) & 3) as nat == Low(x, 8) as nat + Low(x, 9) as nat
    ensures ((p >> 10) & 3) as nat == Low(x, 10) as nat + Low(x, 11) as nat
    ensures ((p >> 12) & 3) as nat == Low(x, 12) as nat + Low(x, 13) as nat
    ensures ((p >> 14) & 3) as nat == Low(x, 14) as nat + Low(x, 15) as nat
  {
    PairStage(x, p);
    AddSmall((p >> 0) & 3, Low(x, 0), Low(x, 1));
    AddSmall((p >> 2) & 3, Low(x, 2), Low(x, 3));
    AddSmall((p >> 4) & 3, Low(x, 4), Low(x, 5));
    AddSmall((p >> 6) & 3, Low(x, 6), Low(x, 7));
    AddSmall((p >> 8) & 3, Low(x, 8), Low(x, 9));
    AddSmall((p >> 10) & 3, Low(x, 10), Low(x, 11));
    AddSmall((p >> 12) & 3, Low(x, 12), Low(x, 13));
    AddSmall((p >> 14) & 3, Low(x, 14), Low(x, 15));
  }

  lemma AddPairs(f: uint16, a: uint16, b: uint16)
    requires f == (a & 3) + (b & 3)
    ensures f as nat == (a & 3) as nat + (b & 3) as nat
  {
    AddSmall(f, a & 3, b & 3);
  }

  lemma NibbleSums(p: uint16, q: uint16)
    requires q == (p & 0x3333) + ((p >> 2) & 0x3333)
    ensures ((q >> 0) & 15) as nat == ((p >> 0) & 3) as nat + ((p >> 2) & 3) as nat
    ensures ((q >> 4) & 15) as nat == ((p >> 4) & 3) as nat + ((p >> 6) & 3) as nat
    ensures ((q >> 8) & 15) as nat == ((p >> 8) & 3) as nat + ((p >> 10) & 3) as nat
    ensures ((q >> 12) & 15) as nat == ((p >> 12) & 3) as nat + ((p >> 14) & 3) as nat
  {
    NibbleStage(p, q);
    AddPairs((q >> 0) & 15, p >> 0, p >> 2);
    AddPairs((q >> 4) & 15, p >> 4, p >> 6);
    AddPairs((q >> 8) & 15, p >> 8, p >> 10);
    AddPairs((q >> 12) & 15, p >> 12, p >> 14);
  }

  lemma WordSums(q: uint16, r: uint16, s: uint16)
    requires r == (q + (q >> 4)) & 0x0f0f && s == (r + (r >> 8)) & 0x7f
    requires q & 15 <= 6 && (q >> 4) & 15 <= 6 && (q >> 8) & 15 <= 6 && (q >> 12) & 15 <= 6
    ensures s as nat ==
      ((q >> 0) & 15) as nat + ((q >> 4) & 15) as nat + ((q >> 8) & 15) as nat + ((q >> 12) & 15) as nat
  {
    ByteStage(q, r);
    WordStage(q, r, s);
    AddSmall((r >> 0) & 255, (q >> 0) & 15, (q >> 4) & 15);
    AddSmall((r >> 8) & 255, (q >> 8) & 15, (q >> 12) & 15);
    AddSmall(s, (r >> 0) & 255, (r >> 8) & 255);
  }

  // The weight of the low n bits.
  function LowWeight(x: uint16, n: nat): nat
    requires n <= 16
  {
    if n == 0 then 0 else LowWeight(x, n - 1) + Low(x, n - 1) as nat
  }

  lemma LowIsBit(x: uint16, i: nat)
    requires i < 16
    ensures Low(x, i) as nat == BitCount(Bit(15 - i, x))
  {
    assert Low(x, i) == 0 || Low(x, i) == 1;
  }

  lemma {:induction false} LowWeightIsWeight(x: uint16, n: nat)
    requires n <= 16
    ensures LowWeight(x, n) == Weight(WordBits(x)[16 - n..])
  {
    var w := WordBits(x);
    if n == 0 {
      assert w[16..] == [];
    } else {
      LowWeightIsWeight(x, n - 1);
      LowIsBit(x, n - 1);
      assert w[16 - n..][1..] == w[16 - (n - 1)..];
    }
  }

  lemma LowWeightFour(x: uint16, n: nat)
    requires n <= 12
    ensures LowWeight(x, n + 4) ==
      LowWeight(x, n) + Low(x, n) as nat + Low(x, n + 1) as nat + Low(x, n + 2) as nat + Low(x, n + 3) as nat
  {
    assert LowWeight(x, n + 2) == LowWeight(x, n) + Low(x, n) as nat + Low(x, n + 1) as nat;
  }

  lemma LowHalf(x: uint16)
    ensures LowWeight(x, 8) ==
      Low(x, 0) as nat + Low(x, 1) as nat + Low(x, 2) as nat + Low(x, 3) as nat
      + Low(x, 4) as nat + Low(x, 5) as nat + Low(x, 6) as nat + Low(x, 7) as nat
  {
    LowWeightFour(x, 0);
    LowWeightFour(x, 4);
  }

  lemma HighHalf(x: uint16)
    ensures LowWeight(x, 16) == LowWeight(x, 8)
      + Low(x, 8) as nat + Low(x, 9) as nat + Low(x, 10) as nat + Low(x, 11) as nat
      + Low(x, 12) as nat + Low(x, 13) as nat + Low(x, 14) as nat + Low(x, 15) as nat
  {
    LowWeightFour(x, 8);
    LowWeightFour(x, 12);
  }

  lemma AllBits(x: uint16)
    ensures LowWeight(x, 16) == Weight(WordBits(x))
  {
    LowWeightIsWeight(x, 16);
    assert WordBits(x)[0..] == WordBits(x);
  }

  /** The branch-free count is the number of ones. */
  method WeightOf(x0: uint16) returns (n: nat)
    ensures n == Weight(WordBits(x0))
  {
    var x := x0;
    x := x - ((x >> 1) & 0x5555);
    ghost var p := x;
    x := (x & 0x3333) + ((x >> 2) & 0x3333);
    ghost var q := x;
    x := (x + (x >> 4)) & 0x0f0f;
    ghost var r := x;
    x := (x + (x >> 8)) & 0x7f;
    n := x as nat;
    CountIsWeight(x0, p, q, r, x);
  }

  lemma CountIsWeight(x: uint16, p: uint16, q: uint16, r: uint16, s: uint16)
    requires p == x - ((x >> 1) & 0x5555) && q == (p & 0x3333) + ((p >> 2) & 0x3333)
    requires r == (q + (q >> 4)) & 0x0f0f && s == (r + (r >> 8)) & 0x7f
    ensures s as nat == Weight(WordBits(x))
  {
    PairSums(x, p);
    NibbleSums(p, q);
    NibblesAreSmall(p, q);
    WordSums(q, r, s);
    LowHalf(x);
    HighHalf(x);
    AllBits(x);
  }
}
