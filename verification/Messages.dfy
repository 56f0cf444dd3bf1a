/**
 Bytes and their check bytes: the number of a byte, the check byte as a function of the data
 byte, and how far apart the words of the code are.
 */
module Messages {
  import opened Gf2
  import opened Bits
  import opened CyclicCode
  import opened MatrixCode
  import opened CodeErrors

  const MAX_MSG_LENGTH: nat := 512
  const NB_SYNDROMES: nat := 256

  // ---------- bytes ----------

  // The byte of a number, counted up from zero.
  function ToByte(e: nat): uint8
    requires e < 256
  {
    if e == 0 then 0 else ToByte(e - 1) + 1
  }

  function Index(b: uint8): nat {
    b as nat
  }

  lemma NextByte(b: uint8)
    requires Index(b) < 255
    ensures Index(b + 1) == Index(b) + 1
  {
  }

  lemma {:induction false} ByteIndex(e: nat)
    requires e < 256
    ensures Index(ToByte(e)) == e
  {
    if e > 0 {
      ByteIndex(e - 1);
      NextByte(ToByte(e - 1));
    }
  }

  lemma IndexInjective(a: uint8, b: uint8)
    requires Index(a) == Index(b)
    ensures a == b
  {
  }

  lemma IndexBelow(b: uint8)
    ensures Index(b) < 256
  {
  }

  ghost predicate IsControl(d: uint8, c: uint8) {
    Generator(GEN) && ByteBits(c) == Check(GEN, ByteBits(d))
  }

  lemma ControlExists(d: uint8)
    ensures exists c: uint8 :: IsControl(d, c)
  {
    GeneratorBits();
    var c := FromBits(Check(GEN, ByteBits(d)));
    BitsOfFromBits(Check(GEN, ByteBits(d)));
    assert IsControl(d, c);
  }

  // The check byte of a data byte.
  ghost function Control(d: uint8): (c: uint8)
    ensures IsControl(d, c)
  {
    ControlExists(d);
    var c: uint8 :| IsControl(d, c);
    c
  }

  lemma ControlBits(d: uint8)
    ensures Proper(GEN) && ByteBits(Control(d)) == Check(GEN, ByteBits(d))
  {
    GeneratorBits();
    assert IsControl(d, Control(d));
  }

  lemma ByteBitsInjective(a: uint8, b: uint8)
    requires ByteBits(a) == ByteBits(b)
    ensures a == b
  {
    FromBitsOfBits(a);
    FromBitsOfBits(b);
  }

  lemma ControlOfXor(a: uint8, b: uint8)
    ensures Control(a ^ b) == Control(a) ^ Control(b)
  {
    ControlBits(a);
    ControlBits(b);
    ControlBits(a ^ b);
    XorByteBits(a, b);
    CheckOfXor(GEN, ByteBits(a), ByteBits(b));
    XorByteBits(Control(a), Control(b));
    ByteBitsInjective(Control(a ^ b), Control(a) ^ Control(b));
  }

  /** Distinct bytes have distinct check bytes. */
  lemma ControlInjective(a: uint8, b: uint8)
    requires Control(a) == Control(b)
    ensures a == b
  {
    GeneratorBits();
    ControlBits(a);
    ControlBits(b);
    CheckIsInjective(GEN, ByteBits(a), ByteBits(b));
    ByteBitsInjective(a, b);
  }

  // The remainder of a received pair.
  lemma SyndromeByte(d: uint8, c: uint8, rem: uint8)
    requires Proper(GEN) && ByteBits(rem) == Rem(GEN, WordBits(Join(d, c)))
    ensures rem == Control(d) ^ c
  {
    assert ByteBits(rem) == Xor(ByteBits(Control(d)), ByteBits(c)) by {
      RemainderOfPair(GEN, d, c);
      ControlBits(d);
    }
    XorByteBits(Control(d), c);
    ByteBitsInjective(rem, Control(d) ^ c);
  }

  lemma RemainderOfPair(g: Word, d: uint8, c: uint8)
    requires Generator(g) && |g| == 9
    ensures Rem(g, WordBits(Join(d, c))) == Xor(Check(g, ByteBits(d)), ByteBits(c))
  {
    JoinBits(d, c);
    SyndromeSplits(g, ByteBits(d), ByteBits(c));
  }

  // ---------- the distance of the code ----------

  function CodeWeight(p: uint16, b: uint8): nat
    requires Degree8(p)
  {
    PolyIsGenerator(p);
    Weight(Encoded(PolyBits(p), ByteBits(b)))
  }

  lemma EncodedHasDistance(b: uint8)
    requires b != 0 && Degree8(P)
    ensures CodeWeight(P, b) >= HD
  {
    GeneratorBits();
    var w := Encoded(GEN, ByteBits(b));
    EncodedIsCodeword(GEN, ByteBits(b));
    if w == Zeros(16) {
      assert ByteBits(b) == w[..8] == Zeros(8);
      ZeroByte(0);
      ByteBitsInjective(b, 0);
    }
    CodeDistance(w);
  }

  // ... and the codeword of the third data bit attains it.
  lemma DistanceIsAttained()
    ensures Degree8(P) && CodeWeight(P, 0x20) == HD
  {
    GeneratorBits();
    ThirdBit();
    assert ByteBits(0x20) == Pick(8, 2);
    RowIs(2);
    ThirdRowWeight();
  }

  lemma ThirdRowWeight()
    ensures Weight(G_TABLE[2]) == 4
  {
    var a, b: Word := [false, false, true, false], [false, false, false, false];
    var c, d: Word := [true, true, false, false], [false, false, false, true];
    assert G_TABLE[2] == (a + b) + (c + d);
    WeightSplits(a + b, c + d);
    WeightSplits(a, b);
    WeightSplits(c, d);
  }

  lemma ThirdBit()
    ensures forall i :: 0 <= i < 8 ==> (ByteBits(0x20)[i] <==> i == 2)
  {
    var x: uint16 := Widen(0x20);
    assert !Bit(8, x) && !Bit(9, x) && Bit(10, x) && !Bit(11, x);
    assert !Bit(12, x) && !Bit(13, x) && !Bit(14, x) && !Bit(15, x);
  }

  lemma HighWord(b: uint8)
    ensures Widen(b) << 8 == Join(b, 0) && LowByte(Join(b, 0)) == 0
    ensures WordBits(Join(b, 0))[..8] == ByteBits(b)
  {
    JoinBits(b, 0);
  }

  // d is the least of K and the weights of the codewords of bytes 1 to i - 1.
  ghost predicate LeastWeight(p: uint16, i: nat, d: nat)
    requires Degree8(p)
  {
    && d <= K && (forall b: uint8 :: 0 < Index(b) < i ==> d <= CodeWeight(p, b))
    && (d == K || exists b: uint8 :: 0 < Index(b) < i && CodeWeight(p, b) == d)
  }

  lemma LeastWeightNext(p: uint16, i: nat, d: nat)
    requires Degree8(p) && 0 < i < 256 && LeastWeight(p, i, d)
    ensures var w := CodeWeight(p, ToByte(i)); LeastWeight(p, i + 1, if w < d then w else d)
  {
    var b0 := ToByte(i);
    ByteIndex(i);
    forall b: uint8 | 0 < Index(b) < i + 1 ensures b == b0 || Index(b) < i {
      if Index(b) == i {
        IndexInjective(b, b0);
      }
    }
  }

  lemma LeastOfAll(p: uint16, d: nat)
    requires Degree8(p) && LeastWeight(p, 256, d)
    ensures forall b: uint8 :: b != 0 ==> d <= CodeWeight(p, b)
    ensures d == K || exists b: uint8 :: b != 0 && CodeWeight(p, b) == d
    ensures p == P ==> d == HD
  {
    forall b: uint8 | b != 0 ensures 0 < Index(b) < 256 {
      IndexBelow(b);
      if Index(b) == 0 {
        IndexInjective(b, 0);
      }
    }
    if p == P {
      DistanceIsAttained();
      if d != K {
        var b: uint8 :| 0 < Index(b) < 256 && CodeWeight(p, b) == d;
        EncodedHasDistance(b);
      }
    }
  }

  lemma SumWeight(p: uint16, b: uint8, m: uint16, w: uint16)
    requires Degree8(p) && m == Widen(b) << 8
    requires Generator(PolyBits(p)) && |PolyBits(p)| == 9
    requires SumVerdict(PolyBits(p), m, Remainder(PolyBits(p), m), w)
    ensures Weight(WordBits(w)) == CodeWeight(p, b)
  {
    HighWord(b);
  }

  /** The search over all data bytes finds the least weight of a codeword, capped at K. */
  method CodeHammingDistance(p: uint16) returns (distance: nat)
    requires Degree8(p)
    ensures distance <= K && forall b: uint8 :: b != 0 ==> distance <= CodeWeight(p, b)
    ensures distance == K || exists b: uint8 :: b != 0 && CodeWeight(p, b) == distance
    ensures p == P ==> distance == HD
  {
    distance := K;
    for i := 1 to 256
      invariant LeastWeight(p, i, distance)
    {
      LeastWeightNext(p, i, distance);
      var word := EncodeLfsr(p, Widen(ToByte(i)) << 8);
      SumWeight(p, ToByte(i), Widen(ToByte(i)) << 8, word);
      var w := WeightOf(word);
      if w < distance {
        distance := w;
      }
    }
    LeastOfAll(p, distance);
  }
}
