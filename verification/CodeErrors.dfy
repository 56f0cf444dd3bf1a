/**
 The code the program uses: eight data bits, eight check bits, one generator. Shift-register
 and matrix coding of 16-bit words, the tables, and the distance of the code.
 */
module CodeErrors {
  import opened Gf2
  import opened Bits
  import opened CyclicCode
  import opened MatrixCode

  const K: nat := 8
  const C: nat := 8
  const N: nat := 16
  const HD: nat := 4

  // X^8 + X^7 + X^5 + X^4 + X^3 + 1
  const P: uint16 := 0x1b9

  function RowOf(s: string): (w: Word)
    ensures |w| == |s| && forall i :: 0 <= i < |s| ==> w[i] == (s[i] == '1')
  {
    seq(|s|, i requires 0 <= i < |s| => s[i] == '1')
  }

  const G_TABLE: Matrix := [
    RowOf("1000000001110110"),
    RowOf("0100000000111011"),
    RowOf("0010000011000001"),
    RowOf("0001000010111100"),
    RowOf("0000100001011110"),
    RowOf("0000010000101111"),
    RowOf("0000001011001011"),
    RowOf("0000000110111001")
  ]

  const H_TABLE: Matrix := [
    RowOf("0011001110000000"),
    RowOf("1010101001000000"),
    RowOf("1101010100100000"),
    RowOf("1101100100010000"),
    RowOf("0101111100001000"),
    RowOf("1001110000000100"),
    RowOf("1100111000000010"),
    RowOf("0110011100000001")
  ]

  // A polynomial of degree 8 in a word: its leading bit is bit 8.
  predicate Degree8(p: uint16) {
    p >> 8 == 1
  }

  function PolyBits(p: uint16): (g: Word)
    ensures |g| == 9
  {
    WordBits(p)[7..]
  }

  lemma PolyIsGenerator(p: uint16)
    requires Degree8(p)
    ensures Generator(PolyBits(p))
  {
    assert Bit(7, p);
    assert WordBits(p)[7];
  }

  // ---------- the shift register ----------

  // The generator with its leading bit over bit i of a word of n bits.
  function Aligned(g: Word, i: nat, n: nat): (w: Word)
    ensures |w| == n
  {
    seq(n, j requires 0 <= j < n => i <= j < i + |g| && g[j - i])
  }

  lemma AlignNext(g: Word, i: nat, n: nat)
    ensures ShiftDown(Aligned(g, i, n)) == Aligned(g, i + 1, n)
  {
  }

  // The register after i steps: its first i bits are clear, the rest has the same remainder.
  ghost predicate Reduced(g: Word, m: Word, i: nat, r: Word)
    requires Generator(g)
  {
    i <= |r| && r[..i] == Zeros(i) && Rem(g, r[i..]) == Rem(g, m)
  }

  lemma ClearBit(g: Word, i: nat, r: Word)
    requires Generator(g) && i + |g| <= |r| && r[..i] == Zeros(i) && r[i]
    ensures var r' := Xor(r, Aligned(g, i, |r|));
      r'[..i + 1] == Zeros(i + 1) && r'[i + 1..] == Step(g, r[i..])
  {
    var r', w := Xor(r, Aligned(g, i, |r|)), r[i..];
    forall j | 0 <= j < |r| - i - 1 ensures r'[i + 1..][j] == Step(g, w)[j] {
      StepAt(g, w, j);
    }
    forall j | 0 <= j < i ensures !r'[j] {
      assert r[j] == r[..i][j];
    }
  }

  lemma SkipBit(g: Word, i: nat, r: Word)
    requires Generator(g) && i + |g| <= |r| && r[..i] == Zeros(i) && !r[i]
    ensures r[..i + 1] == Zeros(i + 1) && r[i + 1..] == Step(g, r[i..])
  {
    assert r[..i + 1] == r[..i] + [r[i]];
  }

  lemma RegisterStep(g: Word, m: Word, i: nat, r: Word)
    requires Generator(g) && i + |g| <= |r| && Reduced(g, m, i, r)
    ensures Reduced(g, m, i + 1, if r[i] then Xor(r, Aligned(g, i, |r|)) else r)
  {
    assert Rem(g, r[i..]) == Rem(g, Step(g, r[i..]));
    if r[i] {
      ClearBit(g, i, r);
    } else {
      SkipBit(g, i, r);
    }
  }

  // The remainder of a word modulo a polynomial of degree 8.
  method DecodeLfsr(p: uint16, m: uint16) returns (rem: uint8)
    requires Degree8(p)
    ensures Generator(PolyBits(p)) && ByteBits(rem) == Rem(PolyBits(p), WordBits(m))
  {
    PolyIsGenerator(p);
    ghost var g := PolyBits(p);
    var r := m;
    var q := p << 7;
    assert WordBits(q) == Aligned(g, 0, 16) by {
      AlignBits(p);
    }
    assert WordBits(m)[0..] == WordBits(m);
    for i := 0 to C
      invariant WordBits(q) == Aligned(g, i, 16) && Reduced(g, WordBits(m), i, WordBits(r))
    {
      RegisterStep(g, WordBits(m), i, WordBits(r));
      XorBits(r, q);
      if GetNthBit(i, r) == 1 {
        r := r ^ q;
      }
      ShiftBits(q);
      AlignNext(g, i, 16);
      q := q >> 1;
    }
    LowByteBits(r);
    return LowByte(r);
  }

  // Addition is not xor: the sum of m and its remainder is the codeword of the data byte of m exactly
  // when the remainder meets no set bit of m.
  ghost predicate SumVerdict(g: Word, m: uint16, rem: uint8, w: uint16)
    requires Generator(g) && |g| == 9
  {
    && w == m + Widen(rem)
    && (WordBits(w) == Encoded(g, WordBits(m)[..8]) <==> m & Widen(rem) == 0)
    && (LowByte(m) == 0 ==> WordBits(w) == Encoded(g, WordBits(m)[..8]))
  }

  // The remainder of a word by g, as a byte.
  function Remainder(g: Word, m: uint16): uint8
    requires Generator(g) && |g| == 9
  {
    FromBits(Rem(g, WordBits(m)))
  }

  method EncodeLfsr(p: uint16, m: uint16) returns (w: uint16)
    requires Degree8(p)
    ensures Generator(PolyBits(p)) && |PolyBits(p)| == 9
    ensures SumVerdict(PolyBits(p), m, Remainder(PolyBits(p), m), w)
  {
    var rem := DecodeLfsr(p, m);
    w := m + Widen(rem);
    FromBitsOfBits(rem);
    SumOf(PolyBits(p), m, rem, w);
  }

  lemma SumOf(g: Word, m: uint16, rem: uint8, w: uint16)
    requires Generator(g) && |g| == 9 && ByteBits(rem) == Rem(g, WordBits(m)) && w == m + Widen(rem)
    ensures SumVerdict(g, m, rem, w)
  {
    SumIsCodeword(g, m, rem);
    NoOverlap(m, rem);
  }

  lemma SumIsXor(m: uint16, r: uint8)
    ensures m + Widen(r) == m ^ Widen(r) <==> m & Widen(r) == 0
  {
  }

  lemma NoOverlap(m: uint16, r: uint8)
    ensures LowByte(m) == 0 ==> m & Widen(r) == 0
  {
  }

  lemma WordBitsInjective(a: uint16, b: uint16)
    requires WordBits(a) == WordBits(b)
    ensures a == b
  {
    SplitWord(a);
    SplitWord(b);
    assert ByteBits(LowByte(a)) == ByteBits(LowByte(b)) by {
      LowByteBits(a);
      LowByteBits(b);
    }
    FromBitsOfBits(LowByte(a));
    FromBitsOfBits(LowByte(b));
    FromBitsOfBits(HighByte(a));
    FromBitsOfBits(HighByte(b));
    JoinBits(HighByte(a), LowByte(a));
    JoinBits(HighByte(b), LowByte(b));
    assert ByteBits(HighByte(a)) == WordBits(a)[..8] == WordBits(b)[..8] == ByteBits(HighByte(b));
  }

  function HighByte(m: uint16): uint8 {
    LowByte(m >> 8)
  }

  lemma SplitWord(m: uint16)
    ensures m == Join(HighByte(m), LowByte(m))
  {
  }

  lemma WidenBits(x: uint8)
    ensures WordBits(Widen(x)) == Zeros(8) + ByteBits(x)
  {
    ZeroByte(x);
    JoinBits(0, x);
  }

  // A remainder added to the low end of its word completes the data to a codeword.
  lemma RemainderCompletes(g: Word, u: Word, p: Word)
    requires Generator(g) && |p| == Degree(g)
    ensures Xor(u + p, Zeros(|u|) + Rem(g, u + p)) == Encoded(g, u)
  {
    var r := Rem(g, u + p);
    assert r == Xor(Check(g, u), p) by {
      SyndromeSplits(g, u, p);
    }
    XorSplits(u, p, Zeros(|u|), r);
    XorZeros(u);
    UndoXor(Check(g, u), p);
  }

  // Adding the remainder by xor always gives the codeword of the data byte.
  lemma XorIsCodeword(g: Word, m: uint16, rem: uint8)
    requires Generator(g) && |g| == 9 && ByteBits(rem) == Rem(g, WordBits(m))
    ensures WordBits(m ^ Widen(rem)) == Encoded(g, WordBits(m)[..8])
  {
    var w := WordBits(m);
    XorBits(m, Widen(rem));
    WidenBits(rem);
    assert w == w[..8] + w[8..];
    RemainderCompletes(g, w[..8], w[8..]);
  }

  lemma UndoXor(a: Word, b: Word)
    requires |a| == |b|
    ensures Xor(b, Xor(a, b)) == a
  {
  }

  lemma ZeroByte(c: uint8)
    ensures Join(0, c) == Widen(c) && ByteBits(0) == Zeros(8)
  {
    forall i | 0 <= i < 8 ensures !ByteBits(0)[i] {
      ZeroBit(i + 8);
    }
  }

  lemma ZeroBit(n: nat)
    requires n < 16
    ensures !Bit(n, Widen(0))
  {
  }

  lemma SumIsCodeword(g: Word, m: uint16, rem: uint8)
    requires Generator(g) && |g| == 9 && ByteBits(rem) == Rem(g, WordBits(m))
    ensures WordBits(m + Widen(rem)) == Encoded(g, WordBits(m)[..8]) <==> m & Widen(rem) == 0
  {
    XorIsCodeword(g, m, rem);
    SumIsXor(m, rem);
    if WordBits(m + Widen(rem)) == WordBits(m ^ Widen(rem)) {
      WordBitsInjective(m + Widen(rem), m ^ Widen(rem));
    }
  }

  // ---------- the generator ----------

  const GEN: Word := RowOf("110111001")

  // x^0 to x^15 modulo the generator.
  const POWERS: seq<Word> := [
    RowOf("00000001"),
    RowOf("00000010"),
    RowOf("00000100"),
    RowOf("00001000"),
    RowOf("00010000"),
    RowOf("00100000"),
    RowOf("01000000"),
    RowOf("10000000"),
    RowOf("10111001"),
    RowOf("11001011"),
    RowOf("00101111"),
    RowOf("01011110"),
    RowOf("10111100"),
    RowOf("11000001"),
    RowOf("00111011"),
    RowOf("01110110")
  ]

  lemma GeneratorBits()
    ensures Degree8(P) && PolyBits(P) == GEN && Proper(GEN) && Degree(GEN) == 8
  {
    assert Bit(7, P) && Bit(8, P) && !Bit(9, P) && Bit(10, P) && Bit(11, P) && Bit(12, P);
    assert !Bit(13, P) && !Bit(14, P) && Bit(15, P);
  }

  lemma OneAsPair(m: uint16)
    requires m == 1
    ensures m == Join(0, 1) && WordBits(m) == ByteBits(0) + ByteBits(1)
  {
    JoinBits(0, 1);
  }

  /** Adding for exclusive or shows on the word 1: its remainder is 1, and the sum, 2, is not the word
      of the code that its data starts. */
  lemma SumMissesCodeword(m: uint16, rem: uint8)
    requires m == 1 && Proper(GEN) && Degree(GEN) == 8 && ByteBits(rem) == Rem(GEN, WordBits(m))
    ensures rem == 1 && WordBits(m + Widen(rem)) != Encoded(GEN, WordBits(m)[..8])
  {
    OneAsPair(m);
    ZeroByte(0);
    RemOfLeadingZeros(GEN, 8, ByteBits(1));
    assert ByteBits(rem) == ByteBits(1);
    FromBitsOfBits(rem);
    FromBitsOfBits(1);
    SumIsCodeword(GEN, m, rem);
  }

  lemma PowerStep(j: nat)
    requires j < 15 && Proper(GEN)
    ensures MulX(GEN, POWERS[j]) == POWERS[j + 1]
  {
    var r, r' := POWERS[j], POWERS[j + 1];
    forall i | 0 <= i < 8 ensures MulX(GEN, r)[i] == r'[i] {
      MulXAt(GEN, r, i);
    }
  }

  lemma {:induction false} PowersAre(j: nat)
    requires j < 16 && Proper(GEN)
    ensures PowerMod(GEN, j) == POWERS[j]
  {
    if j == 0 {
      assert Unit(8, 0) == POWERS[0];
    } else {
      PowersAre(j - 1);
      PowerStep(j - 1);
    }
  }

  lemma PowersDiffer(j: nat)
    requires 0 < j < 16
    ensures POWERS[j] != POWERS[0]
  {
    var r := POWERS[j];
    assert r[0] || r[1] || r[2] || r[3] || r[4] || r[5] || r[6];
  }

  lemma GeneratorIsGood()
    ensures Proper(GEN) && !Parity(GEN) && OrderAtLeast(GEN, N)
  {
    GeneratorBits();
    assert !Parity(GEN) by {
      assert GEN == [true, true, false, true, true] + [true, false, false, true];
      ParitySplits([true, true, false, true, true], [true, false, false, true]);
    }
    forall j | 0 < j < 16 ensures PowerMod(GEN, j) != PowerMod(GEN, 0) {
      PowersAre(j);
      PowersAre(0);
      PowersDiffer(j);
    }
  }

  /** The literal generator gives a code of distance at least HD ... */
  lemma CodeDistance(w: Word)
    requires |w| == N && Codeword(GEN, w) && w != Zeros(N)
    ensures Weight(w) >= HD
  {
    GeneratorIsGood();
    WeightAtLeastFour(GEN, w);
  }

  // ---------- the tables ----------

  lemma RowIs(i: nat)
    requires i < 8 && Proper(GEN)
    ensures G_TABLE[i] == Encoded(GEN, Pick(8, i))
  {
    var e := Pick(8, i);
    assert e + Zeros(8) == Unit(16, 15 - i);
    RemOfUnit(GEN, 16, 15 - i);
    PowersAre(15 - i);
    RowBits(i);
    assert G_TABLE[i] == e + POWERS[15 - i];
  }

  lemma RowBits(i: nat)
    requires i < 8
    ensures |G_TABLE[i]| == 16 && G_TABLE[i][..8] == Pick(8, i) && G_TABLE[i][8..] == POWERS[15 - i]
  {
    if i == 0 {} else if i == 1 {} else if i == 2 {} else if i == 3 {}
    else if i == 4 {} else if i == 5 {} else if i == 6 {} else { assert i == 7; }
  }

  lemma CheckRowIs(i: nat)
    requires i < 8 && Rectangular(G_TABLE, 8, 16)
    ensures H_TABLE[i] == CheckRow(G_TABLE, 8, 16, i)
  {
    if i == 0 {} else if i == 1 {} else if i == 2 {} else if i == 3 {}
    else if i == 4 {} else if i == 5 {} else if i == 6 {} else { assert i == 7; }
  }

  /** The two literal tables are the generator and check matrices of the generator. */
  lemma TablesAreRight()
    ensures Proper(GEN) && RowsFrom(G_TABLE, GEN, K) && Systematic(G_TABLE, K, N)
    ensures H_TABLE == CheckMatrix(G_TABLE, K, N)
  {
    GeneratorBits();
    forall i | 0 <= i < 8 ensures G_TABLE[i] == Encoded(GEN, Pick(8, i)) {
      RowIs(i);
    }
    RowsAreSystematic(G_TABLE, GEN, 8);
    forall i | 0 <= i < 8 ensures H_TABLE[i] == CheckRow(G_TABLE, 8, 16, i) {
      CheckRowIs(i);
    }
  }

  /** Decoding with the check table is decoding with the register. */
  lemma TableDecodesAsRegister(m: uint16)
    ensures Proper(GEN) && Rectangular(H_TABLE, C, N) && Syndrome(H_TABLE, WordBits(m)) == Rem(GEN, WordBits(m))
  {
    TablesAreRight();
    SyndromeIsRemainder(G_TABLE, GEN, K, WordBits(m));
  }

  /** Encoding with the generator table is encoding with the register, on words whose check
      bits are zeros. */
  lemma TableEncodesAsRegister(m: uint16)
    requires LowByte(m) == 0
    ensures Proper(GEN) && Rectangular(G_TABLE, K, N)
    ensures MatrixCode.Encode(G_TABLE, K, WordBits(m)) == Encoded(GEN, WordBits(m)[..8])
  {
    TablesAreRight();
    assert WordBits(m)[8..] == Zeros(8) by {
      LowByteBits(m);
      ZeroByte(0);
    }
    EncodeIsRegister(G_TABLE, GEN, K, WordBits(m));
  }

  // ---------- the matrix routines ----------

  // The word with its first j bits encoded.
  function Mixed(e: Word, w: Word, j: nat): (v: Word)
    requires |e| == |w|
    ensures |v| == |e| && forall i :: 0 <= i < |v| ==> v[i] == if i < j then e[i] else w[i]
  {
    seq(|e|, i requires 0 <= i < |e| => if i < j then e[i] else w[i])
  }

  lemma MixedStep(g: Matrix, w: Word, j: nat)
    requires |w| == N && Rectangular(g, K, N) && K <= j < N
    ensures var e := MatrixCode.Encode(g, K, w);
      && ColumnDot(g, j, Mixed(e, w, j), K) == ColumnDot(g, j, w, K)
      && Mixed(e, w, j + 1) == if ColumnDot(g, j, w, K) then Mixed(e, w, j)[j := true] else Mixed(e, w, j)
  {
    var e := MatrixCode.Encode(g, K, w);
    ColumnDotPrefix(g, j, Mixed(e, w, j), w, K);
  }

  // Sets every check bit whose parity against its column of the matrix is odd.
  method Encode(g: Matrix, m0: uint16) returns (m: uint16)
    requires Rectangular(g, K, N)
    ensures WordBits(m) == MatrixCode.Encode(g, K, WordBits(m0))
  {
    ghost var w, e := WordBits(m0), MatrixCode.Encode(g, K, WordBits(m0));
    m := m0;
    assert Mixed(e, w, K) == w;
    for j := K to N
      invariant WordBits(m) == Mixed(e, w, j)
    {
      MixedStep(g, w, j);
      SetBits(j, m);
      var parity := false;
      for i := 0 to K
        invariant parity == ColumnDot(g, j, WordBits(m), i)
      {
        parity := parity != (g[i][j] && Bit(i, m));
      }
      if parity {
        m := SetNthBit(j, m);
      }
    }
    assert Mixed(e, w, N) == e;
  }

  // The parity of the word against every row of the check matrix.
  method Decode(h: Matrix, m: uint16) returns (syndrome: uint8)
    requires Rectangular(h, C, N)
    ensures ByteBits(syndrome) == Syndrome(h, WordBits(m))
  {
    ghost var w, s := WordBits(m), Syndrome(h, WordBits(m));
    syndrome := 0;
    ZeroByte(0);
    for i := 0 to C
      invariant ByteBits(syndrome) == s[..i] + Zeros(8 - i)
    {
      var parity := false;
      for j := 0 to N
        invariant parity == Dot(h[i], w, j)
      {
        parity := parity != (h[i][j] && Bit(j, m));
      }
      SetByteBit(i, syndrome);
      if parity {
        syndrome := LowByte(SetNthBit(i + C, Widen(syndrome)));
      }
      assert s[..i + 1] + Zeros(8 - (i + 1)) == (s[..i] + Zeros(8 - i))[i := s[i]];
    }
    assert s[..8] + Zeros(0) == s;
  }

  lemma SetByteBit(i: nat, x: uint8)
    requires i < 8
    ensures ByteBits(LowByte(SetNthBit(i + 8, Widen(x)))) == ByteBits(x)[i := true]
  {
    SetBits(i + 8, Widen(x));
    LowByteBits(SetNthBit(i + 8, Widen(x)));
  }

  // The rows of a two-dimensional array.
  ghost function Rows(a: array2<bool>): (m: Matrix)
    reads a
    ensures Rectangular(m, a.Length0, a.Length1)
    ensures forall i, j :: 0 <= i < a.Length0 && 0 <= j < a.Length1 ==> m[i][j] == a[i, j]
  {
    seq(a.Length0, i requires 0 <= i < a.Length0 reads a =>
      seq(a.Length1, j requires 0 <= j < a.Length1 reads a => a[i, j]))
  }

  // The columns of the block of g beside the identity.
  method CreateCheckMatrix(g: Matrix, h: array2<bool>)
    requires Rectangular(g, K, N) && h.Length0 == C && h.Length1 == N
    modifies h
    ensures Rows(h) == CheckMatrix(g, K, N)
  {
    for i := 0 to C
      invariant forall a, b :: 0 <= a < i && 0 <= b < N ==> h[a, b] == CheckRow(g, K, N, a)[b]
    {
      for j := 0 to K
        invariant forall a, b :: 0 <= a < i && 0 <= b < N ==> h[a, b] == CheckRow(g, K, N, a)[b]
        invariant forall b :: 0 <= b < j ==> h[i, b] == CheckRow(g, K, N, i)[b]
      {
        h[i, j] := g[j][i + K];
      }
      for j := 0 to C
        invariant forall a, b :: 0 <= a < i && 0 <= b < N ==> h[a, b] == CheckRow(g, K, N, a)[b]
        invariant forall b :: 0 <= b < K + j ==> h[i, b] == CheckRow(g, K, N, i)[b]
      {
        h[i, j + K] := i == j;
      }
    }
    forall a | 0 <= a < C ensures Rows(h)[a] == CheckMatrix(g, K, N)[a] {
      assert Rows(h)[a] == CheckRow(g, K, N, a);
    }
  }
}
