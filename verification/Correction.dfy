/**
 The table from syndromes to errors, control bytes, noise, and correction byte by byte over
 messages of any length.
 */
module Correction {
  import opened Counting
  import opened Gf2
  import opened Bits
  import opened CodeErrors
  import opened Messages

  // The check byte as a function of the data byte. What follows needs little of it: that it is
  // linear and injective, and how far apart codewords are.
  type CheckFn = uint8 -> uint8

  ghost predicate Adds(f: CheckFn, a: uint8, b: uint8) {
    f(a ^ b) == f(a) ^ f(b)
  }

  ghost predicate Separates(f: CheckFn, a: uint8, b: uint8) {
    f(a) == f(b) ==> a == b
  }

  ghost predicate Linear(f: CheckFn) {
    && (forall a: uint8, b: uint8 :: Adds(f, a, b))
    && (forall a: uint8, b: uint8 :: Separates(f, a, b))
  }

  function ByteWeight(x: uint8): nat {
    Weight(ByteBits(x))
  }

  // No codeword but zero has fewer than four ones.
  ghost predicate Distance4(f: CheckFn) {
    forall d: uint8 :: d != 0 ==> ByteWeight(d) + ByteWeight(f(d)) >= HD
  }

  ghost function ControlFn(): CheckFn {
    (d: uint8) => Control(d)
  }

  lemma ControlFnAdds(a: uint8, b: uint8)
    ensures Adds(ControlFn(), a, b)
  {
    ControlOfXor(a, b);
  }

  lemma ControlFnSeparates(a: uint8, b: uint8)
    ensures Separates(ControlFn(), a, b)
  {
    if Control(a) == Control(b) {
      ControlInjective(a, b);
    }
  }

  lemma ControlFnIsLinear()
    ensures Linear(ControlFn())
  {
    var f := ControlFn();
    forall a: uint8, b: uint8 ensures Adds(f, a, b) {
      ControlFnAdds(a, b);
    }
    forall a: uint8, b: uint8 ensures Separates(f, a, b) {
      ControlFnSeparates(a, b);
    }
  }

  // An injective function on bytes takes every value.
  function FnIndex(f: CheckFn, e: nat): (i: nat)
    requires e < 256
    ensures i < 256
  {
    IndexBelow(f(ToByte(e)));
    Index(f(ToByte(e)))
  }

  lemma FnIndexInjective(f: CheckFn, i: nat, j: nat)
    requires Linear(f) && i < 256 && j < 256 && FnIndex(f, i) == FnIndex(f, j)
    ensures i == j
  {
    IndexInjective(f(ToByte(i)), f(ToByte(j)));
    assert Separates(f, ToByte(i), ToByte(j));
    ByteIndex(i);
    ByteIndex(j);
  }

  lemma TakesEveryValue(f: CheckFn, x: uint8) returns (e: uint8)
    requires Linear(f)
    ensures f(e) == x
  {
    var all := seq(256, i requires 0 <= i < 256 => FnIndex(f, i));
    forall i, j | 0 <= i < j < 256 ensures all[i] != all[j] {
      if FnIndex(f, i) == FnIndex(f, j) {
        FnIndexInjective(f, i, j);
      }
    }
    IndexBelow(x);
    Pigeonhole(all, Index(x));
    var i :| 0 <= i < 256 && all[i] == Index(x);
    e := ToByte(i);
    IndexInjective(f(e), x);
  }

  lemma ControlFnHasDistance()
    ensures Distance4(ControlFn())
  {
    forall d: uint8 | d != 0 ensures ByteWeight(d) + ByteWeight(ControlFn()(d)) >= HD {
      EncodedHasDistance(d);
      GeneratorBits();
      ControlBits(d);
      WeightSplits(ByteBits(d), ByteBits(Control(d)));
    }
  }

  // ---------- the syndrome table ----------

  function At(s: seq<uint16>, b: uint8): uint16
    requires |s| == NB_SYNDROMES
  {
    IndexBelow(b);
    s[Index(b)]
  }

  // The table sends the check byte of every data pattern back to the pattern.
  ghost predicate Inverts(s: seq<uint16>, f: CheckFn) {
    |s| == NB_SYNDROMES && forall e: uint8 :: At(s, f(e)) == Widen(e)
  }

  // The table after the patterns below e: done for those, all ones for the others.
  ghost predicate Built(s: seq<uint16>, f: CheckFn, e: nat) {
    && |s| == NB_SYNDROMES
    && (forall b: uint8 :: Index(b) < e ==> At(s, f(b)) == Widen(b))
    && (forall b: uint8 :: Index(b) >= e ==> At(s, f(b)) == 255)
  }

  lemma AtUpdated(s: seq<uint16>, x: uint8, v: uint16, y: uint8)
    requires |s| == NB_SYNDROMES && Index(x) < NB_SYNDROMES
    ensures At(s[Index(x) := v], y) == if y == x then v else At(s, y)
  {
    IndexBelow(y);
    if Index(y) == Index(x) {
      IndexInjective(y, x);
    }
  }

  lemma AndOfOnes(e: uint8)
    ensures 255 & Widen(e) == Widen(e)
  {
  }

  lemma BuildStep(s: seq<uint16>, f: CheckFn, e: nat, b0: uint8, s': seq<uint16>)
    requires Linear(f) && Built(s, f, e) && Index(b0) == e < 255 && Index(f(b0)) < NB_SYNDROMES
    requires s' == s[Index(f(b0)) := At(s, f(b0)) & Widen(b0)]
    ensures Built(s', f, e + 1)
  {
    AndOfOnes(b0);
    forall b: uint8 ensures Separates(f, b, b0) && At(s', f(b)) == if b == b0 then Widen(b0) else At(s, f(b)) {
      AtUpdated(s, f(b0), At(s, f(b0)) & Widen(b0), f(b));
    }
    forall b: uint8 | Index(b) == e ensures b == b0 {
      IndexInjective(b, b0);
    }
  }

  // The loop leaves out the pattern of all ones, whose slot still holds all ones.
  lemma BuiltIsInverse(s: seq<uint16>, f: CheckFn)
    requires Built(s, f, 255)
    ensures Inverts(s, f)
  {
    forall e: uint8 ensures At(s, f(e)) == Widen(e) {
      if Index(e) >= 255 {
        LastByte(e);
      }
    }
  }

  lemma LastByte(e: uint8)
    requires Index(e) >= 255
    ensures Widen(e) == 255
  {
    IndexBelow(e);
    IndexInjective(e, 255);
  }

  // The remainder of a pair of bytes.
  method SyndromeOf(d: uint8, c: uint8) returns (syndrome: uint8)
    ensures syndrome == ControlFn()(d) ^ c
  {
    GeneratorBits();
    syndrome := DecodeLfsr(P, Join(d, c));
    SyndromeByte(d, c, syndrome);
  }

  // The remainder of a byte shifted up by C: its check byte.
  method CheckByteOf(d: uint8) returns (c: uint8)
    ensures c == ControlFn()(d)
  {
    GeneratorBits();
    HighWord(d);
    c := DecodeLfsr(P, Widen(d) << 8);
    SyndromeByte(d, 0, c);
    XorZeroByte(Control(d));
  }

  method FillWithOnes(s: array<uint16>)
    requires s.Length == NB_SYNDROMES
    modifies s
    ensures Built(s[..], ControlFn(), 0)
  {
    for i := 0 to NB_SYNDROMES
      invariant forall j :: 0 <= j < i ==> s[j] == 255
    {
      s[i] := 255;
    }
    AllOnesIsBuilt(s[..], ControlFn());
  }

  // Clears the bits of slot x that v lacks.
  method AndInto(s: array<uint16>, x: uint8, v: uint16)
    requires s.Length == NB_SYNDROMES
    modifies s
    ensures Index(x) < NB_SYNDROMES
    ensures s[..] == old(s[..])[Index(x) := At(old(s[..]), x) & v]
  {
    IndexBelow(x);
    s[Index(x)] := s[Index(x)] & v;
  }

  method CreateSyndromeArray(s: array<uint16>)
    requires s.Length == NB_SYNDROMES
    modifies s
    ensures Inverts(s[..], ControlFn())
  {
    FillWithOnes(s);
    ControlFnIsLinear();
    ghost var f := ControlFn();
    for e := 0 to 255
      invariant Built(s[..], f, e)
    {
      ghost var before := s[..];
      ByteIndex(e);
      var syndrome := CheckByteOf(ToByte(e));
      AndInto(s, syndrome, Widen(ToByte(e)));
      BuildStep(before, f, e, ToByte(e), s[..]);
    }
    BuiltIsInverse(s[..], f);
  }

  lemma AllOnesIsBuilt(s: seq<uint16>, f: CheckFn)
    requires |s| == NB_SYNDROMES && forall j :: 0 <= j < NB_SYNDROMES ==> s[j] == 255
    ensures Built(s, f, 0)
  {
    forall b: uint8 ensures At(s, f(b)) == 255 {
      IndexBelow(f(b));
    }
  }

  lemma XorZeroByte(x: uint8)
    ensures x ^ 0 == x
  {
  }

  lemma LowOfWiden(e: uint8)
    ensures LowByte(Widen(e)) == e
  {
  }

  /** The table is also the inverse the other way: each of its entries has that syndrome. */
  lemma InverseBothWays(s: seq<uint16>, f: CheckFn, x: uint8)
    requires Linear(f) && Inverts(s, f)
    ensures f(LowByte(At(s, x))) == x && Widen(LowByte(At(s, x))) == At(s, x)
  {
    var e := TakesEveryValue(f, x);
    LowOfWiden(e);
  }

  // ---------- one byte ----------

  // The byte after correction, and whether it is flagged.
  function CorrectByte(s: seq<uint16>, f: CheckFn, d: uint8, c: uint8): (uint8, bool)
    requires |s| == NB_SYNDROMES
  {
    var err := At(s, f(d) ^ c);
    (d ^ LowByte(err), Weight(WordBits(err)) > 1)
  }

  lemma WidenedWeight(x: uint8)
    ensures Weight(WordBits(Widen(x))) == ByteWeight(x)
  {
    WidenBits(x);
    WeightSplits(Zeros(8), ByteBits(x));
    WeightZero(Zeros(8));
  }

  // With a true inverse, correction adds the pattern of the syndrome.
  lemma CorrectionAddsPattern(s: seq<uint16>, f: CheckFn, d: uint8, c: uint8) returns (e: uint8)
    requires Linear(f) && Inverts(s, f)
    ensures f(e) == f(d) ^ c
    ensures CorrectByte(s, f, d, c) == (d ^ e, ByteWeight(e) > 1)
  {
    e := TakesEveryValue(f, f(d) ^ c);
    LowOfWiden(e);
    WidenedWeight(e);
  }

  lemma XorBytes(a: uint8, b: uint8)
    ensures a ^ (a ^ b) == b && (a ^ b) ^ b == a && a ^ a == 0
  {
  }

  lemma CheckOfZero(f: CheckFn)
    requires Linear(f)
    ensures f(0) == 0
  {
    XorBytes(0, 0);
    assert Adds(f, 0, 0);
    XorBytes(f(0), f(0));
  }

  /** Whatever was received, the corrected byte and the control byte form a codeword. */
  lemma CorrectedIsCodeword(s: seq<uint16>, f: CheckFn, d: uint8, c: uint8)
    requires Linear(f) && Inverts(s, f)
    ensures f(CorrectByte(s, f, d, c).0) == c
  {
    var e := CorrectionAddsPattern(s, f, d, c);
    assert Adds(f, d, e);
    PatternCompletes(f, d, c, e);
  }

  lemma PatternCompletes(f: CheckFn, d: uint8, c: uint8, e: uint8)
    requires Adds(f, d, e) && f(e) == f(d) ^ c
    ensures f(d ^ e) == c
  {
    XorBack(f(d ^ e), f(d), f(e), c);
  }

  lemma XorBack(x: uint8, a: uint8, b: uint8, c: uint8)
    requires x == a ^ b && b == a ^ c
    ensures x == c
  {
  }

  lemma CodewordIsKept(s: seq<uint16>, f: CheckFn, d: uint8)
    requires Linear(f) && Inverts(s, f)
    ensures CorrectByte(s, f, d, f(d)) == (d, false)
  {
    var e := CorrectionAddsPattern(s, f, d, f(d));
    XorBytes(f(d), f(d));
    CheckOfZero(f);
    assert Separates(f, e, 0);
    XorZeroByte(d);
    ZeroWeight();
  }

  lemma ZeroWeight()
    ensures ByteWeight(0) == 0
  {
    ZeroByte(0);
    WeightZero(Zeros(8));
  }

  /** Correction is idempotent: a second pass changes nothing and flags nothing. */
  lemma CorrectionIsIdempotent(s: seq<uint16>, f: CheckFn, d: uint8, c: uint8)
    requires Linear(f) && Inverts(s, f)
    ensures CorrectByte(s, f, CorrectByte(s, f, d, c).0, c) == (CorrectByte(s, f, d, c).0, false)
  {
    CorrectedIsCodeword(s, f, d, c);
    CodewordIsKept(s, f, CorrectByte(s, f, d, c).0);
  }

  /** An error confined to the data byte is undone, whatever its weight. */
  lemma DataErrorIsUndone(s: seq<uint16>, f: CheckFn, d: uint8, ed: uint8)
    requires Linear(f) && Inverts(s, f)
    ensures CorrectByte(s, f, d ^ ed, f(d)).0 == d
  {
    CorrectedIsCodeword(s, f, d ^ ed, f(d));
    assert Separates(f, CorrectByte(s, f, d ^ ed, f(d)).0, d);
  }

  /** Without noise a byte survives correction exactly when it carries its own check byte. */
  lemma KeptIffChecked(s: seq<uint16>, f: CheckFn, d: uint8, c: uint8)
    requires Linear(f) && Inverts(s, f)
    ensures CorrectByte(s, f, d, c).0 == d <==> c == f(d)
  {
    CorrectedIsCodeword(s, f, d, c);
    CodewordIsKept(s, f, d);
  }

  /** A byte whose control byte was never filled in is erased. */
  lemma UncheckedByteIsErased(s: seq<uint16>, f: CheckFn, d: uint8)
    requires Linear(f) && Inverts(s, f)
    ensures CorrectByte(s, f, d, 0).0 == 0
  {
    CorrectedIsCodeword(s, f, d, 0);
    CheckOfZero(f);
    assert Separates(f, CorrectByte(s, f, d, 0).0, 0);
  }

  /** A table of zeros, as it stands when nothing has built it, lets everything through unchanged. */
  lemma UnbuiltTableAcceptsAll(s: seq<uint16>, f: CheckFn, d: uint8, c: uint8)
    requires |s| == NB_SYNDROMES && forall i :: 0 <= i < NB_SYNDROMES ==> s[i] == 0
    ensures CorrectByte(s, f, d, c) == (d, false)
  {
    IndexBelow(f(d) ^ c);
    WidenedWeight(0);
    ZeroWeight();
    LowOfWiden(0);
    XorZeroByte(d);
  }

  lemma WeightOfXorBytes(a: uint8, b: uint8)
    ensures ByteWeight(a ^ b) <= ByteWeight(a) + ByteWeight(b)
  {
    XorByteBits(a, b);
    WeightOfXor(ByteBits(a), ByteBits(b));
  }

  // The pattern found and the error made differ by a codeword.
  lemma PatternExplains(f: CheckFn, d: uint8, ed: uint8, ec: uint8, e: uint8)
    requires Adds(f, d, ed) && f(e) == f(d ^ ed) ^ (f(d) ^ ec)
    ensures f(e) == f(ed) ^ ec
  {
    CancelBytes(f(e), f(d ^ ed), f(d), f(ed), ec);
  }

  lemma DifferenceIsCodeword(f: CheckFn, ed: uint8, ec: uint8, e: uint8)
    requires Adds(f, ed, e) && f(e) == f(ed) ^ ec
    ensures f(e ^ ed) == ec
  {
    XorCommutes(e, ed);
    XorBack(f(ed ^ e), f(ed), f(e), ec);
  }

  lemma XorCommutes(a: uint8, b: uint8)
    ensures a ^ b == b ^ a
  {
  }

  lemma CancelBytes(x: uint8, y: uint8, a: uint8, b: uint8, c: uint8)
    requires x == y ^ (a ^ c) && y == a ^ b
    ensures x == b ^ c
  {
  }

  // The verdict on the pattern found, for an error of at most two bits.
  lemma PatternVerdict(f: CheckFn, ed: uint8, ec: uint8, e: uint8)
    requires Linear(f) && Distance4(f) && ByteWeight(ed) + ByteWeight(ec) <= 2
    requires f(e) == f(ed) ^ ec
    ensures ByteWeight(e) <= 1 <==> ec == 0 && ByteWeight(ed) <= 1
    ensures ByteWeight(e) <= 1 ==> e == ed
  {
    if ec == 0 {
      XorZeroByte(f(ed));
      assert Separates(f, e, ed);
    } else {
      assert Adds(f, ed, e);
      DifferenceIsCodeword(f, ed, ec, e);
      CheckOfZero(f);
      WeightOfXorBytes(e, ed);
    }
  }

  /** With at most two flipped bits in a pair, a byte is passed as good exactly when no check bit
      and at most one data bit was flipped, and then it is the byte that was sent. */
  lemma VerdictOnByte(s: seq<uint16>, f: CheckFn, d: uint8, ed: uint8, ec: uint8, r: (uint8, bool))
    requires Linear(f) && Distance4(f) && Inverts(s, f) && ByteWeight(ed) + ByteWeight(ec) <= 2
    requires r == CorrectByte(s, f, d ^ ed, f(d) ^ ec)
    ensures !r.1 <==> ec == 0 && ByteWeight(ed) <= 1
    ensures !r.1 ==> r.0 == d
  {
    var e := CorrectionAddsPattern(s, f, d ^ ed, f(d) ^ ec);
    assert Adds(f, d, ed);
    PatternExplains(f, d, ed, ec, e);
    PatternVerdict(f, ed, ec, e);
    XorBytes(d, ed);
  }

  lemma SumHasCheck(f: CheckFn, a: uint8, x: uint8, c: uint8, y: uint8)
    requires Adds(f, a, x) && f(x) == c && y == a ^ x
    ensures f(y) == f(a) ^ c
  {
  }

  lemma SameCheck(f: CheckFn, a: uint8, b: uint8)
    requires Linear(f) && f(a) == f(b)
    ensures a == b
  {
    assert Separates(f, a, b);
  }

  lemma LinearAdds(f: CheckFn, a: uint8, b: uint8)
    requires Linear(f)
    ensures Adds(f, a, b)
  {
  }

  // The pattern found, when x is the data of the codeword whose control byte is the noise ec.
  lemma PatternIs(f: CheckFn, d: uint8, ed: uint8, ec: uint8, e: uint8, x: uint8, y: uint8)
    requires Linear(f) && f(e) == f(d ^ ed) ^ (f(d) ^ ec) && f(x) == ec && y == ed ^ x
    ensures e == y
  {
    assert f(e) == f(ed) ^ ec by {
      LinearAdds(f, d, ed);
      PatternExplains(f, d, ed, ec, e);
    }
    assert f(y) == f(ed) ^ ec by {
      LinearAdds(f, ed, x);
      SumHasCheck(f, ed, x, ec, y);
    }
    SameCheck(f, e, y);
  }

  lemma ZeroOnlyOfZero(f: CheckFn, x: uint8)
    requires Linear(f)
    ensures f(x) == 0 <==> x == 0
  {
    CheckOfZero(f);
    assert Separates(f, x, 0);
  }

  /** Whatever the noise: a byte comes out with the data of the codeword of its control byte's noise
      added, and is passed as good exactly when the noise of the data is within one bit of it. */
  lemma NoiseVerdict(s: seq<uint16>, f: CheckFn, d: uint8, ed: uint8, ec: uint8, r: (uint8, bool)) returns (x: uint8)
    requires Linear(f) && Inverts(s, f) && r == CorrectByte(s, f, d ^ ed, f(d) ^ ec)
    ensures f(x) == ec && r == (d ^ x, ByteWeight(ed ^ x) > 1)
  {
    x := TakesEveryValue(f, ec);
    var e := CorrectionAddsPattern(s, f, d ^ ed, f(d) ^ ec);
    PatternIs(f, d, ed, ec, e, x, ed ^ x);
    SameXor(d, ed, x);
  }

  lemma SameXor(d: uint8, a: uint8, b: uint8)
    ensures (d ^ a) ^ (a ^ b) == d ^ b
  {
  }

  // The byte passed is not the one sent.
  ghost predicate PassesWrong(s: seq<uint16>, f: CheckFn, d: uint8, ed: uint8, ec: uint8)
    requires |s| == NB_SYNDROMES
  {
    var r := CorrectByte(s, f, d ^ ed, f(d) ^ ec);
    !r.1 && r.0 != d
  }

  // The data of the codeword with control byte ec is within one bit of ed.
  ghost predicate NearCodeword(f: CheckFn, ed: uint8, ec: uint8) {
    exists x: uint8 :: f(x) == ec && ByteWeight(ed ^ x) <= 1
  }

  lemma NearIff(f: CheckFn, ed: uint8, ec: uint8, x: uint8)
    requires Linear(f) && f(x) == ec
    ensures NearCodeword(f, ed, ec) <==> ByteWeight(ed ^ x) <= 1
  {
    if NearCodeword(f, ed, ec) {
      var y: uint8 :| f(y) == ec && ByteWeight(ed ^ y) <= 1;
      assert Separates(f, y, x);
    }
  }

  /** Exactly when a wrong byte is passed as good: when some control bit was flipped and the noise of
      the data is within one bit of the data of the codeword with those control bits. */
  lemma PassesWrongIff(s: seq<uint16>, f: CheckFn, d: uint8, ed: uint8, ec: uint8)
    requires Linear(f) && Inverts(s, f)
    ensures PassesWrong(s, f, d, ed, ec) <==> ec != 0 && NearCodeword(f, ed, ec)
    ensures !CorrectByte(s, f, d ^ ed, f(d) ^ ec).1 <==> NearCodeword(f, ed, ec)
  {
    var x := NoiseVerdict(s, f, d, ed, ec, CorrectByte(s, f, d ^ ed, f(d) ^ ec));
    XorSame(d, x);
    ZeroOnlyOfZero(f, x);
    NearIff(f, ed, ec, x);
  }

  lemma NoiseShown(s: seq<uint16>, f: CheckFn, d: uint8, ed: uint8, ec: uint8, r: (uint8, bool))
    requires Linear(f) && Inverts(s, f) && r == CorrectByte(s, f, d ^ ed, f(d) ^ ec)
    ensures !r.1 <==> NearCodeword(f, ed, ec)
    ensures !r.1 ==> (r.0 != d <==> ec != 0)
  {
    PassesWrongIff(s, f, d, ed, ec);
  }

  lemma XorSame(d: uint8, x: uint8)
    ensures d ^ x == d <==> x == 0
  {
  }

  // A byte with one bit set in a codeword of four ones.
  lemma ThreeInControl(b: uint8)
    requires b == 0x20
    ensures ByteWeight(b) == 1 && ByteWeight(Control(b)) == 3 && Control(b) != 0
  {
    DistanceIsAttained();
    GeneratorBits();
    ControlBits(b);
    WeightSplits(ByteBits(b), ByteBits(Control(b)));
    ThirdBitWeight(ByteBits(b));
    if Control(b) == 0 {
      ZeroWeight();
    }
  }

  lemma ThirdBitWeight(w: Word)
    requires |w| == 8 && w == ByteBits(0x20)
    ensures Weight(w) == 1
  {
    ThirdBit();
    var a, b: Word := [false, false, true, false], [false, false, false, false];
    assert w == a + b;
    WeightSplits(a, b);
  }

  /** Three flips are not always detected: those in the control byte of 0x20 pass a wrong byte. */
  lemma ThreeFlipsPass(s: seq<uint16>, d: uint8, b: uint8)
    requires Inverts(s, ControlFn()) && b == 0x20
    ensures ByteWeight(0) + ByteWeight(Control(b)) == 3 && PassesWrong(s, ControlFn(), d, 0, Control(b))
  {
    ControlFnIsLinear();
    ThreeInControl(b);
    ZeroWeight();
    ZeroXor(b);
    var f := ControlFn();
    assert f(b) == Control(b);
    NearIff(f, 0, Control(b), b);
    PassesWrongIff(s, f, d, 0, Control(b));
  }

  lemma ZeroXor(x: uint8)
    ensures 0 ^ x == x
  {
  }

  lemma TwoBitsAreFar(f: CheckFn, data: uint8)
    requires Linear(f) && ByteWeight(data) == 2
    ensures !NearCodeword(f, data, 0)
  {
    CheckOfZero(f);
    NearIff(f, data, 0, 0);
    XorZeroByte(data);
  }

  lemma LastTwoBits(b: uint8)
    requires b == 3
    ensures ByteWeight(b) == 2
  {
    var lo, hi: Word := [false, false, true, true], [false, false, false, false];
    var x: uint16 := Widen(b);
    assert !Bit(8, x) && !Bit(9, x) && !Bit(10, x) && !Bit(11, x);
    assert !Bit(12, x) && !Bit(13, x) && Bit(14, x) && Bit(15, x);
    assert ByteBits(b) == hi + lo;
    WeightSplits(hi, lo);
  }

  // The steps of the correction of one byte.
  lemma CorrectionSteps(s: seq<uint16>, f: CheckFn, d: uint8, c: uint8, syndrome: uint8, err: uint16, w: nat)
    requires |s| == NB_SYNDROMES && syndrome == f(d) ^ c && err == At(s, syndrome) && w == Weight(WordBits(err))
    ensures CorrectByte(s, f, d, c) == (d ^ LowByte(err), w > 1)
  {
  }
}
