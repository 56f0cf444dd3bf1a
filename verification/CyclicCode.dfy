/**
 The cyclic code of a generator: its words are the multiples of the generator, its check
 bits are remainders. Distance, and what a syndrome tells about an error.
 */
module CyclicCode {
  import opened Gf2

  // The word of x^j.
  function Unit(n: nat, j: nat): (w: Word)
    requires j < n
    ensures |w| == n && forall i :: 0 <= i < n ==> (w[i] <==> i == n - 1 - j)
  {
    seq(n, i => i == n - 1 - j)
  }

  // A generator of positive degree whose constant term is 1.
  predicate Proper(g: Word) {
    Generator(g) && |g| >= 2 && g[|g| - 1]
  }

  function Degree(g: Word): nat
    requires Generator(g)
  {
    |g| - 1
  }

  // Multiplication by x modulo the generator.
  function MulX(g: Word, r: Word): (r': Word)
    requires Proper(g) && |r| == Degree(g)
    ensures |r'| == |r|
  {
    Step(g, r + [false])
  }

  // x^j modulo the generator.
  function PowerMod(g: Word, j: nat): (r: Word)
    requires Proper(g)
    ensures |r| == Degree(g)
  {
    if j == 0 then Unit(Degree(g), 0) else MulX(g, PowerMod(g, j - 1))
  }

  // x has order at least n modulo the generator.
  ghost predicate OrderAtLeast(g: Word, n: nat)
    requires Proper(g)
  {
    forall j :: 0 < j < n ==> PowerMod(g, j) != PowerMod(g, 0)
  }

  ghost predicate Codeword(g: Word, w: Word)
    requires Generator(g)
  {
    |w| >= Degree(g) && Rem(g, w) == Zeros(Degree(g))
  }

  lemma RemOfShift(g: Word, w: Word)
    requires Proper(g) && |w| >= Degree(g)
    ensures Rem(g, w + [false]) == MulX(g, Rem(g, w))
  {
    RemOfPrefix(g, w, [false]);
  }

  lemma RemOfOne(g: Word, n: nat)
    requires Proper(g) && n > Degree(g)
    ensures Rem(g, Unit(n, 0)) == Unit(Degree(g), 0)
  {
    var c := Degree(g);
    assert Unit(n, 0) == Zeros(n - c) + Unit(c, 0);
    RemOfLeadingZeros(g, n - c, Unit(c, 0));
  }

  lemma RemOfNextUnit(g: Word, n: nat, j: nat)
    requires Proper(g) && j + 1 < n && n > Degree(g)
    ensures Rem(g, Unit(n, j + 1)) == MulX(g, Rem(g, Unit(n, j)))
  {
    var u := Unit(n - 1, j);
    assert Unit(n, j) == Zeros(1) + u;
    RemOfLeadingZeros(g, 1, u);
    assert Unit(n, j + 1) == u + [false];
    RemOfShift(g, u);
  }

  lemma {:induction false} RemOfUnit(g: Word, n: nat, j: nat)
    requires Proper(g) && j < n && n > Degree(g)
    ensures Rem(g, Unit(n, j)) == PowerMod(g, j)
    decreases j
  {
    if j == 0 {
      RemOfOne(g, n);
    } else {
      RemOfUnit(g, n, j - 1);
      RemOfNextUnit(g, n, j - 1);
    }
  }

  // ---------- multiplication by x can be undone ----------

  lemma MulXAt(g: Word, r: Word, i: nat)
    requires Proper(g) && |r| == Degree(g) && i < |r|
    ensures MulX(g, r)[i] == (if i + 1 < |r| then r[i + 1] != (r[0] && g[i + 1]) else r[0])
  {
    StepAt(g, r + [false], i);
  }

  lemma MulXInjective(g: Word, a: Word, b: Word)
    requires Proper(g) && |a| == |b| == Degree(g) && MulX(g, a) == MulX(g, b)
    ensures a == b
  {
    MulXAt(g, a, |a| - 1);
    MulXAt(g, b, |a| - 1);
    forall i | 0 <= i < |a| ensures a[i] == b[i] {
      if i > 0 {
        MulXAt(g, a, i - 1);
        MulXAt(g, b, i - 1);
      }
    }
  }

  lemma {:induction false} PowersCancel(g: Word, a: nat, b: nat)
    requires Proper(g) && b <= a && PowerMod(g, a) == PowerMod(g, b)
    ensures PowerMod(g, a - b) == PowerMod(g, 0)
    decreases b
  {
    if b > 0 {
      MulXInjective(g, PowerMod(g, a - 1), PowerMod(g, b - 1));
      PowersCancel(g, a - 1, b - 1);
    }
  }

  // ---------- light words ----------

  lemma {:induction false} OneBit(w: Word) returns (a: nat)
    requires Weight(w) == 1
    ensures a < |w| && w == Unit(|w|, a)
  {
    if w[0] {
      a := |w| - 1;
      WeightZero(w[1..]);
      assert w == [true] + Zeros(|w| - 1);
    } else {
      a := OneBit(w[1..]);
      assert w == [false] + Unit(|w| - 1, a);
    }
  }

  lemma {:induction false} TwoBits(w: Word) returns (a: nat, b: nat)
    requires Weight(w) == 2
    ensures b < a < |w| && w == Xor(Unit(|w|, a), Unit(|w|, b))
  {
    if w[0] {
      a := |w| - 1;
      b := OneBit(w[1..]);
      assert w == [true] + Unit(|w| - 1, b);
    } else {
      a, b := TwoBits(w[1..]);
      assert w == [false] + Xor(Unit(|w| - 1, a), Unit(|w| - 1, b));
    }
  }

  lemma NoWeightTwo(g: Word, w: Word)
    requires Proper(g) && OrderAtLeast(g, |w|) && |w| > Degree(g) && Weight(w) == 2
    ensures Rem(g, w) != Zeros(Degree(g))
  {
    var a, b := TwoBits(w);
    var n := |w|;
    RemOfXor(g, Unit(n, a), Unit(n, b));
    RemOfUnit(g, n, a);
    RemOfUnit(g, n, b);
    if Rem(g, w) == Zeros(Degree(g)) {
      SameIfXorZero(PowerMod(g, a), PowerMod(g, b));
      PowersCancel(g, a, b);
    }
  }

  lemma SameIfXorZero(a: Word, b: Word)
    requires |a| == |b| && Xor(a, b) == Zeros(|a|)
    ensures a == b
  {
    forall i | 0 <= i < |a| ensures a[i] == b[i] {
      assert Xor(a, b)[i] == Zeros(|a|)[i];
    }
  }

  /** A generator of even weight and constant term 1, modulo which x has order at least n,
      gives words of n bits at least four bits apart. */
  lemma WeightAtLeastFour(g: Word, w: Word)
    requires Proper(g) && !Parity(g) && OrderAtLeast(g, |w|) && |w| > Degree(g)
    requires Codeword(g, w) && w != Zeros(|w|)
    ensures Weight(w) >= 4
  {
    RemKeepsParity(g, w);
    ParityIsOddWeight(w);
    ParityIsOddWeight(Zeros(Degree(g)));
    WeightZero(Zeros(Degree(g)));
    WeightZero(w);
    if Weight(w) == 2 {
      NoWeightTwo(g, w);
    }
  }

  lemma DistanceAtLeastFour(g: Word, u: Word, v: Word)
    requires Proper(g) && !Parity(g) && OrderAtLeast(g, |u|) && |u| == |v| > Degree(g)
    requires Codeword(g, u) && Codeword(g, v) && u != v
    ensures Weight(Xor(u, v)) >= 4
  {
    RemOfXor(g, u, v);
    XorSelf(Zeros(Degree(g)));
    if Xor(u, v) == Zeros(|u|) {
      SameIfXorZero(u, v);
    }
    WeightAtLeastFour(g, Xor(u, v));
  }

  // ---------- systematic encoding ----------

  // The check bits of a data word.
  function Check(g: Word, d: Word): (p: Word)
    requires Generator(g)
    ensures |p| == Degree(g)
  {
    Rem(g, d + Zeros(Degree(g)))
  }

  lemma SyndromeSplits(g: Word, d: Word, p: Word)
    requires Generator(g) && |p| == Degree(g)
    ensures Rem(g, d + p) == Xor(Check(g, d), p)
  {
    var c := Degree(g);
    assert d + p == Xor(d + Zeros(c), Zeros(|d|) + p);
    RemOfXor(g, d + Zeros(c), Zeros(|d|) + p);
    RemOfLeadingZeros(g, |d|, p);
  }

  lemma CheckOfXor(g: Word, a: Word, b: Word)
    requires Generator(g) && |a| == |b|
    ensures Check(g, Xor(a, b)) == Xor(Check(g, a), Check(g, b))
  {
    var z := Zeros(Degree(g));
    XorSelf(z);
    XorSplits(a, z, b, z);
    RemOfXor(g, a + z, b + z);
  }

  /** A word whose check bits are zeros becomes a codeword when its remainder is put there. */
  lemma EncodedIsCodeword(g: Word, d: Word)
    requires Generator(g)
    ensures Codeword(g, d + Check(g, d))
  {
    SyndromeSplits(g, d, Check(g, d));
    XorSelf(Check(g, d));
  }

  lemma {:induction false} ShiftIsZeroOnlyOfZero(g: Word, r: Word, n: nat)
    requires Proper(g) && |r| == Degree(g) && Rem(g, r + Zeros(n)) == Zeros(|r|)
    ensures r == Zeros(|r|)
    decreases n
  {
    if n == 0 {
      assert r + Zeros(0) == r;
    } else {
      var w := r + Zeros(n - 1);
      assert r + Zeros(n) == w + [false];
      RemOfShift(g, w);
      MulXOfZeros(g);
      MulXInjective(g, Rem(g, w), Zeros(|r|));
      ShiftIsZeroOnlyOfZero(g, r, n - 1);
    }
  }

  lemma MulXOfZeros(g: Word)
    requires Proper(g)
    ensures MulX(g, Zeros(Degree(g))) == Zeros(Degree(g))
  {
    forall i | 0 <= i < Degree(g) ensures !MulX(g, Zeros(Degree(g)))[i] {
      MulXAt(g, Zeros(Degree(g)), i);
    }
  }

  /** Data words no longer than the degree have distinct check bits. */
  lemma CheckIsInjective(g: Word, a: Word, b: Word)
    requires Proper(g) && |a| == |b| <= Degree(g) && Check(g, a) == Check(g, b)
    ensures a == b
  {
    var c, e := Degree(g), Xor(a, b);
    CheckOfXor(g, a, b);
    XorSelf(Check(g, a));
    var r := Zeros(c - |e|) + e;
    assert r + Zeros(c) == Zeros(c - |e|) + (e + Zeros(c));
    RemOfLeadingZeros(g, c - |e|, e + Zeros(c));
    ShiftIsZeroOnlyOfZero(g, r, c);
    assert e == r[c - |e|..] == Zeros(|e|);
    SameIfXorZero(a, b);
  }
}
