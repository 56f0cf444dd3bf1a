/**
 Binary words, most significant bit first, and polynomial division over GF(2)
 by the shift register: clear the leading bit with the generator and move on.
 Generators and words have any length.
 */
module Gf2 {

  type Word = seq<bool>

  function Zeros(n: nat): (w: Word)
    ensures |w| == n && forall i :: 0 <= i < n ==> !w[i]
  {
    seq(n, _ => false)
  }

  function Xor(a: Word, b: Word): (w: Word)
    requires |a| == |b|
    ensures |w| == |a| && forall i :: 0 <= i < |w| ==> w[i] == (a[i] != b[i])
  {
    seq(|a|, i requires 0 <= i < |a| => a[i] != b[i])
  }

  function BitCount(b: bool): nat {
    if b then 1 else 0
  }

  function Weight(w: Word): nat {
    if w == [] then 0 else BitCount(w[0]) + Weight(w[1..])
  }

  function Parity(w: Word): bool {
    w != [] && (w[0] != Parity(w[1..]))
  }

  // A generator has a leading bit; its degree is one less than its length.
  predicate Generator(g: Word) {
    |g| > 0 && g[0]
  }

  // One step of the register: the leading bit is cleared and dropped.
  function Step(g: Word, w: Word): (r: Word)
    requires Generator(g) && |w| >= |g|
    ensures |r| == |w| - 1
  {
    if w[0] then Xor(w[..|g|], g)[1..] + w[|g|..] else w[1..]
  }

  function Rem(g: Word, w: Word): (r: Word)
    requires Generator(g)
    ensures |r| == if |w| < |g| then |w| else |g| - 1
    decreases |w|
  {
    if |w| < |g| then w else Rem(g, Step(g, w))
  }

  // ---------- xor, weight, parity ----------

  lemma XorSelf(a: Word)
    ensures Xor(a, a) == Zeros(|a|)
  {
  }

  lemma XorZeros(a: Word)
    ensures Xor(a, Zeros(|a|)) == a
  {
  }

  lemma XorSplits(a: Word, b: Word, a': Word, b': Word)
    requires |a| == |a'| && |b| == |b'|
    ensures Xor(a + b, a' + b') == Xor(a, a') + Xor(b, b')
  {
  }

  lemma {:induction false} WeightSplits(a: Word, b: Word)
    ensures Weight(a + b) == Weight(a) + Weight(b)
  {
    if a == [] {
      assert a + b == b;
    } else {
      assert (a + b)[1..] == a[1..] + b;
      WeightSplits(a[1..], b);
    }
  }

  lemma {:induction false} WeightOfXor(a: Word, b: Word)
    requires |a| == |b|
    ensures Weight(Xor(a, b)) <= Weight(a) + Weight(b)
  {
    if a != [] {
      assert Xor(a, b)[1..] == Xor(a[1..], b[1..]);
      WeightOfXor(a[1..], b[1..]);
    }
  }

  lemma {:induction false} WeightZero(w: Word)
    ensures Weight(w) == 0 <==> w == Zeros(|w|)
  {
    if w != [] {
      WeightZero(w[1..]);
      if w[1..] == Zeros(|w| - 1) && !w[0] {
        assert w == [false] + Zeros(|w| - 1);
      }
      if w == Zeros(|w|) {
        assert w[1..] == Zeros(|w| - 1);
      }
    }
  }

  lemma {:induction false} ParityIsOddWeight(w: Word)
    ensures Parity(w) <==> Weight(w) % 2 == 1
  {
    if w != [] {
      ParityIsOddWeight(w[1..]);
    }
  }

  lemma {:induction false} ParityOfXor(a: Word, b: Word)
    requires |a| == |b|
    ensures Parity(Xor(a, b)) == (Parity(a) != Parity(b))
  {
    if a != [] {
      assert Xor(a, b)[1..] == Xor(a[1..], b[1..]);
      ParityOfXor(a[1..], b[1..]);
    }
  }

  lemma {:induction false} ParitySplits(a: Word, b: Word)
    ensures Parity(a + b) == (Parity(a) != Parity(b))
  {
    if a == [] {
      assert a + b == b;
    } else {
      assert (a + b)[1..] == a[1..] + b;
      ParitySplits(a[1..], b);
    }
  }

  // ---------- the remainder ----------

  lemma StepOfXor(g: Word, a: Word, b: Word)
    requires Generator(g) && |a| == |b| >= |g|
    ensures Step(g, Xor(a, b)) == Xor(Step(g, a), Step(g, b))
  {
    var n := |g|;
    forall i | 0 <= i < |a| - 1 ensures Step(g, Xor(a, b))[i] == Xor(Step(g, a), Step(g, b))[i] {
      StepAt(g, a, i);
      StepAt(g, b, i);
      StepAt(g, Xor(a, b), i);
    }
  }

  lemma StepAt(g: Word, w: Word, i: nat)
    requires Generator(g) && |w| >= |g| && i + 1 < |w|
    ensures Step(g, w)[i] == (w[i + 1] != (w[0] && i + 1 < |g| && g[i + 1]))
  {
  }

  /** The remainder is linear. */
  lemma {:induction false} RemOfXor(g: Word, a: Word, b: Word)
    requires Generator(g) && |a| == |b|
    ensures Rem(g, Xor(a, b)) == Xor(Rem(g, a), Rem(g, b))
    decreases |a|
  {
    if |a| >= |g| {
      StepOfXor(g, a, b);
      RemOfXor(g, Step(g, a), Step(g, b));
    }
  }

  lemma {:induction false} RemOfZeros(g: Word, n: nat)
    requires Generator(g)
    ensures Rem(g, Zeros(n)) == Zeros(if n < |g| then n else |g| - 1)
    decreases n
  {
    if n >= |g| {
      assert Step(g, Zeros(n)) == Zeros(n - 1);
      RemOfZeros(g, n - 1);
    }
  }

  // Dividing a prefix first changes nothing.
  lemma {:induction false} RemOfPrefix(g: Word, a: Word, b: Word)
    requires Generator(g)
    ensures Rem(g, a + b) == Rem(g, Rem(g, a) + b)
    decreases |a|
  {
    if |a| >= |g| {
      forall i | 0 <= i < |a + b| - 1 ensures Step(g, a + b)[i] == (Step(g, a) + b)[i] {
        StepAt(g, a + b, i);
        if i + 1 < |a| { StepAt(g, a, i); }
      }
      assert Step(g, a + b) == Step(g, a) + b;
      RemOfPrefix(g, Step(g, a), b);
    }
  }

  lemma {:induction false} RemOfLeadingZeros(g: Word, n: nat, w: Word)
    requires Generator(g) && |w| >= |g| - 1
    ensures Rem(g, Zeros(n) + w) == Rem(g, w)
    decreases n
  {
    if n == 0 {
      assert Zeros(0) + w == w;
    } else {
      assert Step(g, Zeros(n) + w) == Zeros(n - 1) + w;
      RemOfLeadingZeros(g, n - 1, w);
    }
  }

  /** A generator of even weight keeps the parity of what it divides. */
  lemma {:induction false} RemKeepsParity(g: Word, w: Word)
    requires Generator(g) && !Parity(g)
    ensures Parity(Rem(g, w)) == Parity(w)
    decreases |w|
  {
    if |w| >= |g| {
      if w[0] {
        var u := Xor(w[..|g|], g);
        assert w == w[..|g|] + w[|g|..];
        ParitySplits(w[..|g|], w[|g|..]);
        ParityOfXor(w[..|g|], g);
        ParitySplits(u[1..], w[|g|..]);
        assert !u[0];
      }
      RemKeepsParity(g, Step(g, w));
    }
  }

  // ---------- the remainder is the polynomial remainder ----------

  // The product of q and g, as a word one degree of g longer than q.
  function Mul(q: Word, g: Word): (w: Word)
    requires Generator(g)
    ensures |w| == |q| + |g| - 1
  {
    if q == [] then Zeros(|g| - 1)
    else
      var m := Mul(q[1..], g);
      seq(|q| + |g| - 1, i requires 0 <= i <= |m| => (q[0] && i < |g| && g[i]) != (i > 0 && m[i - 1]))
  }

  function Quot(g: Word, w: Word): (q: Word)
    requires Generator(g)
    ensures |q| == if |w| < |g| then 0 else |w| - |g| + 1
    decreases |w|
  {
    if |w| < |g| then [] else [w[0]] + Quot(g, Step(g, w))
  }

  // A word with a shorter one added at its low end.
  function AddLow(m: Word, r: Word): (w: Word)
    requires |r| <= |m|
    ensures |w| == |m|
    ensures forall i :: 0 <= i < |m| ==> w[i] == (m[i] != (i >= |m| - |r| && r[i - (|m| - |r|)]))
  {
    seq(|m|, i requires 0 <= i < |m| => m[i] != (i >= |m| - |r| && r[i - (|m| - |r|)]))
  }

  // The product of a non-empty quotient, bit by bit.
  lemma MulAt(q: Word, g: Word, m: Word, i: nat)
    requires Generator(g) && |q| > 0 && i < |q| + |g| - 1 && m == Mul(q[1..], g)
    ensures Mul(q, g)[i] == ((q[0] && i < |g| && g[i]) != (i > 0 && m[i - 1]))
  {
  }

  lemma DivisionStep(g: Word, w: Word, q: Word, r: Word)
    requires Generator(g) && |w| >= |g| && |r| == |g| - 1 && |q| == |w| - |g|
    requires Step(g, w) == AddLow(Mul(q, g), r)
    ensures w == AddLow(Mul([w[0]] + q, g), r)
  {
    var p, m, v := [w[0]] + q, Mul(q, g), Step(g, w);
    assert p[1..] == q;
    var w' := AddLow(Mul(p, g), r);
    forall i | 0 <= i < |w| ensures w'[i] == w[i] {
      MulAt(p, g, m, i);
      if i > 0 {
        StepAt(g, w, i - 1);
        assert v[i - 1] == AddLow(m, r)[i - 1];
      }
    }
  }

  /** Division: the word is the generator times the quotient, plus the remainder. */
  lemma {:induction false} Division(g: Word, w: Word)
    requires Generator(g) && |w| >= |g| - 1
    ensures w == AddLow(Mul(Quot(g, w), g), Rem(g, w))
    decreases |w|
  {
    if |w| >= |g| {
      Division(g, Step(g, w));
      DivisionStep(g, w, Quot(g, Step(g, w)), Rem(g, w));
    }
  }

  // A product plus a low word loses its leading bit in one step of the register.
  lemma StepOfSumAt(g: Word, q: Word, r: Word, m: Word, w: Word, i: nat)
    requires Generator(g) && |r| == |g| - 1 && |q| > 0 && m == Mul(q[1..], g) && i < |m|
    requires w == AddLow(Mul(q, g), r) && w[0] == q[0]
    ensures Step(g, w)[i] == AddLow(m, r)[i]
  {
    MulAt(q, g, m, i + 1);
    StepAt(g, w, i);
  }

  lemma StepOfSum(g: Word, q: Word, r: Word)
    requires Generator(g) && |r| == |g| - 1 && |q| > 0
    ensures var w := AddLow(Mul(q, g), r);
      w[0] == q[0] && Step(g, w) == AddLow(Mul(q[1..], g), r)
  {
    var m := Mul(q[1..], g);
    var w, v := AddLow(Mul(q, g), r), AddLow(m, r);
    MulAt(q, g, m, 0);
    forall i | 0 <= i < |v| ensures Step(g, w)[i] == v[i] {
      StepOfSumAt(g, q, r, m, w, i);
    }
  }

  /** ... and there is only one way to write it so. */
  lemma {:induction false} DivisionIsUnique(g: Word, q: Word, r: Word)
    requires Generator(g) && |r| == |g| - 1
    ensures var w := AddLow(Mul(q, g), r); q == Quot(g, w) && r == Rem(g, w)
    decreases |q|
  {
    var w := AddLow(Mul(q, g), r);
    if q == [] {
      assert w == r;
    } else {
      StepOfSum(g, q, r);
      DivisionIsUnique(g, q[1..], r);
      assert q == [q[0]] + q[1..];
    }
  }

  /** A word is a multiple of the generator exactly when its remainder is zero. */
  lemma MultipleIffNoRemainder(g: Word, w: Word)
    requires Generator(g) && |w| >= |g| - 1
    ensures Rem(g, w) == Zeros(|g| - 1) <==> exists q :: |q| == |w| - |g| + 1 && Mul(q, g) == w
  {
    var z := Zeros(|g| - 1);
    if Rem(g, w) == z {
      Division(g, w);
      assert AddLow(Mul(Quot(g, w), g), z) == Mul(Quot(g, w), g);
    }
    forall q | |q| == |w| - |g| + 1 && Mul(q, g) == w ensures Rem(g, w) == z {
      assert AddLow(w, z) == w;
      DivisionIsUnique(g, q, z);
    }
  }
}
