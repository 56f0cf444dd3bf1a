/**
 The probe order of the hash table: triangular offsets over a power-of-two array,
 evaluated in 32-bit unsigned arithmetic.
 */
module TriangularProbing {
  import opened Counting

  // uint arithmetic wraps at this bound.
  const WORD: nat := 0x1_0000_0000

  function Pow2(k: nat): (r: nat)
    ensures r > 0
  {
    if k == 0 then 1 else 2 * Pow2(k - 1)
  }

  function Triangle(i: nat): nat {
    i * (i + 1) / 2
  }

  // The product wraps before it is halved.
  function Jump(i: nat): nat {
    i * (i + 1) % WORD / 2
  }

  // uint addition.
  function AddWord(a: nat, b: nat): nat {
    (a + b) % WORD
  }

  // The slot tried at step i of a probe that starts at slot index.
  function ProbeAt(index: nat, i: nat, size: nat): (p: nat)
    requires size > 0
    ensures p < size
  {
    AddWord(index, Jump(i)) % size
  }

  // The table sizes a uint can hold.
  ghost predicate IsTableSize(size: nat) {
    exists k: nat :: k <= 31 && size == Pow2(k)
  }

  // ---------- remainders ----------

  lemma RemainderIs(x: int, m: nat, q: int, r: int)
    requires 0 <= r < m && x == q * m + r
    ensures x % m == r
  {
    var d := x / m - q;
    assert d * m == r - x % m by {
      assert x == (x / m) * m + x % m;
      assert d * m == (x / m) * m - q * m;
    }
    MultipleInside(d, m);
  }

  lemma {:induction false} AtLeastOnce(d: nat, m: nat)
    requires d > 0
    ensures d * m >= m
    decreases d
  {
    if d > 1 {
      AtLeastOnce(d - 1, m);
      assert d * m == (d - 1) * m + m;
    }
  }

  lemma MultipleInside(d: int, m: nat)
    requires 0 - m < d * m < m
    ensures d == 0
  {
    if d > 0 {
      AtLeastOnce(d, m);
    } else if d < 0 {
      assert (-d) * m == -(d * m);
      AtLeastOnce(-d, m);
    }
  }

  lemma ModOfMod(x: nat, m: nat, c: nat)
    requires m > 0 && c > 0
    ensures m * c > 0
    ensures x % (m * c) % m == x % m
  {
    var q, r := x / (m * c), x % (m * c);
    assert x == q * (m * c) + r;
    assert x == (q * c + r / m) * m + r % m by {
      assert q * (m * c) == (q * c) * m;
      assert r == (r / m) * m + r % m;
    }
    RemainderIs(x, m, q * c + r / m, r % m);
  }

  lemma {:induction false} Pow2Splits(k: nat, n: nat)
    requires k <= n
    ensures Pow2(n) == Pow2(k) * Pow2(n - k)
    decreases n
  {
    if k < n {
      Pow2Splits(k, n - 1);
      assert Pow2(n) == 2 * (Pow2(k) * Pow2(n - 1 - k)) == Pow2(k) * (2 * Pow2(n - 1 - k));
    }
  }

  lemma Pow2Values()
    ensures Pow2(31) == 0x8000_0000 && Pow2(32) == WORD
  {
    assert Pow2(8) == 256;
    Pow2Splits(8, 16);
    Pow2Splits(16, 32);
  }

  lemma DoubleOf(a: nat, b: nat)
    ensures (2 * a) * b == 2 * (a * b) && a * (2 * b) == 2 * (a * b)
  {
  }

  lemma TriangleDoubled(i: nat)
    ensures i * (i + 1) == 2 * Triangle(i)
  {
    var a, b := i / 2, (i + 1) / 2;
    if i % 2 == 0 {
      DoubleOf(a, i + 1);
      assert i == 2 * a;
    } else {
      DoubleOf(i, b);
      assert i + 1 == 2 * b;
    }
  }

  /** Overflow never perturbs the probe order: the wrapping evaluation is the unbounded one. */
  lemma WrapIsHarmless(index: nat, i: nat, size: nat)
    requires IsTableSize(size)
    ensures ProbeAt(index, i, size) == (index + Triangle(i)) % size
  {
    var k: nat :| k <= 31 && size == Pow2(k);
    Pow2Values();
    Pow2Splits(k, 31);
    Pow2Splits(k, 32);
    var t := Triangle(i);
    var half := Pow2(31);
    TriangleDoubled(i);
    assert Jump(i) == t % half by {
      RemainderIs(2 * t, WORD, t / half, 2 * (t % half));
    }
    ModOfMod(index + Jump(i), size, Pow2(32 - k));
    SumModLeft(index, t, half, size, Pow2(31 - k));
  }

  lemma SumModLeft(a: nat, t: nat, half: nat, size: nat, c: nat)
    requires size > 0 && c > 0 && half == size * c
    ensures (a + t % half) % size == (a + t) % size
  {
    var q, r := t / half, (a + t % half) % size;
    assert t == q * half + t % half;
    assert q * half == (q * c) * size;
    var d := (a + t % half) / size;
    assert a + t == (q * c + d) * size + r;
    RemainderIs(a + t, size, q * c + d, r);
  }

  // ---------- the offsets are a permutation ----------

  lemma EvenIfProductEven(a: nat, b: nat, e: nat)
    requires a % 2 == 1 && a * b == 2 * e
    ensures b % 2 == 0
  {
    var x := a / 2;
    assert a * b == (2 * x + 1) * b == 2 * (x * b) + b;
  }

  /** Stated with the quotient named, so that the induction stays linear. */
  lemma {:induction false} OddFactorDrops(n: nat, a: nat, b: nat, q: nat) returns (c: nat)
    requires a % 2 == 1
    requires a * b == q * Pow2(n)
    ensures b == c * Pow2(n)
    decreases n
  {
    if n == 0 {
      c := b;
    } else {
      var p, h := Pow2(n - 1), b / 2;
      assert a * b == 2 * (q * p);
      EvenIfProductEven(a, b, q * p);
      assert a * b == 2 * (a * h) by { assert b == 2 * h; }
      c := OddFactorDrops(n - 1, a, h, q);
      assert b == 2 * (c * p) == c * Pow2(n);
    }
  }

  lemma TriangleGap(i: nat, j: nat)
    requires i < j
    ensures 2 * (Triangle(j) - Triangle(i)) == (j - i) * (i + j + 1)
  {
    TriangleDoubled(i);
    TriangleDoubled(j);
    assert j * (j + 1) - i * (i + 1) == (j - i) * (i + j + 1);
  }

  /** Two steps of one probe never meet: the offsets are distinct modulo the size. */
  lemma ProbesAreDistinct(index: nat, i: nat, j: nat, size: nat)
    requires IsTableSize(size) && i < j < size
    ensures ProbeAt(index, i, size) != ProbeAt(index, j, size)
  {
    var k: nat :| k <= 31 && size == Pow2(k);
    WrapIsHarmless(index, i, size);
    WrapIsHarmless(index, j, size);
    var x, y := index + Triangle(i), index + Triangle(j);
    var d := y / size - x / size;
    QuotientGap(x, y, size);
    GapIsNoMultiple(k, i, j, d);
  }

  lemma QuotientGap(x: nat, y: nat, m: nat)
    requires m > 0
    ensures y - x == (y / m - x / m) * m + (y % m - x % m)
  {
    assert x == (x / m) * m + x % m && y == (y / m) * m + y % m;
  }

  lemma GapIsNoMultiple(k: nat, i: nat, j: nat, d: int)
    requires i < j < Pow2(k)
    ensures Triangle(j) - Triangle(i) != d * Pow2(k)
  {
    TriangleGap(i, j);
    FactorsAreNoMultiple(k + 1, j - i, i + j + 1, d);
    DoubledMultiple(d, Pow2(k));
  }

  lemma DoubledMultiple(d: int, p: int)
    ensures 2 * (d * p) == d * (2 * p)
  {
  }

  // One of the two factors is odd, and neither reaches the modulus.
  lemma FactorsAreNoMultiple(n: nat, a: nat, b: nat, d: int)
    requires a % 2 != b % 2 && 0 < a < Pow2(n) && 0 < b < Pow2(n)
    ensures a * b != d * Pow2(n)
  {
    if a % 2 == 1 {
      NoDivisibleFactor(n, a, b, d);
    } else {
      NoDivisibleFactor(n, b, a, d);
      assert b * a == a * b;
    }
  }

  lemma NoDivisibleFactor(n: nat, a: nat, b: nat, d: int)
    requires a % 2 == 1 && 0 < b < Pow2(n)
    ensures a * b != d * Pow2(n)
  {
    PositiveProduct(a, b);
    if d <= 0 {
      assert (-d) * Pow2(n) == -(d * Pow2(n));
    } else if a * b == d * Pow2(n) {
      var c := OddFactorDrops(n, a, b, d);
      MultipleInside(c, Pow2(n));
    }
  }

  lemma PositiveProduct(a: nat, b: nat)
    requires a > 0 && b > 0
    ensures a * b > 0
  {
    AtLeastOnce(a, b);
  }

  /** A probe of size steps examines the whole table, from any start slot. */
  lemma ProbesCoverTable(index: nat, p: nat, size: nat)
    requires IsTableSize(size) && p < size
    ensures exists i :: 0 <= i < size && ProbeAt(index, i, size) == p
  {
    var s := seq(size, i requires 0 <= i < size => ProbeAt(index, i, size));
    forall i, j | 0 <= i < j < |s| ensures s[i] != s[j] {
      ProbesAreDistinct(index, i, j, size);
    }
    Pigeonhole(s, p);
    var i :| 0 <= i < |s| && s[i] == p;
  }

  /** The next size steps cover it once more. */
  lemma SecondLapCoversTable(index: nat, p: nat, size: nat)
    requires IsTableSize(size) && p < size
    ensures exists i :: size <= i < 2 * size && ProbeAt(index, i, size) == p
  {
    var index' := index + Triangle(size);
    ProbesCoverTable(index', p, size);
    var i :| 0 <= i < size && ProbeAt(index', i, size) == p;
    WrapIsHarmless(index', i, size);
    WrapIsHarmless(index, i + size, size);
    TriangleOfSum(i, size);
    MultipleDropsOut(i, index' + Triangle(i), size);
  }

  lemma TriangleOfSum(i: nat, n: nat)
    ensures Triangle(i + n) == Triangle(i) + Triangle(n) + i * n
  {
    TriangleDoubled(i);
    TriangleDoubled(n);
    TriangleDoubled(i + n);
    assert (i + n) * (i + n + 1) == i * (i + 1) + n * (n + 1) + 2 * (i * n);
  }

  lemma MultipleDropsOut(q: nat, x: nat, m: nat)
    requires m > 0
    ensures (q * m + x) % m == x % m
  {
    assert q * m + x == (q + x / m) * m + x % m by {
      assert x == (x / m) * m + x % m;
    }
    RemainderIs(q * m + x, m, q + x / m, x % m);
  }

  // Step 0 of a probe is the start slot itself.
  lemma ProbeStart(index: nat, size: nat)
    requires IsTableSize(size) && index < size
    ensures ProbeAt(index, 0, size) == index
  {
    WrapIsHarmless(index, 0, size);
    RemainderIs(index, size, 0, index);
  }
}
