/**
 Generator and check matrices over GF(2), of any size, and their agreement with the
 shift register.
 */
module MatrixCode {
  import opened Gf2
  import opened CyclicCode

  type Matrix = seq<Word>

  // k rows of n bits.
  predicate Rectangular(m: Matrix, k: nat, n: nat) {
    |m| == k && forall i :: 0 <= i < k ==> |m[i]| == n
  }

  // The parity of the first n products.
  function Dot(a: Word, b: Word, n: nat): bool
    requires n <= |a| && n <= |b|
  {
    n > 0 && ((a[n - 1] && b[n - 1]) != Dot(a, b, n - 1))
  }

  // The same down column j of the first n rows.
  function ColumnDot(m: Matrix, j: nat, u: Word, n: nat): bool
    requires n <= |m| && n <= |u| && forall i :: 0 <= i < n ==> j < |m[i]|
  {
    n > 0 && ((m[n - 1][j] && u[n - 1]) != ColumnDot(m, j, u, n - 1))
  }

  // The sum of those of the first i rows that u selects.
  function Combine(m: Matrix, u: Word, i: nat, n: nat): (w: Word)
    requires Rectangular(m, |u|, n) && i <= |u|
    ensures |w| == n && forall j :: 0 <= j < n ==> w[j] == ColumnDot(m, j, u, i)
  {
    seq(n, j requires 0 <= j < n => ColumnDot(m, j, u, i))
  }

  // The identity beside any block.
  predicate Systematic(m: Matrix, k: nat, n: nat) {
    && k <= n && Rectangular(m, k, n)
    && forall i, j :: 0 <= i < k && 0 <= j < k ==> (m[i][j] <==> i == j)
  }

  // A column of the block, followed by a row of the identity.
  function CheckRow(m: Matrix, k: nat, n: nat, i: nat): (w: Word)
    requires i < n - k && Rectangular(m, k, n)
    ensures |w| == n
  {
    seq(n, j requires 0 <= j < n => if j < k then m[j][k + i] else j - k == i)
  }

  function CheckMatrix(m: Matrix, k: nat, n: nat): (h: Matrix)
    requires k <= n && Rectangular(m, k, n)
    ensures Rectangular(h, n - k, n)
  {
    seq(n - k, i requires 0 <= i < n - k => CheckRow(m, k, n, i))
  }

  // The parity of the word against every row.
  function Syndrome(h: Matrix, w: Word): (s: Word)
    requires Rectangular(h, |h|, |w|)
    ensures |s| == |h|
  {
    seq(|h|, i requires 0 <= i < |h| => Dot(h[i], w, |w|))
  }

  // The encoder sets the check bits whose parity is odd and clears none.
  function Encode(m: Matrix, k: nat, w: Word): (r: Word)
    requires k <= |w| && Rectangular(m, k, |w|)
    ensures |r| == |w|
  {
    seq(|w|, j requires 0 <= j < |w| => w[j] || (j >= k && ColumnDot(m, j, w, k)))
  }

  // The code of a matrix: the sums of its rows.
  ghost predicate InCode(m: Matrix, k: nat, w: Word)
    requires Rectangular(m, k, |w|)
  {
    exists u :: |u| == k && Combine(m, u, k, |w|) == w
  }

  // ---------- the check matrix ----------

  lemma {:induction false} ColumnDotPrefix(m: Matrix, j: nat, u: Word, v: Word, n: nat)
    requires n <= |m| && n <= |u| && n <= |v| && forall i :: 0 <= i < n ==> j < |m[i]|
    requires forall i :: 0 <= i < n ==> u[i] == v[i]
    ensures ColumnDot(m, j, u, n) == ColumnDot(m, j, v, n)
  {
    if n > 0 {
      ColumnDotPrefix(m, j, u, v, n - 1);
    }
  }

  lemma {:induction false} DataColumn(m: Matrix, k: nat, n: nat, u: Word, i: nat, j: nat)
    requires Systematic(m, k, n) && |u| == k && i <= k && j < k
    ensures ColumnDot(m, j, u, i) == (j < i && u[j])
    decreases i
  {
    if i > 0 {
      DataColumn(m, k, n, u, i - 1, j);
    }
  }

  // A word of a systematic code starts with its data.
  lemma CombineStartsWithData(m: Matrix, k: nat, n: nat, u: Word)
    requires Systematic(m, k, n) && |u| == k
    ensures Combine(m, u, k, n)[..k] == u
  {
    forall j | 0 <= j < k ensures Combine(m, u, k, n)[j] == u[j] {
      DataColumn(m, k, n, u, k, j);
    }
  }

  lemma {:induction false} DotOfCheckRow(m: Matrix, k: nat, w: Word, i: nat, n: nat)
    requires k <= |w| && Rectangular(m, k, |w|) && i < |w| - k && n <= |w|
    ensures Dot(CheckRow(m, k, |w|, i), w, n) ==
      if n <= k then ColumnDot(m, k + i, w, n)
      else ColumnDot(m, k + i, w, k) != (k + i < n && w[k + i])
    decreases n
  {
    if n > 0 {
      DotOfCheckRow(m, k, w, i, n - 1);
    }
  }

  // The syndrome compares each check bit with the parity the matrix asks for.
  lemma SyndromeAt(m: Matrix, k: nat, w: Word, i: nat)
    requires k <= |w| && Rectangular(m, k, |w|) && i < |w| - k
    ensures Syndrome(CheckMatrix(m, k, |w|), w)[i] == (ColumnDot(m, k + i, w, k) != w[k + i])
  {
    DotOfCheckRow(m, k, w, i, |w|);
  }

  lemma CombineOfOwnData(m: Matrix, k: nat, w: Word, j: nat)
    requires Rectangular(m, k, |w|) && k <= j < |w|
    ensures Combine(m, w[..k], k, |w|)[j] == ColumnDot(m, j, w, k)
  {
    ColumnDotPrefix(m, j, w[..k], w, k);
  }

  lemma ZeroSyndromeIsCombine(m: Matrix, k: nat, w: Word)
    requires Systematic(m, k, |w|)
    ensures Syndrome(CheckMatrix(m, k, |w|), w) == Zeros(|w| - k) <==> Combine(m, w[..k], k, |w|) == w
  {
    var s, c := Syndrome(CheckMatrix(m, k, |w|), w), Combine(m, w[..k], k, |w|);
    CombineStartsWithData(m, k, |w|, w[..k]);
    forall i | 0 <= i < |w| - k ensures s[i] == (c[k + i] != w[k + i]) {
      SyndromeAt(m, k, w, i);
      CombineOfOwnData(m, k, w, k + i);
    }
    if s == Zeros(|w| - k) {
      forall j | 0 <= j < |w| ensures c[j] == w[j] {
        if j < k {
          assert c[..k][j] == w[..k][j];
        } else {
          assert !s[j - k];
        }
      }
    }
  }

  /** The check matrix of a systematic matrix has zero syndrome exactly on its code. */
  lemma CheckMatrixIsExact(m: Matrix, k: nat, w: Word)
    requires Systematic(m, k, |w|)
    ensures Syndrome(CheckMatrix(m, k, |w|), w) == Zeros(|w| - k) <==> InCode(m, k, w)
  {
    ZeroSyndromeIsCombine(m, k, w);
    if InCode(m, k, w) {
      var u :| |u| == k && Combine(m, u, k, |w|) == w;
      CombineStartsWithData(m, k, |w|, u);
    }
  }

  /** The encoder completes data whose check bits are zeros to the word of the code it starts. */
  lemma EncodeIsCombine(m: Matrix, k: nat, w: Word)
    requires Systematic(m, k, |w|) && w[k..] == Zeros(|w| - k)
    ensures Encode(m, k, w) == Combine(m, w[..k], k, |w|)
  {
    var r, c := Encode(m, k, w), Combine(m, w[..k], k, |w|);
    CombineStartsWithData(m, k, |w|, w[..k]);
    forall j | 0 <= j < |w| ensures r[j] == c[j] {
      if j < k {
        assert c[..k][j] == w[..k][j];
      } else {
        CombineOfOwnData(m, k, w, j);
        assert w[k..][j - k] == w[j];
      }
    }
  }

  /** Whatever the check bits of a word are, encoding sets those of the word of the code that its data starts,
      and clears none. */
  lemma EncodeSetsCheckBits(m: Matrix, k: nat, w: Word, j: nat)
    requires Systematic(m, k, |w|) && j < |w|
    ensures Encode(m, k, w)[j] <==> w[j] || Combine(m, w[..k], k, |w|)[j]
  {
    CombineStartsWithData(m, k, |w|, w[..k]);
    if j < k {
      assert Combine(m, w[..k], k, |w|)[..k][j] == w[..k][j];
    } else {
      CombineOfOwnData(m, k, w, j);
    }
  }

  // ---------- agreement with the shift register ----------

  // Data followed by its check bits.
  function Encoded(g: Word, d: Word): (w: Word)
    requires Generator(g)
    ensures |w| == |d| + Degree(g)
  {
    d + Check(g, d)
  }

  // The word with only bit i, counted from the left.
  function Pick(k: nat, i: nat): (w: Word)
    requires i < k
    ensures |w| == k && forall j :: 0 <= j < k ==> (w[j] <==> j == i)
  {
    Unit(k, k - 1 - i)
  }

  // Every row is the codeword of its data bit.
  ghost predicate RowsFrom(m: Matrix, g: Word, k: nat)
    requires Generator(g)
  {
    |m| == k && forall i :: 0 <= i < k ==> m[i] == Encoded(g, Pick(k, i))
  }

  lemma RowsAreSystematic(m: Matrix, g: Word, k: nat)
    requires Generator(g) && RowsFrom(m, g, k)
    ensures Systematic(m, k, k + Degree(g))
  {
  }

  lemma EncodedOfXor(g: Word, a: Word, b: Word)
    requires Generator(g) && |a| == |b|
    ensures Encoded(g, Xor(a, b)) == Xor(Encoded(g, a), Encoded(g, b))
  {
    CheckOfXor(g, a, b);
    XorSplits(a, Check(g, a), b, Check(g, b));
  }

  lemma EncodedOfZeros(g: Word, k: nat)
    requires Generator(g)
    ensures Encoded(g, Zeros(k)) == Zeros(k + Degree(g))
  {
    RemOfZeros(g, k + Degree(g));
    assert Zeros(k) + Zeros(Degree(g)) == Zeros(k + Degree(g));
  }

  // Data with all but the first i bits cleared.
  function Head(u: Word, i: nat): (v: Word)
    requires i <= |u|
    ensures |v| == |u| && forall j :: 0 <= j < |u| ==> v[j] == (j < i && u[j])
  {
    seq(|u|, j requires 0 <= j < |u| => j < i && u[j])
  }

  lemma CombineStep(m: Matrix, u: Word, i: nat, n: nat)
    requires Rectangular(m, |u|, n) && i < |u|
    ensures Combine(m, u, i + 1, n) == if u[i] then Xor(m[i], Combine(m, u, i, n)) else Combine(m, u, i, n)
  {
  }

  lemma {:induction false} CombineHead(m: Matrix, g: Word, u: Word, i: nat, n: nat)
    requires Generator(g) && RowsFrom(m, g, |u|) && n == |u| + Degree(g) && i <= |u|
    requires Rectangular(m, |u|, n)
    ensures Combine(m, u, i, n) == Encoded(g, Head(u, i))
    decreases i
  {
    if i == 0 {
      assert Head(u, 0) == Zeros(|u|);
      EncodedOfZeros(g, |u|);
    } else {
      CombineHead(m, g, u, i - 1, n);
      CombineStep(m, u, i - 1, n);
      if u[i - 1] {
        assert Head(u, i) == Xor(Pick(|u|, i - 1), Head(u, i - 1));
        EncodedOfXor(g, Pick(|u|, i - 1), Head(u, i - 1));
      } else {
        assert Head(u, i) == Head(u, i - 1);
      }
    }
  }

  /** Matrix encoding is shift-register encoding. */
  lemma CombineIsEncoding(m: Matrix, g: Word, u: Word, n: nat)
    requires Generator(g) && RowsFrom(m, g, |u|) && n == |u| + Degree(g)
    ensures Systematic(m, |u|, n) && Combine(m, u, |u|, n) == Encoded(g, u)
  {
    RowsAreSystematic(m, g, |u|);
    CombineHead(m, g, u, |u|, n);
    assert Head(u, |u|) == u;
  }

  lemma EncodeIsRegister(m: Matrix, g: Word, k: nat, w: Word)
    requires Generator(g) && RowsFrom(m, g, k) && |w| == k + Degree(g) && w[k..] == Zeros(Degree(g))
    ensures Systematic(m, k, |w|) && Encode(m, k, w) == Encoded(g, w[..k])
  {
    CombineIsEncoding(m, g, w[..k], |w|);
    EncodeIsCombine(m, k, w);
  }

  lemma EncodedAt(g: Word, d: Word, i: nat)
    requires Generator(g) && i < Degree(g)
    ensures Encoded(g, d)[|d| + i] == Check(g, d)[i]
  {
  }

  lemma ParityIsCheck(m: Matrix, g: Word, k: nat, w: Word, i: nat)
    requires Generator(g) && RowsFrom(m, g, k) && |w| == k + Degree(g) && i < Degree(g)
    ensures Rectangular(m, k, |w|) && ColumnDot(m, k + i, w, k) == Check(g, w[..k])[i]
  {
    var u, n := w[..k], |w|;
    assert Rectangular(m, k, n) && Combine(m, u, k, n)[k + i] == Check(g, u)[i] by {
      CombineIsEncoding(m, g, u, n);
      EncodedAt(g, u, i);
    }
    CombineOfOwnData(m, k, w, k + i);
  }

  /** The matrix syndrome is the remainder. */
  lemma SyndromeIsRemainder(m: Matrix, g: Word, k: nat, w: Word)
    requires Generator(g) && RowsFrom(m, g, k) && |w| == k + Degree(g)
    ensures Systematic(m, k, |w|) && Syndrome(CheckMatrix(m, k, |w|), w) == Rem(g, w)
  {
    RowsAreSystematic(m, g, k);
    var s, x := Syndrome(CheckMatrix(m, k, |w|), w), Xor(Check(g, w[..k]), w[k..]);
    assert Rem(g, w) == x by {
      assert w == w[..k] + w[k..];
      SyndromeSplits(g, w[..k], w[k..]);
    }
    forall i | 0 <= i < Degree(g) ensures s[i] == x[i] {
      SyndromeAt(m, k, w, i);
      ParityIsCheck(m, g, k, w, i);
    }
  }
}
