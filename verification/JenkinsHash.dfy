/**
 The hash of the program, a one-at-a-time hash in 32-bit arithmetic over the bytes of a key. The hash
 table is proved for any hash; this one shows which keys its departures happen to.
 */
module JenkinsHash {

  // A byte as it is added to the hash: a plain character is signed.
  function CharWord(c: char): bv32 {
    var b := (c as bv32) & 0xff;
    if b & 0x80 == 0 then b else b | 0xffff_ff00
  }

  function Mix(hash: bv32, w: bv32): bv32 {
    var h0 := hash + w;
    var h1 := h0 + (h0 << 10);
    h1 ^ (h1 >> 6)
  }

  // The hash after the first n bytes of the key.
  function Mixed(key: string, n: nat): bv32
    requires n <= |key|
  {
    if n == 0 then 0 else Mix(Mixed(key, n - 1), CharWord(key[n - 1]))
  }

  function Finish(hash: bv32): bv32 {
    var h0 := hash + (hash << 3);
    var h1 := h0 ^ (h0 >> 11);
    h1 + (h1 << 15)
  }

  function LastBit(x: bv32): nat {
    if x & 1 == 1 then 1 else 0
  }

  // The number that the low n bits of a word write.
  function Value(x: bv32, n: nat): nat {
    if n == 0 then 0 else 2 * Value(x >> 1, n - 1) + LastBit(x)
  }

  function HashWord(key: string): bv32 {
    Finish(Mixed(key, |key|))
  }

  function Jenkins(key: string): nat {
    Value(HashWord(key), 32)
  }

  /** Words of the hash: of one letter, of two in their order, and of a byte above 127, which is negative. */
  lemma KnownWords(one: string, two: string, high: string)
    requires one == "a" && two == "ab" && high == [233 as char]
    ensures HashWord(one) == 0xca2e_9442 && HashWord(two) == 0x45e6_1e58 && HashWord(high) == 0x4098_48ff
  {
    WordOfOne(one, 'a', 97, 0x18270, 0xca2e_9442);
    WordOfOne(high, high[0], 0xffff_ffe9, 0xfc00_5d66, 0x4098_48ff);
    assert Mixed(two, 1) == Mix(Mixed(two, 0), CharWord('a'));
    assert Mixed(two, 2) == Mix(Mixed(two, 1), CharWord('b'));
    SecondMix(0x18270, 98, 0x0614_f9f9, 0x45e6_1e58);
  }

  lemma WordOfOne(key: string, c: char, w: bv32, m: bv32, f: bv32)
    requires key == [c] && CharWord(c) == w && Mix(0, w) == m && Finish(m) == f
    ensures HashWord(key) == f
  {
    assert Mixed(key, 1) == Mix(Mixed(key, 0), CharWord(c));
  }

  lemma SecondMix(h: bv32, w: bv32, m: bv32, f: bv32)
    requires h == 0x18270 && w == 98 && m == 0x0614_f9f9 && f == 0x45e6_1e58
    ensures Mix(h, w) == m && Finish(m) == f
  {
  }

  lemma OfLetter(key: string, c: char, w: bv32, n: nat)
    requires n == 32 && key == [c] && CharWord(c) == w
    ensures Jenkins(key) == Value(Finish(Mix(0, w)), n)
  {
    assert Mixed(key, 1) == Mix(Mixed(key, 0), CharWord(c));
  }

  lemma ValueStep(x: bv32, y: bv32, n: nat)
    requires n > 0 && y == x >> 1
    ensures Value(x, n) == 2 * Value(y, n - 1) + LastBit(x)
  {
  }

  lemma FourthPart(v: nat, a: nat, hi: nat, lo: nat)
    requires v == 2 * (2 * a + hi) + lo && hi <= 1 && lo <= 1
    ensures v % 4 == 2 * hi + lo
  {
  }

  lemma ResidueOf(x: bv32, y: bv32, z: bv32, n: nat)
    requires n >= 2 && y == x >> 1 && z == y >> 1
    ensures Value(x, n) % 4 == 2 * LastBit(y) + LastBit(x)
  {
    ValueStep(x, y, n);
    ValueStep(y, z, n - 1);
    FourthPart(Value(x, n), Value(z, n - 2), LastBit(y), LastBit(x));
  }

  lemma LetterValue(key: string, c: char, w: bv32, m: bv32, f: bv32, n: nat)
    requires n == 32 && key == [c] && CharWord(c) == w && Mix(0, w) == m && Finish(m) == f
    ensures Jenkins(key) == Value(f, n)
  {
    OfLetter(key, c, w, n);
  }

  lemma LetterResidue(key: string, f: bv32, y: bv32, z: bv32, n: nat)
    requires n == 32 && Jenkins(key) == Value(f, n) && y == f >> 1 && z == y >> 1
    ensures Jenkins(key) % 4 == 2 * LastBit(y) + LastBit(f)
  {
    ResidueOf(f, y, z, n);
  }

  lemma HashOfA(key: string)
    requires key == "a"
    ensures Jenkins(key) % 4 == 2
  {
    LetterValue(key, 'a', 97, 0x18270, 0xca2e9442, 32);
    LetterResidue(key, 0xca2e9442, 0x65174a21, 0x328ba510, 32);
  }

  lemma HashOfB(key: string)
    requires key == "b"
    ensures Jenkins(key) % 4 == 3
  {
    LetterValue(key, 'b', 98, 0x18e43, 0xdb819b, 32);
    LetterResidue(key, 0xdb819b, 0x6dc0cd, 0x36e066, 32);
  }

  lemma HashOfC(key: string)
    requires key == "c"
    ensures Jenkins(key) % 4 == 1
  {
    LetterValue(key, 'c', 99, 0x18a52, 0xeeba5d59, 32);
    LetterResidue(key, 0xeeba5d59, 0x775d2eac, 0x3bae9756, 32);
  }

  lemma HashOfE(key: string)
    requires key == "e"
    ensures Jenkins(key) % 4 == 0
  {
    LetterValue(key, 'e', 101, 0x19234, 0x11162210, 32);
    LetterResidue(key, 0x11162210, 0x88b1108, 0x4458884, 32);
  }
}
