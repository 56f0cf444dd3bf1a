/**
 Coding of whole messages in place: control bytes, noise and correction over every byte.
 */
module MessageCoding {
  import opened Gf2
  import opened Bits
  import opened CodeErrors
  import opened Messages
  import opened Correction

  // The bits flipped in one pair.
  datatype Flips = Flips(data: uint8, check: uint8)

  function Controls(f: CheckFn, ds: seq<uint8>): (cs: seq<uint8>)
    ensures |cs| == |ds| && forall i :: 0 <= i < |ds| ==> cs[i] == f(ds[i])
  {
    seq(|ds|, i requires 0 <= i < |ds| => f(ds[i]))
  }

  function NoisyData(ds: seq<uint8>, fl: seq<Flips>): (r: seq<uint8>)
    requires |fl| == |ds|
    ensures |r| == |ds| && forall i :: 0 <= i < |ds| ==> r[i] == ds[i] ^ fl[i].data
  {
    seq(|ds|, i requires 0 <= i < |ds| => ds[i] ^ fl[i].data)
  }

  function NoisyControl(cs: seq<uint8>, fl: seq<Flips>): (r: seq<uint8>)
    requires |fl| == |cs|
    ensures |r| == |cs| && forall i :: 0 <= i < |cs| ==> r[i] == cs[i] ^ fl[i].check
  {
    seq(|cs|, i requires 0 <= i < |cs| => cs[i] ^ fl[i].check)
  }

  // What correction makes of a received pair: the byte, and whether it is flagged.
  type Corrector = (uint8, uint8) -> (uint8, bool)

  ghost predicate Acts(g: Corrector, s: seq<uint16>, f: CheckFn, d: uint8, c: uint8)
    requires |s| == NB_SYNDROMES
  {
    g(d, c) == CorrectByte(s, f, d, c)
  }

  // g is correction with table s.
  ghost predicate CorrectsWith(g: Corrector, s: seq<uint16>, f: CheckFn) {
    |s| == NB_SYNDROMES && forall d: uint8, c: uint8 :: Acts(g, s, f, d, c)
  }

  lemma CorrectorExists(s: seq<uint16>, f: CheckFn) returns (g: Corrector)
    requires |s| == NB_SYNDROMES
    ensures CorrectsWith(g, s, f)
  {
    g := (d: uint8, c: uint8) => CorrectByte(s, f, d, c);
    forall d: uint8, c: uint8 ensures Acts(g, s, f, d, c) {
    }
  }

  // A pair disturbed by at most two flips is passed as good exactly when no check bit and at
  // most one data bit was flipped, and then the byte is the one sent.
  ghost predicate ExactOn(g: Corrector, f: CheckFn, d: uint8, fl: Flips) {
    var r := g(d ^ fl.data, f(d) ^ fl.check);
    && (!r.1 <==> fl.check == 0 && ByteWeight(fl.data) <= 1)
    && (!r.1 ==> r.0 == d)
  }

  // What correction leaves is a codeword, which a second correction keeps and passes.
  ghost predicate SettlesOn(g: Corrector, f: CheckFn, d: uint8, c: uint8) {
    f(g(d, c).0) == c && g(g(d, c).0, c) == (g(d, c).0, false)
  }

  lemma CorrectorSteps(g: Corrector, s: seq<uint16>, f: CheckFn, d: uint8, c: uint8, syndrome: uint8,
                       err: uint16, w: nat)
    requires CorrectsWith(g, s, f) && syndrome == f(d) ^ c && err == At(s, syndrome) && w == Weight(WordBits(err))
    ensures g(d, c) == (d ^ LowByte(err), w > 1)
  {
    assert Acts(g, s, f, d, c);
    CorrectionSteps(s, f, d, c, syndrome, err, w);
  }

  lemma CorrectorIsExact(g: Corrector, s: seq<uint16>, f: CheckFn, d: uint8, fl: Flips)
    requires CorrectsWith(g, s, f) && Linear(f) && Distance4(f) && Inverts(s, f)
    requires ByteWeight(fl.data) + ByteWeight(fl.check) <= 2
    ensures ExactOn(g, f, d, fl)
  {
    assert Acts(g, s, f, d ^ fl.data, f(d) ^ fl.check);
    VerdictOnByte(s, f, d, fl.data, fl.check, g(d ^ fl.data, f(d) ^ fl.check));
  }

  lemma CorrectorSettles(g: Corrector, s: seq<uint16>, f: CheckFn, d: uint8, c: uint8)
    requires CorrectsWith(g, s, f) && Linear(f) && Inverts(s, f)
    ensures SettlesOn(g, f, d, c)
  {
    assert Acts(g, s, f, d, c);
    CorrectedIsCodeword(s, f, d, c);
    CorrectionIsIdempotent(s, f, d, c);
    assert Acts(g, s, f, g(d, c).0, c);
  }

  function CorrectedData(g: Corrector, ds: seq<uint8>, cs: seq<uint8>): (r: seq<uint8>)
    requires |ds| == |cs|
    ensures |r| == |ds| && forall i :: 0 <= i < |ds| ==> r[i] == g(ds[i], cs[i]).0
  {
    seq(|ds|, i requires 0 <= i < |ds| => g(ds[i], cs[i]).0)
  }

  function Flagged(g: Corrector, ds: seq<uint8>, cs: seq<uint8>): (r: seq<bool>)
    requires |ds| == |cs|
    ensures |r| == |ds| && forall i :: 0 <= i < |ds| ==> r[i] == g(ds[i], cs[i]).1
  {
    seq(|ds|, i requires 0 <= i < |ds| => g(ds[i], cs[i]).1)
  }

  // The return code of correction: zero when no byte is flagged.
  function ReturnCode(flags: seq<bool>): int {
    if true in flags then -1 else 0
  }

  // A flip of at most two bits in every pair.
  ghost predicate AtMostTwo(fl: seq<Flips>) {
    forall i :: 0 <= i < |fl| ==> ByteWeight(fl[i].data) + ByteWeight(fl[i].check) <= 2
  }

  // Byte i of a message and its flag, after noise and correction.
  ghost predicate ByteVerdict(sent: uint8, fl: Flips, out: uint8, flag: bool) {
    && (!flag <==> fl.check == 0 && ByteWeight(fl.data) <= 1)
    && (!flag ==> out == sent)
  }

  lemma VerdictAt(g: Corrector, f: CheckFn, d: uint8, fl: Flips, rd: uint8, rc: uint8)
    requires ExactOn(g, f, d, fl) && rd == d ^ fl.data && rc == f(d) ^ fl.check
    ensures ByteVerdict(d, fl, g(rd, rc).0, g(rd, rc).1)
  {
  }

  /** Encoded, disturbed by at most two flips in each pair and corrected, a message has byte i
      passed as good exactly when no check bit and at most one data bit of it was flipped; those
      bytes are the ones sent. So a return code of zero means the whole message is restored. */
  lemma MessageVerdict(g: Corrector, s: seq<uint16>, f: CheckFn, ds: seq<uint8>, fl: seq<Flips>)
    requires CorrectsWith(g, s, f) && Linear(f) && Distance4(f) && Inverts(s, f)
    requires |fl| == |ds| && AtMostTwo(fl)
    ensures var rd, rc := NoisyData(ds, fl), NoisyControl(Controls(f, ds), fl);
      var out, flags := CorrectedData(g, rd, rc), Flagged(g, rd, rc);
      && (forall i :: 0 <= i < |ds| ==> ByteVerdict(ds[i], fl[i], out[i], flags[i]))
      && (ReturnCode(flags) == 0 ==> out == ds)
  {
    var rd, rc := NoisyData(ds, fl), NoisyControl(Controls(f, ds), fl);
    var out, flags := CorrectedData(g, rd, rc), Flagged(g, rd, rc);
    forall i | 0 <= i < |ds| ensures ByteVerdict(ds[i], fl[i], out[i], flags[i]) {
      CorrectorIsExact(g, s, f, ds[i], fl[i]);
      VerdictAt(g, f, ds[i], fl[i], rd[i], rc[i]);
    }
    if ReturnCode(flags) == 0 {
      forall i | 0 <= i < |ds| ensures out[i] == ds[i] {
        assert flags[i] in flags;
      }
    }
  }

  // Byte i of a message and its flag, for any noise.
  ghost predicate NoiseShows(f: CheckFn, sent: uint8, fl: Flips, out: uint8, flag: bool) {
    && (!flag <==> NearCodeword(f, fl.data, fl.check))
    && (!flag ==> (out != sent <==> fl.check != 0))
  }

  lemma CorrectorShows(g: Corrector, s: seq<uint16>, f: CheckFn, d: uint8, fl: Flips, r: (uint8, bool))
    requires CorrectsWith(g, s, f) && Linear(f) && Inverts(s, f) && r == g(d ^ fl.data, f(d) ^ fl.check)
    ensures NoiseShows(f, d, fl, r.0, r.1)
  {
    assert Acts(g, s, f, d ^ fl.data, f(d) ^ fl.check);
    NoiseShown(s, f, d, fl.data, fl.check, r);
  }

  /** Whatever the noise, a byte is passed as good exactly when its noise is within one data bit of a
      codeword, and of the bytes passed those are wrong whose control byte was disturbed. */
  lemma AnyNoiseVerdict(g: Corrector, s: seq<uint16>, f: CheckFn, ds: seq<uint8>, fl: seq<Flips>)
    requires CorrectsWith(g, s, f) && Linear(f) && Inverts(s, f) && |fl| == |ds|
    ensures var rd, rc := NoisyData(ds, fl), NoisyControl(Controls(f, ds), fl);
      var out, flags := CorrectedData(g, rd, rc), Flagged(g, rd, rc);
      forall i :: 0 <= i < |ds| ==> NoiseShows(f, ds[i], fl[i], out[i], flags[i])
  {
    var rd, rc := NoisyData(ds, fl), NoisyControl(Controls(f, ds), fl);
    forall i | 0 <= i < |ds| ensures NoiseShows(f, ds[i], fl[i], CorrectedData(g, rd, rc)[i], Flagged(g, rd, rc)[i]) {
      CorrectorShows(g, s, f, ds[i], fl[i], g(rd[i], rc[i]));
    }
  }

  /** Whatever was received, a second correction changes no byte, flags none and returns zero. */
  lemma SecondPassIsIdle(g: Corrector, s: seq<uint16>, f: CheckFn, ds: seq<uint8>, cs: seq<uint8>)
    requires CorrectsWith(g, s, f) && Linear(f) && Inverts(s, f) && |ds| == |cs|
    ensures var out := CorrectedData(g, ds, cs);
      && Controls(f, out) == cs
      && CorrectedData(g, out, cs) == out
      && ReturnCode(Flagged(g, out, cs)) == 0
  {
    forall i | 0 <= i < |ds| ensures SettlesOn(g, f, ds[i], cs[i]) {
      CorrectorSettles(g, s, f, ds[i], cs[i]);
    }
  }

  /** With a table that nothing has built, correction passes every message as good, noise and all. */
  lemma UnbuiltTablePassesAll(g: Corrector, s: seq<uint16>, f: CheckFn, ds: seq<uint8>, cs: seq<uint8>)
    requires CorrectsWith(g, s, f) && |ds| == |cs| && forall i :: 0 <= i < NB_SYNDROMES ==> s[i] == 0
    ensures CorrectedData(g, ds, cs) == ds && ReturnCode(Flagged(g, ds, cs)) == 0
  {
    forall i | 0 <= i < |ds| ensures g(ds[i], cs[i]) == (ds[i], false) {
      assert Acts(g, s, f, ds[i], cs[i]);
      UnbuiltTableAcceptsAll(s, f, ds[i], cs[i]);
    }
  }

  /** With the table built, an undisturbed message survives correction exactly when its control
      bytes were filled in; left at zero, they erase every byte. */
  lemma SurvivesIffChecked(g: Corrector, s: seq<uint16>, f: CheckFn, ds: seq<uint8>, cs: seq<uint8>)
    requires CorrectsWith(g, s, f) && Linear(f) && Inverts(s, f) && |ds| == |cs|
    ensures CorrectedData(g, ds, cs) == ds <==> cs == Controls(f, ds)
    ensures (forall i :: 0 <= i < |cs| ==> cs[i] == 0) ==>
      forall i :: 0 <= i < |ds| ==> CorrectedData(g, ds, cs)[i] == 0
  {
    forall i | 0 <= i < |ds|
      ensures g(ds[i], cs[i]).0 == ds[i] <==> cs[i] == f(ds[i])
      ensures cs[i] == 0 ==> g(ds[i], cs[i]).0 == 0
    {
      assert Acts(g, s, f, ds[i], cs[i]);
      KeptIffChecked(s, f, ds[i], cs[i]);
      UncheckedByteIsErased(s, f, ds[i]);
    }
    if CorrectedData(g, ds, cs) == ds {
      forall i | 0 <= i < |ds| ensures cs[i] == Controls(f, ds)[i] {
        assert CorrectedData(g, ds, cs)[i] == ds[i];
      }
    }
  }

  // The part of a message that coding touches. The arrays have a fixed size; the first
  // msgLength bytes are in use.
  class MessageBuffers {
    var msg: array<uint8>
    var control: array<uint8>
    var error: array<bool>
    var msgLength: nat

    ghost predicate Valid()
      reads this
    {
      && msg.Length == control.Length == error.Length == MAX_MSG_LENGTH
      && msg != control && error as object !in {msg as object, control as object}
      && msgLength <= MAX_MSG_LENGTH
    }

    ghost function Data(): seq<uint8>
      requires Valid()
      reads this, msg
    {
      msg[..msgLength]
    }

    ghost function Check(): seq<uint8>
      requires Valid()
      reads this, control
    {
      control[..msgLength]
    }

    constructor ()
      ensures Valid() && fresh(msg) && fresh(control) && fresh(error) && msgLength == 0 && msg.Length == 512
    {
      msg := new uint8[MAX_MSG_LENGTH];
      control := new uint8[MAX_MSG_LENGTH];
      error := new bool[MAX_MSG_LENGTH];
      msgLength := 0;
    }

    method AddControlBits()
      requires Valid()
      modifies control
      ensures Check() == Controls(ControlFn(), Data())
      ensures control[msgLength..] == old(control[msgLength..])
    {
      ghost var f := ControlFn();
      for i := 0 to msgLength
        invariant forall j :: 0 <= j < i ==> control[j] == f(msg[j])
        invariant control[msgLength..] == old(control[msgLength..])
      {
        var c := CheckByteOf(msg[i]);
        control[i] := c;
      }
    }

    static method CorrectOne(s: array<uint16>, ghost g: Corrector, d: uint8, c: uint8) returns (d': uint8,
                             flagged: bool)
      requires CorrectsWith(g, s[..], ControlFn())
      ensures d' == g(d, c).0 && flagged == g(d, c).1
    {
      var syndrome := SyndromeOf(d, c);
      IndexBelow(syndrome);
      var err := s[Index(syndrome)];
      var w := WeightOf(err);
      CorrectorSteps(g, s[..], ControlFn(), d, c, syndrome, err, w);
      return d ^ LowByte(err), w > 1;
    }

    // s is the table as it stands when the message arrives, g the correction it makes.
    method CorrectError(s: array<uint16>, ghost g: Corrector) returns (rc: int)
      requires Valid() && CorrectsWith(g, s[..], ControlFn())
      modifies msg, error
      ensures Data() == CorrectedData(g, old(Data()), Check())
      ensures error[..msgLength] == Flagged(g, old(Data()), Check())
      ensures rc == ReturnCode(error[..msgLength]) == if true in error[..msgLength] then -1 else 0
      ensures msg[msgLength..] == old(msg[msgLength..]) && error[msgLength..] == old(error[msgLength..])
    {
      ghost var ds, cs := msg[..], control[..];
      ghost var good, bad := CorrectedData(g, ds, cs), Flagged(g, ds, cs);
      rc := 0;
      for i := 0 to msgLength
        invariant s[..] == old(s[..]) && control[..] == cs
        invariant forall j :: 0 <= j < i ==> msg[j] == good[j] && error[j] == bad[j]
        invariant forall j :: i <= j < MAX_MSG_LENGTH ==> msg[j] == ds[j]
        invariant forall j :: msgLength <= j < MAX_MSG_LENGTH ==> error[j] == old(error[j])
        invariant rc == ReturnCode(error[..i])
      {
        var d, e := CorrectOne(s, g, msg[i], control[i]);
        assert d == good[i] && e == bad[i];
        error[i] := e;
        assert error[..i + 1] == error[..i] + [e];
        if e {
          rc := -1;
        }
        msg[i] := d;
      }
    }

    method FlipBits(cw0: uint16, coin: Word) returns (cw: uint16)
      requires |coin| == N
      ensures WordBits(cw) == Xor(WordBits(cw0), coin)
    {
      cw := cw0;
      for b := 0 to N
        invariant forall j :: 0 <= j < N ==> WordBits(cw)[j] == (WordBits(cw0)[j] != (j < b && coin[j]))
      {
        ChgBits(b, cw);
        if coin[b] {
          cw := ChgNthBit(b, cw);
        }
      }
      assert WordBits(cw) == Xor(WordBits(cw0), coin);
    }

    // coins[i][b] says whether the noise flips bit b of pair i.
    method InsertError(coins: seq<Word>)
      requires Valid() && |coins| == msgLength && forall i :: 0 <= i < |coins| ==> |coins[i]| == N
      modifies msg, control
      ensures Data() == NoisyData(old(Data()), FlipsOf(coins))
      ensures Check() == NoisyControl(old(Check()), FlipsOf(coins))
      ensures msg[msgLength..] == old(msg[msgLength..]) && control[msgLength..] == old(control[msgLength..])
    {
      ghost var fl := FlipsOf(coins);
      for i := 0 to msgLength
        invariant forall j :: 0 <= j < i ==>
          msg[j] == old(msg[j]) ^ fl[j].data && control[j] == old(control[j]) ^ fl[j].check
        invariant forall j :: i <= j < MAX_MSG_LENGTH ==> msg[j] == old(msg[j]) && control[j] == old(control[j])
      {
        var cw := FlipBits(Join(msg[i], control[i]), coins[i]);
        FlippedPair(msg[i], control[i], coins[i], fl[i], cw);
        msg[i] := HighByte(cw);
        control[i] := LowByte(cw);
      }
    }
  }

  ghost predicate IsFlip(coin: Word, fl: Flips) {
    coin == ByteBits(fl.data) + ByteBits(fl.check)
  }

  lemma FlipExists(coin: Word)
    requires |coin| == N
    ensures exists fl :: IsFlip(coin, fl)
  {
    var fl := Flips(FromBits(coin[..8]), FromBits(coin[8..]));
    BitsOfFromBits(coin[..8]);
    BitsOfFromBits(coin[8..]);
    assert coin == coin[..8] + coin[8..];
    assert IsFlip(coin, fl);
  }

  // The bits the coins select, as a pair of bytes.
  ghost function FlipOf(coin: Word): (fl: Flips)
    requires |coin| == N
    ensures IsFlip(coin, fl)
  {
    FlipExists(coin);
    var fl :| IsFlip(coin, fl);
    fl
  }

  ghost function FlipsOf(coins: seq<Word>): (fl: seq<Flips>)
    requires forall i :: 0 <= i < |coins| ==> |coins[i]| == N
    ensures |fl| == |coins| && forall i :: 0 <= i < |coins| ==> fl[i] == FlipOf(coins[i])
  {
    seq(|coins|, i requires 0 <= i < |coins| => FlipOf(coins[i]))
  }

  lemma NoisyJoin(d: uint8, c: uint8, ed: uint8, ec: uint8)
    ensures WordBits(Join(d ^ ed, c ^ ec)) == Xor(WordBits(Join(d, c)), ByteBits(ed) + ByteBits(ec))
  {
    JoinBits(d, c);
    JoinBits(d ^ ed, c ^ ec);
    XorByteBits(d, ed);
    XorByteBits(c, ec);
    XorSplits(ByteBits(d), ByteBits(c), ByteBits(ed), ByteBits(ec));
  }

  lemma FlippedPair(d: uint8, c: uint8, coin: Word, fl: Flips, cw: uint16)
    requires |coin| == N && IsFlip(coin, fl) && WordBits(cw) == Xor(WordBits(Join(d, c)), coin)
    ensures HighByte(cw) == d ^ fl.data && LowByte(cw) == c ^ fl.check
  {
    NoisyJoin(d, c, fl.data, fl.check);
    WordBitsInjective(cw, Join(d ^ fl.data, c ^ fl.check));
    PartsOfJoin(d ^ fl.data, c ^ fl.check);
  }

  lemma PartsOfJoin(d: uint8, c: uint8)
    ensures HighByte(Join(d, c)) == d && LowByte(Join(d, c)) == c
  {
  }
}
