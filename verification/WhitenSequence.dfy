/** What whitening puts on air, stated on the output alone: the bits of a whitened buffer of zeros begin with
    a one and the channel number, most significant bit first, and go on by the recurrence of
    x^7 + x^4 + 1; whitening adds this sequence to any buffer. */
module WhitenSequence {
  import opened Bytes
  import opened CrcAlgebra
  import opened Whiten
  import opened Keystream
  import opened ChannelResidue

  /** The bits of `n` whitened zero bytes. */
  function Sequence(channel: Byte, n: nat): (r: seq<bool>)
    ensures |r| == 8 * n
  {
    Bits(Whitened(Zeros(n), channel))
  }

  lemma WhitenedZeros(channel: Byte, n: nat)
    ensures Whitened(Zeros(n), channel) == KeyStream(Seed(channel), n)
  {
    hide XorByte, KeyByte, StateAfter, Seed;
    forall i | 0 <= i < n
      ensures Whitened(Zeros(n), channel)[i] == KeyStream(Seed(channel), n)[i]
    {
      var k := KeyByte(StateAfter(Seed(channel), i));
      XorByteAssoc(0, k, k);
      XorByteUnit(k, k);
    }
  }

  lemma SequenceIsStream(channel: Byte, n: nat)
    ensures Sequence(channel, n) == StreamBits(Seed(channel), 8 * n)
  {
    hide Bits, Whitened, KeyStream, StreamBits, Seed;
    WhitenedZeros(channel, n);
    KeyStreamBits(Seed(channel), n);
  }

  /** Seven steps bring the sum of the first and the fourth bit to the top. */
  lemma TopRecurrence(l: Lfsr)
    ensures Top(Next(Next(Next(Next(Next(Next(Next(l)))))))) == (Top(l) != Top(Next(Next(Next(l)))))
  {}

  lemma AdvanceSeven(l: Lfsr)
    ensures Advance(l, 3) == Next(Next(Next(l)))
    ensures Advance(l, 7) == Next(Next(Next(Next(Next(Next(Next(l)))))))
  {
    hide Next;
  }

  lemma {:induction false} AdvanceAdd(l: Lfsr, m: nat, n: nat)
    ensures Advance(l, m + n) == Advance(Advance(l, m), n)
    decreases m
  {
    hide Next;
    if m > 0 {
      AdvanceAdd(Next(l), m - 1, n);
    }
  }

  lemma StreamRecurrence(l: Lfsr, n: nat, i: nat)
    requires i + 7 < n
    ensures StreamBits(l, n)[i + 7] == (StreamBits(l, n)[i] != StreamBits(l, n)[i + 3])
  {
    hide Next, Top, StreamBits, Advance;
    StreamBitsAt(l, n, i);
    StreamBitsAt(l, n, i + 3);
    StreamBitsAt(l, n, i + 7);
    AdvanceAdd(l, i, 3);
    AdvanceAdd(l, i, 7);
    AdvanceSeven(Advance(l, i));
    TopRecurrence(Advance(l, i));
  }

  lemma StreamStart(l: Lfsr, n: nat)
    requires n >= 8
    ensures var s := StreamBits(l, n);
            && s[0] == (l & 0x40 != 0) && s[1] == (l & 0x20 != 0) && s[2] == (l & 0x10 != 0) && s[3] == (l & 0x08 != 0)
            && s[4] == (l & 0x04 != 0) && s[5] == (l & 0x02 != 0) && s[6] == (l & 0x01 != 0)
  {
    hide Next, StreamBits;
    StreamStates(l, n);
    TopShowsRegister(l);
  }

  lemma StreamStates(l: Lfsr, n: nat)
    requires n >= 8
    ensures var l1 := Next(l); var l2 := Next(l1); var l3 := Next(l2); var l4 := Next(l3); var l5 := Next(l4); var l6 := Next(l5);
            var s := StreamBits(l, n);
            && s[0] == Top(l) && s[1] == Top(l1) && s[2] == Top(l2) && s[3] == Top(l3)
            && s[4] == Top(l4) && s[5] == Top(l5) && s[6] == Top(l6)
  {
    hide Next, Top, StreamBits;
    StreamBitsAt(l, n, 0); StreamBitsAt(l, n, 1); StreamBitsAt(l, n, 2); StreamBitsAt(l, n, 3);
    StreamBitsAt(l, n, 4); StreamBitsAt(l, n, 5); StreamBitsAt(l, n, 6);
  }

  lemma SeedBits(channel: Byte)
    ensures var l := Seed(channel);
            && l & 0x40 != 0
            && (l & 0x20 != 0) == (channel & 0x20 != 0) && (l & 0x10 != 0) == (channel & 0x10 != 0)
            && (l & 0x08 != 0) == (channel & 0x08 != 0) && (l & 0x04 != 0) == (channel & 0x04 != 0)
            && (l & 0x02 != 0) == (channel & 0x02 != 0) && (l & 0x01 != 0) == (channel & 0x01 != 0)
  {}

  /** The whitening sequence of every channel, at every length. */
  lemma WhiteningSequence(channel: Byte, n: nat)
    requires n >= 1
    ensures var s := Sequence(channel, n);
            && s[0]
            && s[1] == (channel & 0x20 != 0) && s[2] == (channel & 0x10 != 0) && s[3] == (channel & 0x08 != 0)
            && s[4] == (channel & 0x04 != 0) && s[5] == (channel & 0x02 != 0) && s[6] == (channel & 0x01 != 0)
            && forall i :: 0 <= i < 8 * n - 7 ==> s[i + 7] == (s[i] != s[i + 3])
  {
    hide Sequence, StreamBits, Seed;
    SequenceIsStream(channel, n);
    StreamStart(Seed(channel), 8 * n);
    SeedBits(channel);
    forall i | 0 <= i < 8 * n - 7
      ensures var s := Sequence(channel, n); s[i + 7] == (s[i] != s[i + 3])
    {
      StreamRecurrence(Seed(channel), 8 * n, i);
    }
  }

  /** Whitening any buffer adds that sequence. */
  lemma WhitenedAddsSequence(buf: seq<Byte>, channel: Byte)
    ensures Whitened(buf, channel) == XorBytes(Whitened(Zeros(|buf|), channel), buf)
  {
    hide Whitened, XorByte;
    WhitenCarriesError(Zeros(|buf|), buf, channel);
    forall i | 0 <= i < |buf|
      ensures XorBytes(Zeros(|buf|), buf)[i] == buf[i]
    {
      XorByteAssoc(0, buf[i], 0);
      XorByteUnit(buf[i], 0);
    }
    assert XorBytes(Zeros(|buf|), buf) == buf;
  }
}
