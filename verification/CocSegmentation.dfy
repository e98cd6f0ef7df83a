/** Service data units on a credit-based channel: reassembly does not depend on how the SDU was cut into
    frames. */
module CocSegmentation {
  import opened Wrappers
  import opened Octets
  import opened Link
  import opened Handlers

  function RxFrames(s: Link, frames: seq<seq<u8>>): Link
    decreases |frames|
  {
    if frames == [] then s else RxFrames(RxCocSdu(s, frames[0], Idle).0, frames[1..])
  }

  function Concat(frames: seq<seq<u8>>): seq<u8>
    decreases |frames|
  {
    if frames == [] then [] else frames[0] + Concat(frames[1..])
  }

  /** The link after an SDU is complete: the credit is queued and the application sees the SDU. */
  function Completed(s: Link, sdu: seq<u8>): Link
    requires s.coc.Some?
  {
    var c := s.coc.value;
    var data := sdu[..Min(|sdu|, RX_DATA_SIZE)];
    QueueSignaling(s.(coc := Some(c.(rxSdu := [], rxSduTotal := 0))), CreditMsg(c.peerCid)).(rxData := data, log := s.log + [Sdu(data)])
  }

  /** The link with the first `m` bytes of `sdu` collected. */
  function Collected(s: Link, sdu: seq<u8>, m: nat): Link
    requires s.coc.Some? && m <= |sdu|
  {
    s.(coc := Some(s.coc.value.(rxSdu := sdu[..m], rxSduTotal := |sdu|)))
  }

  lemma ConcatEmpty(frames: seq<seq<u8>>)
    requires Concat(frames) == [] && forall i :: 0 <= i < |frames| ==> frames[i] != []
    ensures frames == []
  {}

  lemma {:induction false} CollectRest(s: Link, sdu: seq<u8>, m: nat, rest: seq<seq<u8>>, k: nat)
    requires s.coc.Some? && 0 < m < |sdu| <= RX_SDU_SIZE && k <= |rest|
    requires sdu[m..] == Concat(rest) && forall i :: 0 <= i < |rest| ==> rest[i] != []
    ensures var t := RxFrames(Collected(s, sdu, m), rest[..k]);
            if k < |rest| then t.coc.Some? && t == s.(coc := t.coc) else t == Completed(s, sdu)
    decreases k
  {
    if k > 0 {
      var f := rest[0];
      var n := m + |f|;
      assert sdu[m..][..|f|] == f && sdu[m..][|f|..] == Concat(rest[1..]);
      assert sdu[..m] + f == sdu[..n] && f[..|f|] == f && sdu[n..] == sdu[m..][|f|..];
      assert rest[..k][0] == f && rest[..k][1..] == rest[1..][..k - 1];
      if n < |sdu| {
        assert RxCocSdu(Collected(s, sdu, m), f, Idle).0 == Collected(s, sdu, n);
        CollectRest(s, sdu, n, rest[1..], k - 1);
      } else {
        ConcatEmpty(rest[1..]);
        assert sdu[..|sdu|] == sdu && rest[1..][..k - 1] == [];
      }
    }
  }

  /** For every SDU that fits the buffer and every cut into frames whose first carries the length and at
      least one byte of a non-empty SDU: the SDU is reported once, on the last frame, together with one
      queued credit; before that nothing but the channel's collection state changes. The application
      sees at most 244 of the up to 247 bytes the channel advertises. */
  lemma SegmentationIndependent(s: Link, sdu: seq<u8>, first: seq<u8>, rest: seq<seq<u8>>, k: nat)
    requires s.coc.Some? && s.coc.value.rxSdu == [] && |sdu| <= 256
    requires first + Concat(rest) == sdu && (forall i :: 0 <= i < |rest| ==> rest[i] != []) && (first == [] ==> rest == [])
    requires k <= 1 + |rest|
    ensures var frames := [ToLe16(|sdu|) + first] + rest;
            var t := RxFrames(s, frames[..k]);
            if k < |frames| then t.coc.Some? && t == s.(coc := t.coc)
            else t == Completed(s, sdu) && t.rxData == sdu[..Min(|sdu|, 244)] && t.log == s.log + [Sdu(t.rxData)]
                 && t.tx == Tx([0x16, 0, s.coc.value.peerCid % 256, s.coc.value.peerCid / 256, 1, 0], 0, true, 0x0005)
                 && t.coc == Some(s.coc.value.(rxSdu := [], rxSduTotal := 0))
  {
    hide ToLe16, RxCocSdu, Completed, Collected;
    CompletedMeans(s, sdu);
    var head := ToLe16(|sdu|) + first;
    var frames := [head] + rest;
    if k > 0 {
      assert frames[..k][0] == head && frames[..k][1..] == rest[..k - 1];
      assert sdu[..|first|] == first;
      FirstFrame(s, sdu, first);
      if rest == [] {
        assert first == sdu;
      } else {
        assert |first| < |sdu| && sdu[|first|..] == Concat(rest);
        CollectRest(s, sdu, |first|, rest, k - 1);
      }
    }
  }

  lemma CompletedMeans(s: Link, sdu: seq<u8>)
    requires s.coc.Some?
    ensures var t := Completed(s, sdu);
            && t.rxData == sdu[..Min(|sdu|, 244)] && t.log == s.log + [Sdu(t.rxData)]
            && t.tx == Tx([0x16, 0, s.coc.value.peerCid % 256, s.coc.value.peerCid / 256, 1, 0], 0, true, 0x0005)
            && t.coc == Some(s.coc.value.(rxSdu := [], rxSduTotal := 0))
  {
    var m := CreditMsg(s.coc.value.peerCid);
    assert m[..6] == m == [0x16, 0, s.coc.value.peerCid % 256, s.coc.value.peerCid / 256, 1, 0];
  }

  lemma {:induction false} RxFramesSnoc(s: Link, frames: seq<seq<u8>>, f: seq<u8>)
    ensures RxFrames(s, frames + [f]) == RxCocSdu(RxFrames(s, frames), f, Idle).0
    decreases |frames|
  {
    hide RxCocSdu;
    if frames == [] {
      assert ([] + [f])[1..] == [];
    } else {
      assert (frames + [f])[1..] == frames[1..] + [f];
      RxFramesSnoc(RxCocSdu(s, frames[0], Idle).0, frames[1..], f);
    }
  }

  /** The event of every frame: `Data` for the last one and none before. */
  lemma DataOnLastFrame(s: Link, sdu: seq<u8>, first: seq<u8>, rest: seq<seq<u8>>, k: nat)
    requires s.coc.Some? && s.coc.value.rxSdu == [] && |sdu| <= 256
    requires first + Concat(rest) == sdu && (forall i :: 0 <= i < |rest| ==> rest[i] != []) && (first == [] ==> rest == [])
    requires k <= |rest|
    ensures var frames := [ToLe16(|sdu|) + first] + rest;
            RxCocSdu(RxFrames(s, frames[..k]), frames[k], Idle).1 == if k == |rest| then Data else Idle
  {
    hide ToLe16, RxCocSdu, RxFrames, Completed;
    var frames := [ToLe16(|sdu|) + first] + rest;
    SegmentationIndependent(s, sdu, first, rest, k);
    SegmentationIndependent(s, sdu, first, rest, k + 1);
    assert frames[..k + 1] == frames[..k] + [frames[k]];
    RxFramesSnoc(s, frames[..k], frames[k]);
    SduEvent(RxFrames(s, frames[..k]), frames[k], Idle);
  }

  lemma FirstFrame(s: Link, sdu: seq<u8>, first: seq<u8>)
    requires s.coc.Some? && s.coc.value.rxSdu == [] && first <= sdu && |sdu| <= RX_SDU_SIZE
    ensures var t := RxCocSdu(s, ToLe16(|sdu|) + first, Idle).0;
            t == if first == sdu then Completed(s, sdu) else Collected(s, sdu, |first|)
  {
    hide ToLe16, FromLe16, QueueSignaling;
    var head := ToLe16(|sdu|) + first;
    Le16RoundTrip(|sdu|);
    assert head[2..2 + |first|] == first && sdu[..|first|] == first && sdu[..|sdu|] == sdu;
  }

  /** However it was cut into frames, an SDU of up to 256 bytes reaches the application whole exactly when
      it has at most 244. */
  lemma IntactUpTo244(s: Link, sdu: seq<u8>, first: seq<u8>, rest: seq<seq<u8>>)
    requires s.coc.Some? && s.coc.value.rxSdu == [] && |sdu| <= 256
    requires first + Concat(rest) == sdu && (forall i :: 0 <= i < |rest| ==> rest[i] != []) && (first == [] ==> rest == [])
    ensures RxFrames(s, [ToLe16(|sdu|) + first] + rest).log == s.log + [Sdu(sdu)] <==> |sdu| <= RX_DATA_SIZE
  {
    hide RxFrames, ToLe16;
    var frames := [ToLe16(|sdu|) + first] + rest;
    SegmentationIndependent(s, sdu, first, rest, |frames|);
    assert frames[..|frames|] == frames;
    CompletedCut(s, sdu);
  }

  lemma CompletedCut(s: Link, sdu: seq<u8>)
    requires s.coc.Some? && |sdu| <= RX_SDU_SIZE
    ensures Completed(s, sdu).log == s.log + [Sdu(sdu)] <==> |sdu| <= RX_DATA_SIZE
  {
    var data := sdu[..Min(|sdu|, RX_DATA_SIZE)];
    assert (s.log + [Sdu(data)])[|s.log|] == Sdu(data);
    assert (s.log + [Sdu(sdu)])[|s.log|] == Sdu(sdu);
    if |sdu| <= RX_DATA_SIZE {
      assert data == sdu;
    }
  }

  // ---------- What cannot be delivered ----------

  /** Bytes of an unfinished SDU. */
  function Held(s: Link): nat { if s.coc.Some? then |s.coc.value.rxSdu| else 0 }

  /** From `s` to `t` only SDUs of at most `n` bytes were reported, and at most `n` bytes are held. */
  ghost predicate Bounded(s: Link, t: Link, n: nat) {
    && s.log <= t.log && Held(t) <= n
    && forall i :: |s.log| <= i < |t.log| && t.log[i].Sdu? ==> |t.log[i].bytes| <= n
  }

  lemma BoundedTrans(s: Link, t: Link, u: Link, m: nat, n: nat)
    requires Bounded(s, t, m) && Bounded(t, u, n) && m <= n
    ensures Bounded(s, u, n)
  {}

  lemma FrameBound(s: Link, f: seq<u8>)
    ensures Bounded(s, RxCocSdu(s, f, Idle).0, Held(s) + |f|)
    ensures Held(s) == 0 ==> Bounded(s, RxCocSdu(s, f, Idle).0, if |f| >= 2 then |f| - 2 else 0)
  {
    hide Word, CreditMsg;
  }

  lemma {:induction false} FramesBound(s: Link, frames: seq<seq<u8>>)
    ensures Bounded(s, RxFrames(s, frames), Held(s) + |Concat(frames)|)
    decreases |frames|
  {
    hide RxCocSdu, Bounded;
    if frames == [] {
      BoundedSelf(s);
    } else {
      var t := RxCocSdu(s, frames[0], Idle).0;
      FrameBound(s, frames[0]);
      FramesBound(t, frames[1..]);
      HeldBound(s, t, Held(s) + |frames[0]|);
      BoundedWeaken(t, RxFrames(t, frames[1..]), Held(t) + |Concat(frames[1..])|, Held(s) + |Concat(frames)|);
      BoundedTrans(s, t, RxFrames(t, frames[1..]), Held(s) + |frames[0]|, Held(s) + |Concat(frames)|);
    }
  }

  lemma BoundedSelf(s: Link)
    ensures Bounded(s, s, Held(s))
  {}

  lemma HeldBound(s: Link, t: Link, n: nat)
    requires Bounded(s, t, n)
    ensures Held(t) <= n
  {}

  lemma BoundedWeaken(s: Link, t: Link, m: nat, n: nat)
    requires Bounded(s, t, m) && m <= n
    ensures Bounded(s, t, n)
  {}

  /** A first frame with only the length field loses the SDU: the next frame is taken for a new one. With
      `SegmentationIndependent` the condition on the first frame is exact. */
  lemma HeadlessSduIsLost(s: Link, sdu: seq<u8>, rest: seq<seq<u8>>)
    requires s.coc.Some? && s.coc.value.rxSdu == [] && 0 < |sdu| <= RX_SDU_SIZE
    requires Concat(rest) == sdu && forall i :: 0 <= i < |rest| ==> rest[i] != []
    ensures var t := RxFrames(s, [ToLe16(|sdu|)] + rest);
            s.log <= t.log && Sdu(sdu) !in t.log[|s.log|..]
  {
    hide ToLe16, FromLe16, RxCocSdu, Bounded, Held, Concat;
    var frames := [ToLe16(|sdu|)] + rest;
    HeadOnly(s, |sdu|);
    var s1 := RxCocSdu(s, ToLe16(|sdu|), Idle).0;
    assert frames[0] == ToLe16(|sdu|) && frames[1..] == rest;
    FreshFramesBound(s1, rest);
    NotReported(s1, RxFrames(s1, rest), sdu, |sdu| - 1);
  }

  /** Starting between SDUs, two bytes of the frames are spent on a length field. */
  lemma FreshFramesBound(s: Link, rest: seq<seq<u8>>)
    requires Held(s) == 0 && Concat(rest) != [] && forall i :: 0 <= i < |rest| ==> rest[i] != []
    ensures Bounded(s, RxFrames(s, rest), |Concat(rest)| - 1)
  {
    hide RxCocSdu, Bounded, Held;
    var t := RxCocSdu(s, rest[0], Idle).0;
    FrameBound(s, rest[0]);
    var n := if |rest[0]| >= 2 then |rest[0]| - 2 else 0;
    HeldBound(s, t, n);
    FramesBound(t, rest[1..]);
    var u := RxFrames(t, rest[1..]);
    BoundedWeaken(t, u, Held(t) + |Concat(rest[1..])|, |Concat(rest)| - 1);
    BoundedTrans(s, t, u, n, |Concat(rest)| - 1);
  }

  lemma HeadOnly(s: Link, n: u16)
    requires s.coc.Some? && s.coc.value.rxSdu == [] && n > 0
    ensures var t := RxCocSdu(s, ToLe16(n), Idle).0; Held(t) == 0 && t.log == s.log
  {
    Le16RoundTrip(n);
  }

  lemma NotReported(s: Link, t: Link, sdu: seq<u8>, n: nat)
    requires Bounded(s, t, n) && n < |sdu|
    ensures s.log <= t.log && Sdu(sdu) !in t.log[|s.log|..]
  {}
}
