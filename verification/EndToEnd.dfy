/**
 End-to-end safety of one epoch.

 The sender runs through any sequence of frames, path-count changes and drops, as long
 as no parity that the receiver takes has exactly one number of its group dropped;
 CorruptingLoss and SpoiledRuns show that this condition is exact.  Dropped frames are
 never sent.  The network may lose, repeat, delay and interleave what was emitted in
 any way.  Whatever the receiver hands to the interface at number n is the payload the
 sender numbered n, and the numbers strictly increase, whether a frame was received or
 reconstructed.
 */
module EndToEnd {
  import opened Xor
  import opened Wire
  import opened FecControl
  import opened FecParity
  import opened FecEncoder
  import Modes = SenderModes
  import opened ParityGenuine
  import opened AcceptedParities
  import opened GroupDecoder
  import opened DecoderSoundness
  import opened Reorder
  import opened RecoveryComplete
  import opened RxPath

  /** A wire frame the sender produced in a run that ended in t: a frame that was not dropped, a parity or a control. */
  ghost predicate Emitted(t: Modes.Sender, f: VpnFrame) {
    if f.n > 0 then GenuineFrame(t.sent, f) && f.n !in t.lost
    else exists i :: 0 <= i < |t.log| && f.data == WireOf(t.enc.ic, t.log[i])
  }

  function WireOf(ic: Cipher, x: Modes.Item): Bytes {
    match x
    case Par(start, datas) => ParityOf(ic, start, datas)
    case Ctl(c, _) => EncodeMode(c)
  }

  datatype RxEvent = Batch(fs: seq<VpnFrame>) | GapTimer

  function RxStep(s: Rx, ev: RxEvent): (t: Rx)
    requires s.Sane()
    ensures t.Sane() && s.SameFec(t)
  {
    match ev
    case Batch(fs) => s.Process(fs).0
    case GapTimer => s.Expire()
  }

  function RxRun(s: Rx, evs: seq<RxEvent>): (t: Rx)
    requires s.Sane()
    ensures t.Sane()
    decreases |evs|
  {
    if evs == [] then s else RxRun(RxStep(s, evs[0]), evs[1..])
  }

  /** The delivery queue takes or drops whole batches; what reaches the interface is what it took. */
  function Output(handed: seq<seq<VpnFrame>>, taken: seq<bool>): seq<VpnFrame>
    requires |taken| == |handed|
  {
    if handed == [] then []
    else
      var n := |handed| - 1;
      Output(handed[..n], taken[..n]) + if taken[n] then handed[n] else []
  }

  // ---- what the sender emits is acceptable to the receiver ----

  lemma EmittedParity(t: Modes.Sender, x: Modes.Item)
    requires x.Par? && GroupSize(t.enc.k) && Sealed(x, t.sent, t.lost, t.enc.k) && |t.sent| < U32
    requires Taken(x, t.enc.k) ==> !Spoiled(t.lost, x.start, t.enc.k)
    ensures GenuineInput(t.sent, t.lost, t.enc.k, t.enc.ic, ParityIn(WireOf(t.enc.ic, x)))
  {
    hide ParseHeader, EncodeParity, Lengths, Body, Aligned, Spoiled, Sealed, NoneLost, TwoLost;
    assert |x.datas| == t.enc.k && x.start < U32 by { SealedSize(x, t.sent, t.lost, t.enc.k); }
    if Aligned(x.start, t.enc.k) {
      HeaderNamesStart(t.enc.ic, x.start, Lengths(x.datas), Body(x.datas));
      NoneOrTwo(t.lost, x.start, t.enc.k);
      if NoneLost(t.lost, x.start, t.enc.k) {
        WholeIsCovered(x, t.sent, t.lost, t.enc.k);
      }
    } else {
      MisalignedRejected(x, t.enc.ic, t.enc.k);
    }
  }

  lemma SealedSize(x: Modes.Item, sent: seq<Bytes>, lost: set<nat>, k: nat)
    requires x.Par? && Sealed(x, sent, lost, k)
    ensures |x.datas| == k && x.start < U32
  {
  }

  lemma ModeIsNotParity(c: ModeControl)
    ensures !ParseControl(EncodeMode(c)).ParityFrame?
  {
  }

  lemma EmittedArrives(t: Modes.Sender, s: Rx, f: VpnFrame)
    requires SealInv(t) && SafeLog(t) && Emitted(t, f) && s.Sane()
    requires s.fec.Some? ==> s.fec.value.k == t.enc.k && s.fec.value.ic == t.enc.ic
    ensures Arrives(t.sent, t.lost, s, f)
  {
    hide Sealed, OpenIsRest, Spoiled, GenuineInput, ParityOf, EncodeMode;
    if f.n == 0 {
      var i :| 0 <= i < |t.log| && f.data == WireOf(t.enc.ic, t.log[i]);
      match t.log[i]
      case Par(start, datas) => EmittedParity(t, t.log[i]);
      case Ctl(c, _) => ModeIsNotParity(c);
    }
  }

  // ---- every run of the receiver ----

  ghost predicate AllEmitted(t: Modes.Sender, evs: seq<RxEvent>) {
    forall i, j :: 0 <= i < |evs| && evs[i].Batch? && 0 <= j < |evs[i].fs| ==> Emitted(t, evs[i].fs[j])
  }

  lemma {:induction false} RxRunInv(t: Modes.Sender, s: Rx, evs: seq<RxEvent>)
    requires SealInv(t) && SafeLog(t) && Inv(t.sent, t.lost, s) && s.Sane() && AllEmitted(t, evs)
    requires s.fec.Some? ==> s.fec.value.k == t.enc.k && s.fec.value.ic == t.enc.ic
    ensures Inv(t.sent, t.lost, RxRun(s, evs))
    decreases |evs|
  {
    hide Rx.Process, Rx.Expire, SealInv, SafeLog, Emitted, Decoder.Valid, GenuineGroups, Reorder<VpnFrame>.Valid;
    if evs != [] {
      match evs[0] {
        case Batch(fs) =>
          forall j | 0 <= j < |fs| ensures Arrives(t.sent, t.lost, s, fs[j]) {
            EmittedArrives(t, s, fs[j]);
          }
          ProcessInv(t.sent, t.lost, s, fs);
        case GapTimer =>
          ExpireInv(t.sent, t.lost, s);
      }
      RxRunInv(t, RxStep(s, evs[0]), evs[1..]);
    }
  }

  lemma {:induction false} OutputOfLog(handed: seq<seq<VpnFrame>>, taken: seq<bool>)
    requires |taken| == |handed|
    ensures Increasing(Concat(handed)) ==> Increasing(Output(handed, taken))
    ensures forall f :: f in Output(handed, taken) ==> f in Concat(handed)
  {
    if handed != [] {
      var n := |handed| - 1;
      OutputOfLog(handed[..n], taken[..n]);
      hide Increasing;
      if Increasing(Concat(handed)) {
        KeptIncreasing(Output(handed[..n], taken[..n]), Concat(handed[..n]), handed[n]);
      }
    }
  }

  /** Leaving out whole batches leaves the rest in order. */
  lemma KeptIncreasing(kept: seq<VpnFrame>, front: seq<VpnFrame>, rest: seq<VpnFrame>)
    requires Increasing(front + rest) && forall f :: f in kept ==> f in front
    ensures Increasing(front) && (Increasing(kept) ==> Increasing(kept + rest))
  {
    var whole := front + rest;
    assert forall i :: 0 <= i < |front| ==> whole[i] == front[i];
    assert forall i :: 0 <= i < |rest| ==> whole[|front| + i] == rest[i];
    if Increasing(kept) {
      forall i, j | 0 <= i < j < |kept + rest| ensures (kept + rest)[i].n < (kept + rest)[j].n {
        if i < |kept| <= j {
          assert kept[i] in front;
          var a :| 0 <= a < |front| && front[a] == kept[i];
          assert whole[|front| + (j - |kept|)] == rest[j - |kept|];
        } else if |kept| <= i {
          assert whole[|front| + (i - |kept|)] == rest[i - |kept|];
          assert whole[|front| + (j - |kept|)] == rest[j - |kept|];
        }
      }
    }
  }

  /** The receiver agrees with the sender on group size and key, or runs without FEC. */
  ghost predicate Matches(fec: Option<Decoder>, k: int, ic: Cipher) {
    fec.Some? ==> fec.value == NewDecoder(k, ic)
  }

  /**
   The theorem.  evs is the sender's run, rx the receiver's; taken says which
   batches the delivery queue had room for.
   */
  lemma EndToEndSafety(k: int, ic: Cipher, evs: seq<Modes.Event>, t: Modes.Sender,
                       fec: Option<Decoder>, rx: seq<RxEvent>, taken: seq<bool>)
    requires Modes.Reaches(Modes.Start(k, ic), evs, t) && SafeLog(t)
    requires Sendable(t.sent) && |t.sent| <= LAST_ORDERED
    requires Matches(fec, k, ic) && AllEmitted(t, rx)
    requires |taken| == |RxRun(NewRx(fec), rx).handed|
    ensures var out := Output(RxRun(NewRx(fec), rx).handed, taken);
            && Increasing(out)
            && forall i :: 0 <= i < |out| ==> GenuineFrame(t.sent, out[i])
  {
    hide RxRun, Modes.Reaches, Output, SafeLog, SealInv;
    var s := NewRx(fec);
    StartSafe(k, ic);
    RunSealed(Modes.Start(k, ic), evs, t);
    Modes.SameGroupSize(Modes.Start(k, ic), evs, t);
    NewRxInv(t.sent, t.lost, fec, k, ic);
    RxRunInv(t, s, rx);
    var u := RxRun(s, rx);
    HandedGood(t.sent, t.lost, u, taken);
  }

  lemma NewRxInv(sent: seq<Bytes>, lost: set<nat>, fec: Option<Decoder>, k: int, ic: Cipher)
    requires Sendable(sent) && |sent| <= LAST_ORDERED && Matches(fec, k, ic)
    ensures NewRx(fec).Sane() && Inv(sent, lost, NewRx(fec))
  {
  }

  lemma HandedGood(sent: seq<Bytes>, lost: set<nat>, u: Rx, taken: seq<bool>)
    requires Inv(sent, lost, u) && |taken| == |u.handed|
    ensures Increasing(Output(u.handed, taken))
    ensures forall i :: 0 <= i < |Output(u.handed, taken)| ==> GenuineFrame(sent, Output(u.handed, taken)[i])
  {
    var log, front := Log(u), Concat(u.handed);
    assert forall i :: 0 <= i < |front| ==> log[i] == front[i];
    assert Increasing(front);
    OutputOfLog(u.handed, taken);
    forall i | 0 <= i < |Output(u.handed, taken)|
      ensures GenuineFrame(sent, Output(u.handed, taken)[i])
    {
      assert Output(u.handed, taken)[i] in front;
      var a :| 0 <= a < |front| && front[a] == Output(u.handed, taken)[i];
      assert log[a] == front[a];
    }
  }

  // ---- a loss inside a group really corrupts ----

  /**
   With K = 2, losing numbered frame 2 between frames 1 and 3 makes the encoder
   emit a parity over 1 and 3 that the receiver reads as a parity over 1 and 2: it
   reconstructs frame 2 with the payload of frame 3.
   */
  lemma LossInsideGroupCorrupts(ic: Cipher, a: Bytes, b: Bytes, c: Bytes) returns (t: Modes.Sender, e: Decoder, out: seq<VpnFrame>)
    requires Sendable([a, b, c]) && b != c
    ensures Modes.Reaches(Modes.Start(2, ic), [Modes.Send(a), Modes.Lose([b]), Modes.Send(c)], t)
    ensures t.sent == [a, b, c] && t.log == [Modes.Par(1, [a, c])]
    ensures var xs := [(DataIn(1, a), 0), (ParityIn(WireOf(ic, t.log[0])), 0)];
            DecoderSoundness.Reaches(NewDecoder(2, ic), xs, e, out)
    ensures VpnFrame(2, c) in out && !GenuineFrame(t.sent, VpnFrame(2, c))
  {
    hide DecoderSoundness.Reaches, Modes.Reaches, ParityOf;
    t := LossyRun(ic, a, b, c);
    NewDecoderIsQuiet([a, c], 2, ic, 1);
    assert [a, c][0] == [a, b, c][0] && [a, c][1] == [a, b, c][2];
    hide Quiet, Decoder.Valid, NewDecoder;
    var d := NewDecoder(2, ic);
    var x1, x2 := DataIn(1, a), ParityIn(ParityOf(ic, 1, [a, c]));
    var xs: seq<(Input, nat)> := [(x1, 0), (x2, 0)];
    e, out := TwoInputs(d, x1, x2);
    TwoGroupRebuilds(ic, a, c, xs, e, out);
  }

  lemma LossyRun(ic: Cipher, a: Bytes, b: Bytes, c: Bytes) returns (t: Modes.Sender)
    requires Sendable([a, b, c])
    ensures Modes.Reaches(Modes.Start(2, ic), [Modes.Send(a), Modes.Lose([b]), Modes.Send(c)], t)
    ensures t.sent == [a, b, c] && t.log == [Modes.Par(1, [a, c])]
  {
    hide ParityOf;
    var evs := [Modes.Send(a), Modes.Lose([b]), Modes.Send(c)];
    var s0 := Modes.Start(2, ic);
    assert a == [a, b, c][0] && c == [a, b, c][2];
    var s1 := Modes.Step(s0, evs[0]);
    Modes.SendJoins(s0, a);
    assert s1.sent == [a] && s1.enc == s0.enc.(lastSeq := 1, open := [VpnFrame(1, a)]) && s1.log == [];
    var s2 := Modes.Step(s1, evs[1]);
    assert s2 == s1.(sent := [a, b], lost := s2.lost);
    t := Modes.Step(s2, evs[2]);
    Modes.SendCompletes(s2, c);
    hide Modes.Step;
    assert Payloads([VpnFrame(1, a), VpnFrame(3, c)]) == [a, c];
    assert s2.enc.open + [VpnFrame(3, c)] == [VpnFrame(1, a), VpnFrame(3, c)];
    assert evs[1..][1..][1..] == [];
    assert Modes.Reaches(t, evs[1..][1..][1..], t);
    assert Modes.Reaches(s2, evs[1..][1..], t);
    assert Modes.Reaches(s1, evs[1..], t);
  }

  lemma TwoInputs(d: Decoder, x1: Input, x2: Input) returns (e: Decoder, out: seq<VpnFrame>)
    requires d.Valid() && (x1.DataIn? ==> x1.n < U32)
    ensures DecoderSoundness.Reaches(d, [(x1, 0), (x2, 0)], e, out)
  {
    hide GroupDecoder.Step;
    StepValid(d, x1, 0);
    var r1 := GroupDecoder.Step(d, x1, 0);
    var r2 := GroupDecoder.Step(r1.0, x2, 0);
    e := r2.0;
    var tail := if r2.1.Some? then [r2.1.value] else [];
    out := (if r1.1.Some? then [r1.1.value] else []) + tail;
    var xs: seq<(Input, nat)> := [(x1, 0), (x2, 0)];
    assert |xs[1..][1..]| == 0 && (r2.1.Some? ==> tail[1..] == []);
    assert DecoderSoundness.Reaches(r2.0, xs[1..][1..], e, []);
    assert DecoderSoundness.Reaches(r1.0, xs[1..], e, tail);
    assert if r1.1.Some? then out[1..] == tail else out == tail;
  }

  /** Frame 1 and the parity over [a, c] rebuild frame 2 as c. */
  lemma TwoGroupRebuilds(ic: Cipher, a: Bytes, c: Bytes, xs: seq<(Input, nat)>, e: Decoder, out: seq<VpnFrame>)
    requires Sendable([a, c])
    requires xs == [(DataIn(1, a), 0), (ParityIn(ParityOf(ic, 1, [a, c])), 0)]
    requires DecoderSoundness.Reaches(NewDecoder(2, ic), xs, e, out)
    ensures VpnFrame(2, c) in out
  {
    hide DecoderSoundness.Reaches, Decoder.Valid, GenuineGroups, Quiet, Own, Received, ParityReceived, GenuineInputs;
    NewDecoderIsQuiet([a, c], 2, ic, 1);
    PairInputs(ic, a, c, xs);
    PairOwn(ic, a, c, xs);
    assert NewDecoder(2, ic).k == 2 && NewDecoder(2, ic).ic == ic;
    hide NewDecoder;
    OwnTrafficRecovers([a, c], NewDecoder(2, ic), xs, e, out, 1, 1);
  }

  /** The two inputs of that group, seen as a group over [a, c]. */
  lemma PairInputs(ic: Cipher, a: Bytes, c: Bytes, xs: seq<(Input, nat)>)
    requires Sendable([a, c])
    requires xs == [(DataIn(1, a), 0), (ParityIn(ParityOf(ic, 1, [a, c])), 0)]
    ensures GenuineInputs([a, c], 2, ic, xs) && InRange([a, c], 2, 1)
  {
    hide ParseHeader, ParityOf, Block;
    PairHeader(ic, a, c);
    assert GenuineInput([a, c], {}, 2, ic, xs[0].0);
    assert GenuineInput([a, c], {}, 2, ic, xs[1].0);
    hide GenuineInput;
  }

  lemma PairOwn(ic: Cipher, a: Bytes, c: Bytes, xs: seq<(Input, nat)>)
    requires Sendable([a, c])
    requires xs == [(DataIn(1, a), 0), (ParityIn(ParityOf(ic, 1, [a, c])), 0)]
    ensures forall i :: 0 <= i < |xs| ==> Own(xs[i].0, 2, 1, 2)
    ensures Received(xs, 2, 1) == AllBut(2, 1) && ParityReceived(xs, 2, 1)
  {
    hide ParseHeader, ParityOf, Received, AllBut;
    PairHeader(ic, a, c);
    assert ParityFor(xs[1].0, 2, 1);
    PairOffsets(xs);
  }

  lemma PairHeader(ic: Cipher, a: Bytes, c: Bytes)
    requires Sendable([a, c])
    ensures ParseHeader(ParityOf(ic, 1, [a, c]), 2) == Some(1)
    ensures Block([a, c], 2, 1) == [a, c]
  {
    assert a == [a, c][0] && c == [a, c][1];
    assert Block([a, c], 2, 1) == [a, c];
    hide ParityOf, ParseHeader, ParseLengths, Open;
    ParityRoundTrip(ic, 1, [a, c]);
  }

  lemma PairOffsets(xs: seq<(Input, nat)>)
    requires |xs| == 2 && xs[0].0.DataIn? && xs[0].0.n == 1 && xs[1].0.ParityIn?
    ensures DataOffset(xs[0].0, 2, 1) == Some(0)
    ensures Received(xs, 2, 1) == AllBut(2, 1)
  {
    assert Received(xs[1..][1..], 2, 1) == {};
    assert Received(xs[1..], 2, 1) == {};
  }
}
