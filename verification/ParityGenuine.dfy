/**
 When does a parity frame protect the payloads the receiver will attribute to it?

 The encoder trusts its caller to hand over consecutive numbers.  The port breaks
 that trust on one path: a batch that was already numbered is dropped before the
 encoder sees it when the last backend has just gone.  Dropped inside an open group,
 the parity covers the wrong payloads.  Dropped between groups while the encoder is
 armed, the groups that follow start where the receiver expects none, and their
 parities are thrown away.  LossHarmlessIff says exactly when neither happens.
 */
module ParityGenuine {
  import opened Xor
  import opened Wire
  import opened FecControl
  import opened FecParity
  import opened FecEncoder
  import opened SenderModes

  /** The parity covers exactly the payloads numbered start .. start+K-1. */
  predicate Covers(x: Item, sent: seq<Bytes>) {
    x.Par? ==> 1 <= x.start && x.start - 1 + |x.datas| <= |sent| && x.datas == sent[x.start - 1..x.start - 1 + |x.datas|]
  }

  predicate Genuine(s: Sender) {
    forall i :: 0 <= i < |s.log| ==> Covers(s.log[i], s.sent)
  }

  /** The open group is the tail of what was numbered. */
  predicate OpenIsTail(s: Sender) {
    && s.enc.Valid() && |s.sent| < U32
    && |s.enc.open| <= |s.sent|
    && (s.enc.open != [] ==> s.enc.multipath && s.enc.armed)
    && forall i :: 0 <= i < |s.enc.open| ==>
         s.enc.open[i] == VpnFrame(|s.sent| - |s.enc.open| + 1 + i, s.sent[|s.sent| - |s.enc.open| + i])
  }

  predicate GenuineInv(s: Sender) {
    && OpenIsTail(s)
    && Genuine(s)
    && (forall i :: 0 <= i < |s.log| && s.log[i].Par? ==> |s.log[i].datas| == s.enc.k)
    && (forall i :: 0 <= i < |s.sent| ==> s.sent[i] != [])
  }

  lemma CoversGrows(x: Item, sent: seq<Bytes>, more: seq<Bytes>)
    requires Covers(x, sent)
    ensures Covers(x, sent + more)
  {
    if x.Par? {
      assert (sent + more)[x.start - 1..x.start - 1 + |x.datas|] == sent[x.start - 1..x.start - 1 + |x.datas|];
    }
  }

  lemma GenuineGrows(s: Sender, more: seq<Bytes>)
    requires Genuine(s)
    ensures Genuine(s.(sent := s.sent + more))
  {
    forall i | 0 <= i < |s.log|
      ensures Covers(s.log[i], s.sent + more)
    {
      CoversGrows(s.log[i], s.sent, more);
    }
  }

  lemma PathsGenuine(s: Sender, count: int)
    requires GenuineInv(s)
    ensures GenuineInv(Step(s, Paths(count)))
  {
  }

  /** The three outcomes of sending a frame: outside a group, inside a group, completing one. */
  predicate Outcome(s: Sender, f: VpnFrame, t: Sender) {
    && t.sent == s.sent + [f.data] && t.enc.Valid() && t.enc.k == s.enc.k
    && (t.enc.open != [] ==> t.enc.multipath && t.enc.armed)
    && (|| (t.log == s.log && s.enc.open == t.enc.open == [])
        || (t.log == s.log && t.enc.open == s.enc.open + [f])
        || (t.enc.open == [] && |s.enc.open| + 1 == s.enc.k &&
            t.log == s.log + [Par((s.enc.open + [f])[0].n, Payloads(s.enc.open + [f]))]))
  }

  lemma SendOutcome(s: Sender, data: Bytes)
    requires OpenIsTail(s) && data != [] && |s.sent| < U32 - 1
    ensures Outcome(s, VpnFrame(|s.sent| + 1, data), Step(s, Send(data)))
  {
  }

  /** The payloads of the open group and the new frame are the tail of what was numbered. */
  lemma TailPayloads(s: Sender, f: VpnFrame)
    requires OpenIsTail(s) && f.n == |s.sent| + 1
    ensures var fs := s.enc.open + [f];
            && fs[0].n == |s.sent| + 2 - |fs|
            && Payloads(fs) == (s.sent + [f.data])[fs[0].n - 1..]
  {
  }

  lemma OutcomeGenuine(s: Sender, f: VpnFrame, t: Sender)
    requires GenuineInv(s) && f.data != [] && f.n == |s.sent| + 1 < U32 && Outcome(s, f, t)
    ensures GenuineInv(t)
  {
    hide OpenIsTail, Genuine;
    OutcomeTail(s, f, t);
    OutcomeCovers(s, f, t);
    TailPayloads(s, f);
    hide Payloads;
  }

  lemma OutcomeTail(s: Sender, f: VpnFrame, t: Sender)
    requires OpenIsTail(s) && f.n == |s.sent| + 1 < U32 && Outcome(s, f, t)
    ensures OpenIsTail(t)
  {
    hide Payloads;
  }

  lemma OutcomeCovers(s: Sender, f: VpnFrame, t: Sender)
    requires OpenIsTail(s) && Genuine(s) && f.n == |s.sent| + 1 && Outcome(s, f, t)
    ensures Genuine(t)
  {
    GenuineGrows(s, [f.data]);
    TailPayloads(s, f);
    hide Payloads, OpenIsTail;
    if t.log != s.log {
      assert Covers(t.log[|s.log|], t.sent);
      hide Covers;
    }
  }

  lemma SendGenuine(s: Sender, data: Bytes)
    requires GenuineInv(s)
    ensures GenuineInv(Step(s, Send(data)))
  {
    if data != [] && |s.sent| < U32 - 1 {
      SendOutcome(s, data);
      OutcomeGenuine(s, VpnFrame(|s.sent| + 1, data), Step(s, Send(data)));
    }
  }

  lemma LoseGenuine(s: Sender, batch: seq<Bytes>)
    requires GenuineInv(s) && s.enc.open == [] && (forall i :: 0 <= i < |batch| ==> batch[i] != [])
    ensures GenuineInv(Step(s, Lose(batch)))
  {
    GenuineGrows(s, batch);
  }

  /** Losses happen only between groups, and every numbered frame has a payload. */
  predicate LosesBetweenGroups(s: Sender, evs: seq<Event>)
    requires s.enc.Valid()
    decreases |evs|
  {
    evs == [] ||
    (&& (evs[0].Lose? && evs[0].batch != [] ==> s.enc.open == [] && forall i :: 0 <= i < |evs[0].batch| ==> evs[0].batch[i] != [])
     && Step(s, evs[0]).enc.Valid()
     && LosesBetweenGroups(Step(s, evs[0]), evs[1..]))
  }

  lemma EmptyLossGenuine(s: Sender)
    requires GenuineInv(s)
    ensures GenuineInv(Step(s, Lose([])))
  {
    GenuineGrows(s, []);
  }

  lemma {:induction false} RunGenuine(s: Sender, evs: seq<Event>, t: Sender)
    requires GenuineInv(s) && Reaches(s, evs, t) && LosesBetweenGroups(s, evs)
    ensures GenuineInv(t)
    decreases |evs|
  {
    hide Step, GenuineInv;
    if evs != [] {
      match evs[0] {
        case Paths(count) => PathsGenuine(s, count);
        case Send(data) => SendGenuine(s, data);
        case Lose(batch) => if batch != [] { LoseGenuine(s, batch); } else { EmptyLossGenuine(s); }
      }
      RunGenuine(Step(s, evs[0]), evs[1..], t);
    }
  }

  // ---- a loss inside a group does harm ----

  function Repeat(d: Bytes, c: nat): (evs: seq<Event>)
    ensures |evs| == c
    ensures forall i :: 0 <= i < c ==> evs[i] == Send(d)
  {
    seq(c, _ => Send(d))
  }

  /** An armed encoder takes whatever number comes next into its open group. */
  lemma JoinsOpen(u: Sender, d: Bytes)
    requires u.enc.Valid() && u.enc.multipath && u.enc.armed && d != [] && |u.sent| < U32 - 1
    ensures var f := VpnFrame(|u.sent| + 1, d); var t := Step(u, Send(d));
            && t.sent == u.sent + [d] && t.lost == u.lost && t.enc.Valid() && t.enc.k == u.enc.k
            && t.enc.multipath && t.enc.armed
            && (|u.enc.open| + 1 < u.enc.k ==> t.log == u.log && t.enc.open == u.enc.open + [f])
            && (|u.enc.open| + 1 == u.enc.k ==>
                  t.log == u.log + [Par((u.enc.open + [f])[0].n, Payloads(u.enc.open + [f]))])
  {
  }

  /** Sending d until the open group is complete: its parity holds what was open, and then d. */
  lemma {:induction false} FillGroup(u: Sender, d: Bytes, c: nat) returns (t: Sender, x: Item)
    requires u.enc.Valid() && u.enc.multipath && u.enc.armed && d != [] && u.enc.open != []
    requires c == u.enc.k - |u.enc.open| && |u.sent| + c < U32
    ensures Reaches(u, Repeat(d, c), t)
    ensures t.log == u.log + [x] && x.Par? && x.start == u.enc.open[0].n && |x.datas| == u.enc.k
    ensures forall i :: 0 <= i < u.enc.k ==> x.datas[i] == if i < |u.enc.open| then u.enc.open[i].data else d
    ensures t.lost == u.lost && u.sent <= t.sent && |t.sent| == |u.sent| + c && forall i :: |u.sent| <= i < |t.sent| ==> t.sent[i] == d
    decreases c
  {
    hide Step;
    JoinsOpen(u, d);
    var v := Step(u, Send(d));
    assert Repeat(d, c)[1..] == Repeat(d, c - 1);
    if c == 1 {
      t, x := v, v.log[|u.log|];
      assert Reaches(v, [], t);
    } else {
      t, x := FillGroup(v, d, c - 1);
    }
  }

  lemma LossInsideGroupBreaks(s: Sender, batch: seq<Bytes>) returns (evs: seq<Event>, t: Sender)
    requires GenuineInv(s) && batch != [] && s.enc.open != [] && |s.sent| + |batch| + s.enc.k < U32
    ensures NoLoss(evs) && Reaches(Step(s, Lose(batch)), evs, t) && !Genuine(t)
  {
    var u := Step(s, Lose(batch));
    assert u.enc == s.enc && u.sent == s.sent + batch && u.log == s.log;
    hide Step, Reaches, Repeat, Genuine;
    TailStart(s);
    var d: Bytes := if batch[0] == [0] then [1] else [0];
    var x;
    evs := Repeat(d, s.enc.k - |s.enc.open|);
    t, x := FillGroup(u, d, s.enc.k - |s.enc.open|);
    NotCovered(x, u.sent, t.sent, |s.enc.open|, |s.sent|);
    WrongAt(t, |u.log|);
  }

  lemma WrongAt(t: Sender, i: nat)
    requires i < |t.log| && !Covers(t.log[i], t.sent)
    ensures !Genuine(t)
  {
  }

  lemma NotCovered(x: Item, sent: seq<Bytes>, more: seq<Bytes>, j: nat, n: nat)
    requires x.Par? && j < |x.datas| && n < |sent| && x.start + j == n + 1
    requires sent <= more && x.datas[j] != sent[n]
    ensures !Covers(x, more)
  {
  }

  /**
   Dropping a numbered batch before the encoder sees it keeps every later parity
   genuine exactly when no group is open at that moment.
   */
  lemma GenuineIffNoOpenGroup(s: Sender, batch: seq<Bytes>)
    requires GenuineInv(s) && batch != [] && (forall i :: 0 <= i < |batch| ==> batch[i] != [])
    requires |s.sent| + |batch| + s.enc.k < U32
    ensures s.enc.open == [] <==>
            forall evs, t :: NoLoss(evs) && Reaches(Step(s, Lose(batch)), evs, t) ==> Genuine(t)
  {
    hide Genuine, Reaches, NoLoss;
    var u := Step(s, Lose(batch));
    if s.enc.open == [] {
      LoseGenuine(s, batch);
      forall evs, t | NoLoss(evs) && Reaches(u, evs, t)
        ensures Genuine(t)
      {
        RunGenuineNoLoss(u, evs, t);
      }
    } else {
      var evs, t := LossInsideGroupBreaks(s, batch);
    }
  }

  lemma {:induction false} RunGenuineNoLoss(s: Sender, evs: seq<Event>, t: Sender)
    requires GenuineInv(s) && Reaches(s, evs, t) && NoLoss(evs)
    ensures GenuineInv(t)
    decreases |evs|
  {
    if evs != [] {
      match evs[0] {
        case Paths(count) => PathsGenuine(s, count);
        case Send(data) => SendGenuine(s, data);
      }
      RunGenuineNoLoss(Step(s, evs[0]), evs[1..], t);
    }
  }

  // ---- parities the receiver accepts ----

  /** The receiver reads the parity's header and finds the start it was built with. */
  predicate Accepted(x: Item, ic: Cipher, k: nat)
    requires GroupSize(k)
  {
    x.Par? ==> ParseHeader(ParityOf(ic, x.start, x.datas), k) == Some(x.start)
  }

  /** Every parity covers the payloads its numbers name, and the receiver takes it. */
  predicate Protecting(s: Sender) {
    && GroupSize(s.enc.k)
    && Genuine(s)
    && forall i :: 0 <= i < |s.log| ==> Accepted(s.log[i], s.enc.ic, s.enc.k)
  }

  /** A complete parity is accepted exactly when its group starts at 1 modulo K. */
  lemma AcceptedIffAligned(x: Item, ic: Cipher, k: nat)
    requires GroupSize(k) && x.Par? && |x.datas| == k && x.start < U32 && forall i :: 0 <= i < k ==> x.datas[i] != []
    ensures Accepted(x, ic, k) <==> Aligned(x.start, k)
  {
    hide ParseHeader, EncodeParity;
    var lens, body := Lengths(x.datas), Body(x.datas);
    HeaderNamesStart(ic, x.start, lens, body);
    if Aligned(x.start, k) {
      assert lens[0] <= Max(lens);
      ParityHeaderRoundTrip(ic, x.start, lens, body);
    }
  }

  /** Groups start at 1 modulo K: those emitted, the open one, and the next one if it may start at once. */
  predicate AlignedInv(s: Sender)
    requires GroupSize(s.enc.k)
  {
    var e := s.enc;
    && (forall i :: 0 <= i < |s.log| && s.log[i].Par? ==> Aligned(s.log[i].start, e.k))
    && (e.armed ==> e.multipath)
    && (e.open != [] ==> Aligned(e.open[0].n, e.k))
    && (e.armed && e.open == [] ==> Aligned(|s.sent| + 1, e.k))
  }

  predicate ProtectInv(s: Sender) {
    GenuineInv(s) && AlignedInv(s)
  }

  lemma ProtectInvProtects(s: Sender)
    requires ProtectInv(s)
    ensures Protecting(s)
  {
    hide Aligned, Accepted;
    forall i | 0 <= i < |s.log| ensures Accepted(s.log[i], s.enc.ic, s.enc.k) {
      var x := s.log[i];
      if x.Par? {
        assert Covers(x, s.sent);
        assert forall j :: 0 <= j < |x.datas| ==> x.datas[j] == s.sent[x.start - 1 + j];
        AcceptedIffAligned(x, s.enc.ic, s.enc.k);
      } else {
        assert Accepted(x, s.enc.ic, s.enc.k) by { ControlAccepted(x, s.enc.ic, s.enc.k); }
      }
    }
  }

  lemma ControlAccepted(x: Item, ic: Cipher, k: nat)
    requires GroupSize(k) && x.Ctl?
    ensures Accepted(x, ic, k)
  {
  }

  lemma PathsProtect(s: Sender, count: int)
    requires ProtectInv(s)
    ensures ProtectInv(Step(s, Paths(count)))
  {
    hide Genuine, Aligned;
    PathsGenuine(s, count);
  }

  lemma SendProtects(s: Sender, data: Bytes)
    requires ProtectInv(s)
    ensures ProtectInv(Step(s, Send(data)))
  {
    hide Step, GenuineInv, AlignedInv;
    SendGenuine(s, data);
    SendAligned(s, data);
  }

  lemma SendAligned(s: Sender, data: Bytes)
    requires ProtectInv(s)
    ensures var t := Step(s, Send(data)); GroupSize(t.enc.k) && AlignedInv(t)
  {
    hide Step, Aligned, Payloads, Genuine;
    if data == [] || |s.sent| >= U32 - 1 {
      SendsNothing(s, data);
    } else {
      TailStart(s);
      SendCases(s, data);
      hide GenuineInv;
      if s.enc.open != [] {
        AlignedNext(s.enc.open[0].n, s.enc.k);
      }
    }
  }

  lemma SendsNothing(s: Sender, data: Bytes)
    requires Ready(s) && (data == [] || |s.sent| >= U32 - 1)
    ensures Step(s, Send(data)) == s
  {
  }

  lemma TailStart(s: Sender)
    requires OpenIsTail(s)
    ensures s.enc.open != [] ==> s.enc.open[0].n + |s.enc.open| == |s.sent| + 1
  {
  }

  lemma LoseProtects(s: Sender, batch: seq<Bytes>)
    requires ProtectInv(s) && s.enc.open == [] && (forall i :: 0 <= i < |batch| ==> batch[i] != [])
    requires s.enc.armed ==> Aligned(|s.sent| + |batch| + 1, s.enc.k)
    ensures ProtectInv(Step(s, Lose(batch)))
  {
    hide Genuine, Aligned;
    LoseGenuine(s, batch);
  }

  lemma {:induction false} RunProtectsNoLoss(s: Sender, evs: seq<Event>, t: Sender)
    requires ProtectInv(s) && Reaches(s, evs, t) && NoLoss(evs)
    ensures ProtectInv(t)
    decreases |evs|
  {
    hide ProtectInv, Step;
    if evs != [] {
      match evs[0] {
        case Paths(count) => PathsProtect(s, count);
        case Send(data) => SendProtects(s, data);
      }
      RunProtectsNoLoss(Step(s, evs[0]), evs[1..], t);
    }
  }

  /** Between groups, an armed encoder opens the next group at whatever number comes. */
  lemma LossMisaligns(s: Sender, batch: seq<Bytes>) returns (evs: seq<Event>, t: Sender)
    requires ProtectInv(s) && batch != [] && s.enc.open == [] && s.enc.armed && |s.sent| + |batch| + s.enc.k < U32
    requires !Aligned(|s.sent| + |batch| + 1, s.enc.k)
    ensures NoLoss(evs) && Reaches(Step(s, Lose(batch)), evs, t) && !Protecting(t)
  {
    hide Genuine, ParityOf, Payloads, Protecting, Repeat, Reaches;
    var u := Step(s, Lose(batch));
    var d: Bytes := [0];
    var x;
    evs := Repeat(d, s.enc.k);
    hide Step, Aligned;
    t, x := WholeGroup(u, d);
    SameGroupSize(u, evs, t);
    RejectedOne(t, u.log, x);
  }

  lemma RejectedOne(t: Sender, log: seq<Item>, x: Item)
    requires GroupSize(t.enc.k) && t.log == log + [x]
    requires x.Par? && |x.datas| == t.enc.k && x.start < U32 && !Aligned(x.start, t.enc.k)
    ensures !Protecting(t)
  {
    hide Genuine, ParityOf, ParseHeader, Aligned;
    MisalignedRejected(x, t.enc.ic, t.enc.k);
    assert t.log[|log|] == x;
  }

  /** Sending d until a whole new group is complete. */
  lemma WholeGroup(u: Sender, d: Bytes) returns (t: Sender, x: Item)
    requires u.enc.Valid() && u.enc.multipath && u.enc.armed && d != [] && u.enc.open == [] && |u.sent| + u.enc.k < U32
    ensures Reaches(u, Repeat(d, u.enc.k), t)
    ensures t.log == u.log + [x] && x.Par? && x.start == |u.sent| + 1 && |x.datas| == u.enc.k
  {
    hide Payloads, Step;
    var k := u.enc.k;
    JoinsOpen(u, d);
    var v := Step(u, Send(d));
    t, x := FillGroup(v, d, k - 1);
    assert Repeat(d, k)[0] == Send(d) && Repeat(d, k)[1..] == Repeat(d, k - 1);
  }

  lemma MisalignedRejected(x: Item, ic: Cipher, k: nat)
    requires GroupSize(k) && x.Par? && |x.datas| == k && x.start < U32 && !Aligned(x.start, k)
    ensures ParseHeader(ParityOf(ic, x.start, x.datas), k) == None
  {
    hide EncodeParity;
    HeaderNamesStart(ic, x.start, Lengths(x.datas), Body(x.datas));
  }

  /** The drop happens between groups, and the next group can start where the receiver expects one. */
  predicate DropsSafely(s: Sender, batch: seq<Bytes>)
    requires GroupSize(s.enc.k)
  {
    s.enc.open == [] && (s.enc.armed ==> Aligned(|s.sent| + |batch| + 1, s.enc.k))
  }

  /**
   Dropping a numbered batch before the encoder sees it is harmless, in that every
   parity of every later run is genuine and accepted by the receiver, exactly when no
   group is open and an armed encoder is left at a group start.
   */
  lemma LossHarmlessIff(s: Sender, batch: seq<Bytes>)
    requires ProtectInv(s) && batch != [] && (forall i :: 0 <= i < |batch| ==> batch[i] != [])
    requires |s.sent| + |batch| + s.enc.k < U32
    ensures DropsSafely(s, batch) <==>
            forall evs, t :: NoLoss(evs) && Reaches(Step(s, Lose(batch)), evs, t) ==> Protecting(t)
  {
    hide Reaches, NoLoss, Protecting, Aligned, Genuine;
    var u := Step(s, Lose(batch));
    if DropsSafely(s, batch) {
      LoseProtects(s, batch);
      forall evs, t | NoLoss(evs) && Reaches(u, evs, t)
        ensures Protecting(t)
      {
        RunProtectsNoLoss(u, evs, t);
        ProtectInvProtects(t);
      }
    } else if s.enc.open != [] {
      var evs, t := LossInsideGroupBreaks(s, batch);
      assert !Protecting(t) by { NotGenuine(t); }
    } else {
      var evs, t := LossMisaligns(s, batch);
    }
  }

  lemma NotGenuine(t: Sender)
    requires !Genuine(t)
    ensures !Protecting(t)
  {
  }

  /** Every loss of the run drops safely, and every numbered frame has a payload. */
  predicate LosesSafely(s: Sender, evs: seq<Event>)
    requires s.enc.Valid()
    decreases |evs|
  {
    evs == [] ||
    (&& (evs[0].Lose? && evs[0].batch != [] ==> DropsSafely(s, evs[0].batch))
     && (evs[0].Lose? ==> forall i :: 0 <= i < |evs[0].batch| ==> evs[0].batch[i] != [])
     && Step(s, evs[0]).enc.Valid()
     && LosesSafely(Step(s, evs[0]), evs[1..]))
  }

  lemma {:induction false} RunProtects(s: Sender, evs: seq<Event>, t: Sender)
    requires ProtectInv(s) && Reaches(s, evs, t) && LosesSafely(s, evs)
    ensures ProtectInv(t)
    decreases |evs|
  {
    hide Aligned, Genuine;
    if evs != [] {
      match evs[0] {
        case Paths(count) => PathsProtect(s, count);
        case Send(data) => SendProtects(s, data);
        case Lose(batch) =>
          if batch != [] { LoseProtects(s, batch); } else { LoseNothing(s); }
      }
      RunProtects(Step(s, evs[0]), evs[1..], t);
    }
  }

  lemma LoseNothing(s: Sender)
    requires ProtectInv(s)
    ensures ProtectInv(Step(s, Lose([])))
  {
    hide Aligned, Covers;
    assert s.sent + [] == s.sent;
  }

  /** Over every run whose losses drop safely: group starts are 1 modulo K, parities genuine and accepted. */
  lemma SafeRunsProtect(k: int, ic: Cipher, evs: seq<Event>, t: Sender)
    requires Reaches(Start(k, ic), evs, t) && LosesSafely(Start(k, ic), evs)
    ensures Protecting(t) && forall i :: 0 <= i < |t.log| && t.log[i].Par? ==> Aligned(t.log[i].start, t.enc.k)
  {
    hide Reaches, LosesSafely;
    assert ProtectInv(Start(k, ic));
    RunProtects(Start(k, ic), evs, t);
    ProtectInvProtects(t);
  }

  /**
   A loss between groups that does harm: with K = 2, losing frame 3 makes the next group
   start at 4.  Its parity is genuine, and the receiver rejects it.
   */
  lemma LossBetweenGroupsMisaligns(ic: Cipher, x: Bytes, y: Bytes) returns (t: Sender)
    requires x != [] && y != []
    ensures Reaches(Start(2, ic), [Send(x), Send(x), Lose([y]), Send(x), Send(x)], t)
    ensures t.log == [Par(1, [x, x]), Par(4, [x, x])] && t.sent == [x, x, y, x, x]
    ensures Genuine(t) && !Aligned(4, 2) && ParseHeader(ParityOf(ic, 4, [x, x]), 2) == None
  {
    hide Step, ParityOf, Reaches, Genuine;
    var o := Start(2, ic);
    NoEvents(o);
    SendCases(o, x); OneMore(o, [], o, Send(x));
    var s1 := Step(o, Send(x));
    SendCases(s1, x); OneMore(o, [] + [Send(x)], s1, Send(x));
    var s2 := Step(s1, Send(x));
    assert Payloads(s1.enc.open + [VpnFrame(2, x)]) == [x, x];
    OneMore(o, [] + [Send(x)] + [Send(x)], s2, Lose([y]));
    var s3 := Step(s2, Lose([y]));
    assert s3.enc == s2.enc && s3.sent == [x, x, y] && s3.log == s2.log by { LoseOne(s2, y); }
    SendCases(s3, x); OneMore(o, [] + [Send(x)] + [Send(x)] + [Lose([y])], s3, Send(x));
    var s4 := Step(s3, Send(x));
    SendCases(s4, x); OneMore(o, [] + [Send(x)] + [Send(x)] + [Lose([y])] + [Send(x)], s4, Send(x));
    t := Step(s4, Send(x));
    assert Payloads(s4.enc.open + [VpnFrame(5, x)]) == [x, x];
    assert [] + [Send(x)] + [Send(x)] + [Lose([y])] + [Send(x)] + [Send(x)] == [Send(x), Send(x), Lose([y]), Send(x), Send(x)];
    assert Genuine(t) by { BothCovered(t, x, y); }
    MisalignedRejected(Par(4, [x, x]), ic, 2);
  }

  lemma LoseOne(s: Sender, y: Bytes)
    requires Ready(s) && |s.sent| < U32 - 1
    ensures var t := Step(s, Lose([y])); t.enc == s.enc && t.log == s.log && t.sent == s.sent + [y]
  {
  }

  lemma BothCovered(t: Sender, x: Bytes, y: Bytes)
    requires t.log == [Par(1, [x, x]), Par(4, [x, x])] && t.sent == [x, x, y, x, x]
    ensures Genuine(t)
  {
    assert t.sent[0..2] == [x, x] && t.sent[3..5] == [x, x];
  }
}
