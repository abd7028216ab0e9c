/**
 The exact condition of end-to-end safety, of a whole run.

 What the encoder does depends on the numbers and on the path count, not on the
 payloads.  So a run in which a parity that the receiver takes has exactly one number
 of its group dropped differs only in payloads from one that brings a wrong frame out.
 */
module SpoiledRuns {
  import opened Xor
  import opened Wire
  import opened FecControl
  import opened FecParity
  import opened FecEncoder
  import opened SenderModes
  import opened AcceptedParities
  import DecoderSoundness
  import opened Reorder
  import opened CorruptingLoss

  // ---- runs that differ in payloads only ----

  predicate Alike(a: Event, b: Event) {
    match a
    case Paths(count) => b == a
    case Send(data) => b.Send? && (b.data == [] <==> data == [])
    case Lose(batch) => b.Lose? && |b.batch| == |batch|
  }

  predicate SameShape(evs: seq<Event>, fs: seq<Event>) {
    |evs| == |fs| && forall i :: 0 <= i < |evs| ==> Alike(evs[i], fs[i])
  }

  predicate TwinItem(x: Item, y: Item) {
    match x
    case Par(start, datas) => y.Par? && y.start == start
    case Ctl(c, at) => y == x
  }

  ghost predicate Twins(s: Sender, t: Sender) {
    && t.enc == s.enc.(open := t.enc.open) && |t.enc.open| == |s.enc.open|
    && (forall i :: 0 <= i < |s.enc.open| ==> t.enc.open[i].n == s.enc.open[i].n)
    && |t.sent| == |s.sent| && t.lost == s.lost
    && |t.log| == |s.log| && forall i :: 0 <= i < |s.log| ==> TwinItem(s.log[i], t.log[i])
  }

  lemma SendTwins(s: Sender, t: Sender, x: Bytes, y: Bytes)
    requires Ready(s) && Twins(s, t) && |s.enc.open| < s.enc.k && (s.enc.open != [] ==> s.enc.multipath && s.enc.armed)
    requires x == [] <==> y == []
    ensures Twins(Step(s, Send(x)), Step(t, Send(y)))
  {
    if x != [] && |s.sent| < U32 - 1 {
      SendCases(s, x);
      SendCases(t, y);
      hide Step, Aligned, Payloads;
    }
  }

  lemma StepTwins(s: Sender, t: Sender, a: Event, b: Event)
    requires SealInv(s) && Twins(s, t) && Alike(a, b)
    ensures Ready(t) && Twins(Step(s, a), Step(t, b))
  {
    hide Sealed, Unlost;
    match a
    case Send(data) => SendTwins(s, t, data, b.data);
    case Paths(count) => PathsTwins(s, t, count);
    case Lose(batch) =>
  }

  lemma PathsTwins(s: Sender, t: Sender, count: int)
    requires Ready(s) && Twins(s, t)
    ensures Twins(Step(s, Paths(count)), Step(t, Paths(count)))
  {
    hide GroupStart, NextGroupStart;
  }

  lemma {:induction false} RunTwins(s: Sender, evs: seq<Event>, t: Sender, o: Sender, fs: seq<Event>) returns (u: Sender)
    requires SealInv(s) && Reaches(s, evs, t) && Twins(s, o) && SameShape(evs, fs)
    ensures Reaches(o, fs, u) && Twins(t, u)
    decreases |evs|
  {
    hide SealInv, Step, Twins;
    if evs == [] {
      u := o;
    } else {
      assert Alike(evs[0], fs[0]);
      StepTwins(s, o, evs[0], fs[0]);
      RunSealed(s, [evs[0]], Step(s, evs[0]));
      u := RunTwins(Step(s, evs[0]), evs[1..], t, Step(o, fs[0]), fs[1..]);
    }
  }

  lemma {:induction false} OneEnd(s: Sender, evs: seq<Event>, t: Sender, u: Sender)
    requires Reaches(s, evs, t) && Reaches(s, evs, u)
    ensures t == u
    decreases |evs|
  {
    hide Step;
    if evs != [] {
      OneEnd(Step(s, evs[0]), evs[1..], t, u);
    }
  }

  /** Whether a parity does harm is told by numbers. */
  lemma TwinsSafe(t: Sender, u: Sender)
    requires Twins(t, u)
    ensures SafeLog(t) <==> SafeLog(u)
  {
    hide Spoiled, Aligned;
    assert forall i :: 0 <= i < |t.log| ==> TwinItem(t.log[i], u.log[i]);
  }

  // ---- the payloads that tell ----

  const SENT: Bytes := [0]
  const DROPPED: Bytes := [1]

  /** The same event, with one payload for all frames sent and another for all frames dropped. */
  function Marked(ev: Event): Event {
    match ev
    case Paths(count) => ev
    case Send(data) => Send(if data == [] then [] else SENT)
    case Lose(batch) => Lose(seq(|batch|, _ => DROPPED))
  }

  function AllMarked(evs: seq<Event>): (fs: seq<Event>)
    ensures SameShape(evs, fs) && forall i :: 0 <= i < |evs| ==> fs[i] == Marked(evs[i])
  {
    seq(|evs|, i requires 0 <= i < |evs| => Marked(evs[i]))
  }

  predicate MarksTell(s: Sender) {
    forall n :: 1 <= n <= |s.sent| ==> s.sent[n - 1] == if n in s.lost then DROPPED else SENT
  }

  lemma StepMarks(s: Sender, ev: Event)
    requires SealInv(s) && MarksTell(s)
    ensures MarksTell(Step(s, Marked(ev)))
  {
    hide Sealed, OpenIsRest, ParityOf, Payloads;
  }

  lemma {:induction false} RunMarks(s: Sender, evs: seq<Event>, u: Sender)
    requires SealInv(s) && MarksTell(s) && Reaches(s, AllMarked(evs), u)
    ensures MarksTell(u)
    decreases |evs|
  {
    hide SealInv, Step, MarksTell, Marked;
    if evs != [] {
      var fs := AllMarked(evs);
      assert fs[1..] == AllMarked(evs[1..]);
      StepMarks(s, evs[0]);
      RunSealed(s, [fs[0]], Step(s, fs[0]));
      RunMarks(Step(s, fs[0]), evs[1..], u);
    }
  }

  /** With these payloads a spoiled parity brings a dropped frame out with the payload of a sent one. */
  lemma MarkedComesOut(u: Sender)
    requires SealInv(u) && MarksTell(u) && !SafeLog(u) && |u.sent| + MAX_GROUP <= LAST_ORDERED
    ensures DecoderSoundness.Sendable(u.sent) && !OutputsGenuine(u)
  {
    hide OutputsGenuine, Aligned, Unlost, OpenIsRest;
    assert DecoderSoundness.Sendable(u.sent) by { MarksSendable(u); }
    var l :| 0 <= l < |u.log| && Taken(u.log[l], u.enc.k) && Spoiled(u.lost, u.log[l].start, u.enc.k);
    var n :| OnlyLost(u.lost, u.log[l].start, u.enc.k, n);
    GroupEnds(u.log[l], u.sent, u.lost, u.enc.k);
    MarkedPayload(u, l, u.enc.k - 1);
    WrongByteComesOut(u, l, n);
  }

  lemma MarksSendable(u: Sender)
    requires MarksTell(u) && |u.sent| < U32
    ensures DecoderSoundness.Sendable(u.sent)
  {
    forall i | 0 <= i < |u.sent| ensures 0 < |u.sent[i]| < U32 {
      assert u.sent[i + 1 - 1] == if i + 1 in u.lost then DROPPED else SENT;
    }
  }

  lemma MarkedPayload(u: Sender, l: nat, i: nat)
    requires MarksTell(u) && l < |u.log| && u.log[l].Par? && Sealed(u.log[l], u.sent, u.lost, u.enc.k) && i < u.enc.k
    ensures u.log[l].datas[i] == SENT
  {
    hide Unlost;
    var x := u.log[l];
    var end :| Seals(x, u.sent, u.lost, end);
    var fs := Unlost(u.sent, u.lost, x.start, end);
    UnlostAre(u.sent, u.lost, x.start, end);
    assert fs[i] in fs;
  }

  /**
   A run keeps its promise whatever the payloads exactly when no parity that the receiver takes has exactly one
   number of its group dropped.
   */
  lemma RunSafeIff(k: int, ic: Cipher, evs: seq<Event>, t: Sender)
    requires Reaches(Start(k, ic), evs, t) && |t.sent| + MAX_GROUP <= LAST_ORDERED
    ensures SafeLog(t) <==>
            forall fs, u ::
              SameShape(evs, fs) && Reaches(Start(k, ic), fs, u) && DecoderSoundness.Sendable(u.sent) ==> OutputsGenuine(u)
  {
    hide SafeLog, Reaches, OutputsGenuine, SealInv, Twins, SameShape, Start, MarksTell;
    var o := Start(k, ic);
    StartFacts(k, ic);
    if SafeLog(t) {
      forall fs, u | SameShape(evs, fs) && Reaches(o, fs, u) && DecoderSoundness.Sendable(u.sent) ensures OutputsGenuine(u) {
        var v := RunTwins(o, evs, t, o, fs);
        OneEnd(o, fs, u, v);
        TwinsSafe(t, u);
        RunSealed(o, fs, u);
        SameCount(t, u);
        SafeOutputs(u);
      }
    } else {
      var fs := AllMarked(evs);
      var u := RunTwins(o, evs, t, o, fs);
      TwinsSafe(t, u);
      RunSealed(o, fs, u);
      RunMarks(o, evs, u);
      SameCount(t, u);
      MarkedComesOut(u);
    }
  }

  lemma SameCount(t: Sender, u: Sender)
    requires Twins(t, u)
    ensures |u.sent| == |t.sent|
  {
  }

  lemma StartFacts(k: int, ic: Cipher)
    ensures SealInv(Start(k, ic)) && Twins(Start(k, ic), Start(k, ic)) && MarksTell(Start(k, ic))
  {
    StartSafe(k, ic);
  }
}
