/**
 The parities the receiver takes.

 The encoder never sees a numbered batch that was dropped, so a group holds the first
 K frames from its start on that were not dropped: SealInv, over every run.  The
 receiver reads a parity only if the group starts at 1 modulo K, and takes it for the
 K numbers from there on.  With none of them dropped the parity covers exactly those;
 with two dropped nothing is ever rebuilt with it.  Harm is done only when exactly one
 of them was dropped: SafeLog says of a run, and SafeDrop of a drop, that this is not so.
 */
module AcceptedParities {
  import opened Xor
  import opened Wire
  import opened FecControl
  import opened FecParity
  import opened FecEncoder
  import opened SenderModes
  import opened ParityGenuine

  // ---- the frames that were not dropped ----

  /** The frames numbered lo to hi that were not dropped. */
  function Unlost(sent: seq<Bytes>, lost: set<nat>, lo: nat, hi: nat): (fs: seq<VpnFrame>)
    requires 1 <= lo <= hi + 1 && hi <= |sent|
    ensures |fs| <= hi + 1 - lo
    decreases hi
  {
    if hi < lo then []
    else Unlost(sent, lost, lo, hi - 1) + if hi in lost then [] else [VpnFrame(hi, sent[hi - 1])]
  }

  lemma {:induction false} UnlostPrefix(sent: seq<Bytes>, lost: set<nat>, lo: nat, a: nat, b: nat)
    requires 1 <= lo <= a + 1 && a <= b <= |sent|
    ensures Unlost(sent, lost, lo, a) <= Unlost(sent, lost, lo, b)
    decreases b
  {
    if a < b {
      UnlostPrefix(sent, lost, lo, a, b - 1);
    }
  }

  /** What comes later changes nothing. */
  lemma {:induction false} UnlostLater(sent: seq<Bytes>, lost: set<nat>, more: seq<Bytes>, gone: set<nat>, lo: nat, hi: nat)
    requires 1 <= lo <= hi + 1 && hi <= |sent| && forall n :: n in gone ==> n > hi
    ensures Unlost(sent + more, lost + gone, lo, hi) == Unlost(sent, lost, lo, hi)
    decreases hi
  {
    if lo <= hi {
      UnlostLater(sent, lost, more, gone, lo, hi - 1);
      assert (sent + more)[hi - 1] == sent[hi - 1] && (hi in lost + gone <==> hi in lost);
    }
  }

  /** Dropped numbers add nothing. */
  lemma {:induction false} UnlostDropped(sent: seq<Bytes>, lost: set<nat>, lo: nat, a: nat, b: nat)
    requires 1 <= lo <= a + 1 && a <= b <= |sent| && forall n :: a < n <= b ==> n in lost
    ensures Unlost(sent, lost, lo, b) == Unlost(sent, lost, lo, a)
    decreases b
  {
    if a < b {
      UnlostDropped(sent, lost, lo, a, b - 1);
    }
  }

  /** With nothing dropped it is every number. */
  lemma {:induction false} UnlostWhole(sent: seq<Bytes>, lost: set<nat>, lo: nat, hi: nat)
    requires 1 <= lo <= hi + 1 && hi <= |sent| && forall n :: lo <= n <= hi ==> n !in lost
    ensures var fs := Unlost(sent, lost, lo, hi);
            |fs| == hi + 1 - lo && forall i :: 0 <= i < |fs| ==> fs[i] == VpnFrame(lo + i, sent[lo + i - 1])
    decreases hi
  {
    if lo <= hi {
      var fs := Unlost(sent, lost, lo, hi);
      assert fs == Unlost(sent, lost, lo, hi - 1) + [VpnFrame(hi, sent[hi - 1])];
      hide Unlost;
      UnlostWhole(sent, lost, lo, hi - 1);
    }
  }

  /** With one number dropped the frames after it move up by one. */
  lemma {:induction false} UnlostButOne(sent: seq<Bytes>, lost: set<nat>, lo: nat, hi: nat, m: nat)
    requires 1 <= lo <= m <= hi <= |sent| && m in lost && forall n :: lo <= n <= hi && n in lost ==> n == m
    ensures var fs := Unlost(sent, lost, lo, hi);
            && |fs| == hi - lo
            && forall i :: 0 <= i < |fs| ==> var n := if lo + i < m then lo + i else lo + i + 1; fs[i] == VpnFrame(n, sent[n - 1])
    decreases hi
  {
    var fs, before := Unlost(sent, lost, lo, hi), Unlost(sent, lost, lo, hi - 1);
    assert fs == before + if hi == m then [] else [VpnFrame(hi, sent[hi - 1])];
    hide Unlost;
    if hi == m {
      UnlostWhole(sent, lost, lo, hi - 1);
    } else {
      UnlostButOne(sent, lost, lo, hi - 1, m);
    }
  }

  /** None of them was dropped. */
  lemma {:induction false} UnlostAre(sent: seq<Bytes>, lost: set<nat>, lo: nat, hi: nat)
    requires 1 <= lo <= hi + 1 && hi <= |sent|
    ensures forall f :: f in Unlost(sent, lost, lo, hi) ==> lo <= f.n <= hi && f.n !in lost && f.data == sent[f.n - 1]
    decreases hi
  {
    if lo <= hi {
      UnlostAre(sent, lost, lo, hi - 1);
    }
  }

  // ---- what a parity covers, over every run ----

  /** The parity is over the frames from its start to end that were not dropped. */
  predicate Seals(x: Item, sent: seq<Bytes>, lost: set<nat>, end: nat) {
    x.Par? && 1 <= x.start <= end <= |sent| && x.datas == Payloads(Unlost(sent, lost, x.start, end))
  }

  ghost predicate Sealed(x: Item, sent: seq<Bytes>, lost: set<nat>, k: nat) {
    x.Par? ==> |x.datas| == k && x.start < U32 && x.start !in lost && exists end :: Seals(x, sent, lost, end)
  }

  /** The open group is every frame from its start on that was not dropped. */
  predicate OpenIsRest(s: Sender) {
    s.enc.open != [] ==>
      && s.enc.multipath && s.enc.armed
      && 1 <= s.enc.open[0].n <= |s.sent| && s.enc.open == Unlost(s.sent, s.lost, s.enc.open[0].n, |s.sent|)
  }

  ghost predicate SealInv(s: Sender) {
    && s.enc.Valid() && |s.sent| < U32
    && (forall n :: n in s.lost ==> n <= |s.sent|)
    && OpenIsRest(s)
    && (forall i :: 0 <= i < |s.log| ==> Sealed(s.log[i], s.sent, s.lost, s.enc.k))
  }

  lemma SealedLater(x: Item, sent: seq<Bytes>, lost: set<nat>, more: seq<Bytes>, gone: set<nat>, k: nat)
    requires Sealed(x, sent, lost, k) && forall n :: n in gone ==> n > |sent|
    ensures Sealed(x, sent + more, lost + gone, k)
  {
    hide Unlost, Payloads;
    if x.Par? {
      var end :| Seals(x, sent, lost, end);
      UnlostLater(sent, lost, more, gone, x.start, end);
      assert Seals(x, sent + more, lost + gone, end);
    }
  }

  lemma LogLater(s: Sender, more: seq<Bytes>, gone: set<nat>)
    requires SealInv(s) && forall n :: n in gone ==> n > |s.sent|
    ensures forall i :: 0 <= i < |s.log| ==> Sealed(s.log[i], s.sent + more, s.lost + gone, s.enc.k)
  {
    hide Sealed, OpenIsRest;
    forall i | 0 <= i < |s.log| ensures Sealed(s.log[i], s.sent + more, s.lost + gone, s.enc.k) {
      SealedLater(s.log[i], s.sent, s.lost, more, gone, s.enc.k);
    }
  }

  lemma PathsSealed(s: Sender, count: int)
    requires SealInv(s)
    ensures SealInv(Step(s, Paths(count)))
  {
    hide Sealed, Unlost;
    assert forall c, at :: Sealed(Ctl(c, at), s.sent, s.lost, s.enc.k) by { ControlsSealed(s.sent, s.lost, s.enc.k); }
  }

  lemma ControlsSealed(sent: seq<Bytes>, lost: set<nat>, k: nat)
    ensures forall c, at :: Sealed(Ctl(c, at), sent, lost, k)
  {
  }

  lemma LoseSealed(s: Sender, batch: seq<Bytes>)
    requires SealInv(s)
    ensures SealInv(Step(s, Lose(batch)))
  {
    hide Sealed, Unlost;
    var t := Step(s, Lose(batch));
    var gone := Numbers(|s.sent|, |s.sent| + |batch|);
    if t != s {
      LogLater(s, batch, gone);
      if s.enc.open != [] {
        UnlostLater(s.sent, s.lost, batch, gone, s.enc.open[0].n, |s.sent|);
        UnlostDropped(t.sent, t.lost, s.enc.open[0].n, |s.sent|, |t.sent|);
      }
    }
  }

  /** The next frame, after those of the open group if there is one. */
  lemma NextUnlost(s: Sender, data: Bytes)
    requires SealInv(s)
    ensures var n := |s.sent| + 1; var fs := s.enc.open + [VpnFrame(n, data)];
            1 <= fs[0].n <= n && fs == Unlost(s.sent + [data], s.lost, fs[0].n, n)
  {
    hide Sealed;
    var n := |s.sent| + 1;
    var p := if s.enc.open != [] then s.enc.open[0].n else n;
    UnlostLater(s.sent, s.lost, [data], {}, p, n - 1);
    assert s.lost + {} == s.lost;
  }

  lemma SendSealed(s: Sender, data: Bytes)
    requires SealInv(s)
    ensures SealInv(Step(s, Send(data)))
  {
    if data == [] || |s.sent| >= U32 - 1 {
      SendsNothing(s, data);
    } else {
      var fs := s.enc.open + [VpnFrame(|s.sent| + 1, data)];
      SendKeepsValid(s, data);
      SendCases(s, data);
      hide Step, Sealed, Unlost, Payloads, Aligned;
      NextUnlost(s, data);
      LogLater(s, [data], {});
      assert s.lost + {} == s.lost;
      if |fs| == s.enc.k {
        CompletedSealed(Par(fs[0].n, Payloads(fs)), s.sent + [data], s.lost, fs);
      }
    }
  }

  lemma SendKeepsValid(s: Sender, data: Bytes)
    requires s.enc.Valid() && |s.sent| < U32 - 1
    ensures Step(s, Send(data)).enc.Valid()
  {
  }

  lemma CompletedSealed(x: Item, sent: seq<Bytes>, lost: set<nat>, fs: seq<VpnFrame>)
    requires fs != [] && 1 <= fs[0].n <= |sent| < U32 && fs == Unlost(sent, lost, fs[0].n, |sent|)
    requires x == Par(fs[0].n, Payloads(fs))
    ensures Sealed(x, sent, lost, |fs|)
  {
    UnlostAre(sent, lost, fs[0].n, |sent|);
    assert fs[0] in fs;
    hide Unlost, Payloads;
    assert Seals(x, sent, lost, |sent|);
  }

  /** Over every run a parity covers exactly the first K frames from its start on that were not dropped. */
  lemma {:induction false} RunSealed(s: Sender, evs: seq<Event>, t: Sender)
    requires SealInv(s) && Reaches(s, evs, t)
    ensures SealInv(t)
    decreases |evs|
  {
    hide SealInv, Step;
    if evs != [] {
      match evs[0] {
        case Paths(count) => PathsSealed(s, count);
        case Send(data) => SendSealed(s, data);
        case Lose(batch) => LoseSealed(s, batch);
      }
      RunSealed(Step(s, evs[0]), evs[1..], t);
    }
  }

  // ---- none, one or two numbers of a group dropped ----

  /** The one number of the group that was dropped. */
  predicate OnlyLost(lost: set<nat>, start: nat, k: nat, n: nat) {
    start <= n < start + k && n in lost && forall m :: start <= m < start + k && m in lost ==> m == n
  }

  /** Exactly one number of the group was dropped. */
  predicate Spoiled(lost: set<nat>, start: nat, k: nat) {
    exists n :: start <= n < start + k && OnlyLost(lost, start, k, n)
  }

  predicate NoneLost(lost: set<nat>, start: nat, k: nat) {
    forall n :: start <= n < start + k ==> n !in lost
  }

  lemma NoneOrTwo(lost: set<nat>, start: nat, k: nat)
    ensures !Spoiled(lost, start, k) <==> NoneLost(lost, start, k) || TwoLost(lost, start, k)
  {
    if !NoneLost(lost, start, k) {
      var n :| start <= n < start + k && n in lost;
      if !OnlyLost(lost, start, k, n) {
        var m :| start <= m < start + k && m in lost && m != n;
        var a, b := if m < n then m else n, if m < n then n else m;
        assert start <= a < b < start + k && a in lost && b in lost;
      }
    }
  }

  /** A parity the receiver takes: its group starts at 1 modulo K. */
  predicate Taken(x: Item, k: nat) {
    GroupSize(k) && x.Par? && Aligned(x.start, k)
  }

  /** The receiver will take the parity of the open group. */
  predicate OpenAligned(s: Sender) {
    GroupSize(s.enc.k) && s.enc.open != [] && Aligned(s.enc.open[0].n, s.enc.k)
  }

  /** No parity that the receiver takes has exactly one number of its group dropped. */
  predicate SafeLog(t: Sender) {
    forall i :: 0 <= i < |t.log| && Taken(t.log[i], t.enc.k) ==> !Spoiled(t.lost, t.log[i].start, t.enc.k)
  }

  /** Nor has the open group. */
  predicate SafeNow(s: Sender) {
    SafeLog(s) && (OpenAligned(s) ==> !Spoiled(s.lost, s.enc.open[0].n, s.enc.k))
  }

  /** After dropping the batch, the open group does not have exactly one number dropped, if the receiver will take it. */
  predicate SafeDrop(s: Sender, batch: seq<Bytes>)
    requires GroupSize(s.enc.k) && s.enc.lastSeq < U32
  {
    OpenAligned(s) ==> !Spoiled(Step(s, Lose(batch)).lost, s.enc.open[0].n, s.enc.k)
  }

  /** For a group of which nothing was dropped so far, that is a matter of counting. */
  lemma WholeGroupDropIff(s: Sender, batch: seq<Bytes>)
    requires SealInv(s) && batch != [] && |s.sent| + |batch| < U32 && OpenAligned(s) && NoneLost(s.lost, s.enc.open[0].n, s.enc.k)
    ensures SafeDrop(s, batch) <==> |batch| >= 2 && |s.enc.open| + 2 <= s.enc.k
  {
    hide Sealed, Aligned, Unlost;
    var p, k, n := s.enc.open[0].n, s.enc.k, |s.sent|;
    var lost := Step(s, Lose(batch)).lost;
    OpenIsAll(s);
    NoneOrTwo(lost, p, k);
    assert n + 1 in lost;
    if |batch| >= 2 && |s.enc.open| + 2 <= k {
      assert p <= n + 1 < n + 2 < p + k && n + 2 in lost;
    }
  }

  /** Of a group without a dropped number the open frames are the numbers from its start to the last one. */
  lemma OpenIsAll(s: Sender)
    requires SealInv(s) && s.enc.open != [] && NoneLost(s.lost, s.enc.open[0].n, s.enc.k)
    ensures |s.enc.open| == |s.sent| + 1 - s.enc.open[0].n && forall n :: n in s.lost ==> n < s.enc.open[0].n
  {
    hide Sealed, Aligned;
    var p, k, n := s.enc.open[0].n, s.enc.k, |s.sent|;
    if n >= p + k - 1 {
      UnlostWhole(s.sent, s.lost, p, p + k - 1);
      UnlostPrefix(s.sent, s.lost, p, p + k - 1, n);
    } else {
      UnlostWhole(s.sent, s.lost, p, n);
    }
  }

  /** Every drop of the run is safe. */
  predicate LosesApart(s: Sender, evs: seq<Event>)
    requires s.enc.Valid()
    decreases |evs|
  {
    evs == [] ||
    (&& (evs[0].Lose? ==> SafeDrop(s, evs[0].batch))
     && Step(s, evs[0]).enc.Valid()
     && LosesApart(Step(s, evs[0]), evs[1..]))
  }

  /** The group of a parity in the log lies below what is numbered next. */
  lemma GroupEnds(x: Item, sent: seq<Bytes>, lost: set<nat>, k: nat)
    requires x.Par? && Sealed(x, sent, lost, k)
    ensures 1 <= x.start && x.start + k <= |sent| + 1
  {
    hide Unlost;
    var end :| Seals(x, sent, lost, end);
  }

  lemma SpoiledLater(lost: set<nat>, gone: set<nat>, start: nat, k: nat)
    requires forall n :: n in gone ==> n >= start + k
    ensures Spoiled(lost + gone, start, k) <==> Spoiled(lost, start, k)
  {
    forall n ensures OnlyLost(lost + gone, start, k, n) <==> OnlyLost(lost, start, k, n) {}
  }

  lemma LogSafeLater(s: Sender, gone: set<nat>)
    requires SealInv(s) && SafeLog(s) && forall n :: n in gone ==> n > |s.sent|
    ensures SafeLog(s.(lost := s.lost + gone))
  {
    hide Spoiled, Sealed, Aligned, OpenIsRest;
    forall i | 0 <= i < |s.log| && Taken(s.log[i], s.enc.k)
      ensures !Spoiled(s.lost + gone, s.log[i].start, s.enc.k)
    {
      GroupEnds(s.log[i], s.sent, s.lost, s.enc.k);
      SpoiledLater(s.lost, gone, s.log[i].start, s.enc.k);
    }
  }

  lemma LoseSafe(s: Sender, batch: seq<Bytes>)
    requires SealInv(s) && SafeNow(s) && SafeDrop(s, batch)
    ensures SafeNow(Step(s, Lose(batch)))
  {
    hide Spoiled, Sealed, Aligned, OpenIsRest;
    LogSafeLater(s, Numbers(|s.sent|, |s.sent| + |batch|));
  }

  lemma PathsSafe(s: Sender, count: int)
    requires SealInv(s) && SafeNow(s)
    ensures SafeNow(Step(s, Paths(count)))
  {
    hide Spoiled, Sealed, Aligned, OpenIsRest;
  }

  lemma SendSafe(s: Sender, data: Bytes)
    requires SealInv(s) && SafeNow(s)
    ensures SafeNow(Step(s, Send(data)))
  {
    if data == [] || |s.sent| >= U32 - 1 {
      SendsNothing(s, data);
    } else {
      SendCases(s, data);
      hide Step, Spoiled, Sealed, Aligned, OpenIsRest, Payloads;
      NotYetLost(s.lost, |s.sent| + 1, s.enc.k);
    }
  }

  lemma NotYetLost(lost: set<nat>, start: nat, k: nat)
    requires forall n :: n in lost ==> n < start
    ensures !Spoiled(lost, start, k)
  {
  }

  /** In runs whose drops are all safe no parity that the receiver takes does harm. */
  lemma {:induction false} RunTrusted(s: Sender, evs: seq<Event>, t: Sender)
    requires SealInv(s) && SafeNow(s) && Reaches(s, evs, t) && LosesApart(s, evs)
    ensures SealInv(t) && SafeNow(t)
    decreases |evs|
  {
    hide SealInv, SafeNow, Step, SafeDrop;
    if evs != [] {
      RunSealed(s, [evs[0]], Step(s, evs[0]));
      match evs[0] {
        case Paths(count) => PathsSafe(s, count);
        case Send(data) => SendSafe(s, data);
        case Lose(batch) => LoseSafe(s, batch);
      }
      RunTrusted(Step(s, evs[0]), evs[1..], t);
    }
  }

  lemma {:induction false} RunTrustedNoLoss(s: Sender, evs: seq<Event>, t: Sender)
    requires SealInv(s) && SafeNow(s) && Reaches(s, evs, t) && NoLoss(evs)
    ensures SealInv(t) && SafeNow(t)
    decreases |evs|
  {
    hide SealInv, SafeNow, Step;
    if evs != [] {
      RunSealed(s, [evs[0]], Step(s, evs[0]));
      match evs[0] {
        case Paths(count) => PathsSafe(s, count);
        case Send(data) => SendSafe(s, data);
      }
      RunTrustedNoLoss(Step(s, evs[0]), evs[1..], t);
    }
  }

  lemma StartSafe(k: int, ic: Cipher)
    ensures SealInv(Start(k, ic)) && SafeNow(Start(k, ic))
  {
  }

  /** A parity of a group without a dropped number covers exactly the payloads its numbers name. */
  lemma WholeIsCovered(x: Item, sent: seq<Bytes>, lost: set<nat>, k: nat)
    requires k > 0 && x.Par? && Sealed(x, sent, lost, k) && NoneLost(lost, x.start, k)
    ensures Covers(x, sent)
  {
    hide Unlost;
    var end :| Seals(x, sent, lost, end);
    UnlostWhole(sent, lost, x.start, x.start + k - 1);
    UnlostPrefix(sent, lost, x.start, x.start + k - 1, end);
  }

  /**
   The condition is weaker than losing between groups only.  With K = 2, a batch dropped between groups
   shifts the next group to 4; a second one dropped inside that group makes its parity wrong, but the
   receiver never reads it.
   */
  lemma WrongButRejected(ic: Cipher, x: Bytes, y: Bytes) returns (t: Sender)
    requires x != [] && y != [] && x != y
    ensures var evs := [Send(x), Send(x), Lose([x]), Send(x), Lose([x]), Send(y)];
            Reaches(Start(2, ic), evs, t) && LosesApart(Start(2, ic), evs)
    ensures t.log == [Par(1, [x, x]), Par(4, [x, y])] && t.sent == [x, x, x, x, x, y] && !Genuine(t)
    ensures ParseHeader(ParityOf(ic, 4, [x, y]), 2) == None
  {
    hide Step, ParityOf, Reaches, Genuine, LosesApart, Goes;
    var s := FirstPair(ic, x);
    t := ShiftedGroup(ic, Start(2, ic), [Send(x), Send(x)], s, x, y);
    assert [Send(x), Send(x)] + [Lose([x]), Send(x), Lose([x]), Send(y)] == [Send(x), Send(x), Lose([x]), Send(x), Lose([x]), Send(y)];
    MisalignedRejected(Par(4, [x, y]), ic, 2);
    NotCovered(Par(4, [x, y]), t.sent, t.sent, 1, 4);
    assert !Genuine(t) by { WrongAt(t, 1); }
  }

  ghost predicate Goes(o: Sender, evs: seq<Event>, s: Sender) {
    o.enc.Valid() && Reaches(o, evs, s) && LosesApart(o, evs) && s.enc.Valid()
  }

  lemma WhatGoes(o: Sender, evs: seq<Event>, s: Sender)
    requires Goes(o, evs, s)
    ensures o.enc.Valid() && Reaches(o, evs, s) && LosesApart(o, evs)
  {
  }

  lemma NothingYet(o: Sender)
    requires o.enc.Valid()
    ensures Goes(o, [], o)
  {
  }

  lemma {:induction false} GoesOn(o: Sender, evs: seq<Event>, s: Sender, ev: Event)
    requires Goes(o, evs, s) && Step(s, ev).enc.Valid()
    requires ev.Lose? ==> SafeDrop(s, ev.batch)
    ensures Goes(o, evs + [ev], Step(s, ev))
    decreases |evs|
  {
    assert Ready(s);
    hide Step, Encoder.Valid, SafeDrop;
    OneMore(o, evs, s, ev);
    if evs == [] {
      assert (evs + [ev])[1..] == [];
      assert LosesApart(Step(o, ev), []);
      assert s == o;
    } else {
      assert (evs + [ev])[1..] == evs[1..] + [ev];
      GoesOn(Step(o, evs[0]), evs[1..], s, ev);
    }
  }

  lemma FirstPair(ic: Cipher, x: Bytes) returns (s: Sender)
    requires x != []
    ensures Goes(Start(2, ic), [Send(x), Send(x)], s)
    ensures s.log == [Par(1, [x, x])] && s.sent == [x, x] && s.enc == NewEncoder(2, ic).(lastSeq := 2)
  {
    hide Step, ParityOf, Reaches, LosesApart;
    var o := Start(2, ic);
    NothingYet(o);
    SendCases(o, x);
    GoesOn(o, [], o, Send(x));
    var s1 := Step(o, Send(x));
    assert s1.enc.open == [VpnFrame(1, x)];
    assert Payloads(s1.enc.open + [VpnFrame(2, x)]) == [x, x];
    SendCases(s1, x);
    GoesOn(o, [] + [Send(x)], s1, Send(x));
    s := Step(s1, Send(x));
    assert [] + [Send(x)] + [Send(x)] == [Send(x), Send(x)];
  }

  lemma ShiftedGroup(ic: Cipher, o: Sender, before: seq<Event>, s0: Sender, x: Bytes, y: Bytes) returns (t: Sender)
    requires x != [] && y != [] && Goes(o, before, s0)
    requires s0.log == [Par(1, [x, x])] && s0.sent == [x, x] && s0.enc == NewEncoder(2, ic).(lastSeq := 2)
    ensures var evs := before + [Lose([x]), Send(x), Lose([x]), Send(y)];
            o.enc.Valid() && Reaches(o, evs, t) && LosesApart(o, evs)
    ensures t.log == [Par(1, [x, x]), Par(4, [x, y])] && t.sent == [x, x, x, x, x, y]
  {
    hide Step, ParityOf, Reaches, LosesApart;
    var evs, s := before, s0;
    LoseOne(s, x); GoesOn(o, evs, s, Lose([x])); evs, s := evs + [Lose([x])], Step(s, Lose([x]));
    SendCases(s, x); GoesOn(o, evs, s, Send(x)); evs, s := evs + [Send(x)], Step(s, Send(x));
    assert s.enc.open == [VpnFrame(4, x)];
    LoseOne(s, x); GoesOn(o, evs, s, Lose([x])); evs, s := evs + [Lose([x])], Step(s, Lose([x]));
    assert Payloads(s.enc.open + [VpnFrame(6, y)]) == [x, y] && (s.enc.open + [VpnFrame(6, y)])[0].n == 4;
    SendCases(s, y); GoesOn(o, evs, s, Send(y)); evs, t := evs + [Send(y)], Step(s, Send(y));
    assert evs == before + [Lose([x]), Send(x), Lose([x]), Send(y)];
  }
}
