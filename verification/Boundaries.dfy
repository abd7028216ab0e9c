/**
 The boundaries the sender announces.

 SUSPEND names the start of the group it gives up.  After a numbered batch was
 dropped between groups that start need not be 1 modulo K, so a boundary can fall
 inside a group as the receiver counts them.  SuspendsAtStartIff says exactly when it
 does not.  Wherever it falls, it never divides a group that has an accepted parity.
 */
module Boundaries {
  import opened Xor
  import opened Wire
  import opened FecControl
  import opened FecParity
  import opened FecEncoder
  import opened SenderModes
  import opened ParityGenuine
  import opened AcceptedParities

  // ---- where SUSPEND announces its boundary ----

  /** A change to one path that announces something names a group start if and only if the group it gives up had one. */
  lemma SuspendsAtStartIff(s: Sender, count: int)
    requires NumbersInv(s) && s.enc.multipath && count < 2
    ensures var t := Step(s, Paths(count));
            t.log != s.log ==>
              && t.log == s.log + [Ctl(t.enc.control.value, s.enc.lastSeq)] && IsSuspend(t.log[|s.log|])
              && (Aligned(t.log[|s.log|].c.boundary, s.enc.k) <==> s.enc.open == [] || Aligned(s.enc.open[0].n, s.enc.k))
  {
    hide Aligned;
  }

  predicate AnnouncesStarts(s: Sender) {
    GroupSize(s.enc.k) && forall i :: 0 <= i < |s.log| && s.log[i].Ctl? ==> Aligned(s.log[i].c.boundary, s.enc.k)
  }

  lemma PathsAnnounce(s: Sender, count: int)
    requires ModeInv(s) && ProtectInv(s) && AnnouncesStarts(s)
    ensures AnnouncesStarts(Step(s, Paths(count)))
  {
    hide Aligned, Genuine, SuspendsRespected, ModeTied, BoundaryInv, ParitiesBelowLimit;
    if (count >= 2) != s.enc.multipath {
      if count < 2 {
        SuspendsAtStartIff(s, count);
      } else {
        ResumeStep(s, count);
      }
    }
  }

  lemma SendAnnounces(s: Sender, ev: Event)
    requires GroupSize(s.enc.k) && s.enc.lastSeq < U32 && AnnouncesStarts(s) && !ev.Paths?
    ensures Step(s, ev).enc.k == s.enc.k && AnnouncesStarts(Step(s, ev))
  {
    hide Aligned;
  }

  lemma {:induction false} RunAnnounces(s: Sender, evs: seq<Event>, t: Sender)
    requires ModeInv(s) && ProtectInv(s) && AnnouncesStarts(s) && Reaches(s, evs, t) && LosesSafely(s, evs)
    ensures AnnouncesStarts(t)
    decreases |evs|
  {
    hide ModeInv, ProtectInv, AnnouncesStarts, Step, DropsSafely;
    if evs != [] {
      var ev := evs[0];
      match ev {
        case Paths(count) => PathsKeeps(s, count); PathsProtect(s, count); PathsAnnounce(s, count);
        case Send(data) => SendKeeps(s, data); SendProtects(s, data); SendAnnounces(s, ev);
        case Lose(batch) =>
          LoseKeeps(s, batch);
          assert ProtectInv(Step(s, ev)) by { LosesProtected(s, batch); }
          SendAnnounces(s, ev);
      }
      RunAnnounces(Step(s, ev), evs[1..], t);
    }
  }

  lemma LosesProtected(s: Sender, batch: seq<Bytes>)
    requires ProtectInv(s) && (batch != [] ==> DropsSafely(s, batch)) && (forall i :: 0 <= i < |batch| ==> batch[i] != [])
    ensures ProtectInv(Step(s, Lose(batch)))
  {
    hide ProtectInv, Step, Aligned;
    if batch != [] {
      LoseProtects(s, batch);
    } else {
      LoseNothing(s);
    }
  }

  /** In runs whose losses drop safely every boundary announced is a group start. */
  lemma SafeRunsAnnounceStarts(k: int, ic: Cipher, evs: seq<Event>, t: Sender)
    requires Reaches(Start(k, ic), evs, t) && LosesSafely(Start(k, ic), evs)
    ensures AnnouncesStarts(t)
  {
    var s := Start(k, ic);
    StartInv(k, ic);
    assert ProtectInv(s) && AnnouncesStarts(s);
    SameGroupSize(s, evs, t);
    RunAnnounces(s, evs, t);
  }

  /**
   With K = 3: after frames 1 to 3 a batch is dropped between groups, frame 5 opens a group
   there, and the change to one path announces 5, the second number of the receiver's group 4.
   */
  lemma MisalignedSuspend(ic: Cipher, x: Bytes) returns (t: Sender)
    requires x != []
    ensures var evs := [Send(x), Send(x), Send(x), Lose([x]), Send(x), Paths(1)];
            Reaches(Start(3, ic), evs, t) && LosesApart(Start(3, ic), evs)
    ensures t.sent == [x, x, x, x, x] && t.log == [Par(1, [x, x, x]), Ctl(ModeControl(1, Suspend, 5), 5)]
    ensures t.lost == {4} && t.enc.k == 3 && t.enc.ic == ic && !Aligned(5, 3) && Divides(5, 4, 3)
  {
    hide Step, Goes, ParityOf;
    var o := Start(3, ic);
    var evs, s := FirstGroup(ic, x);
    DropAndSend(o, evs, s, ic, x);
    GoesOn(o, evs, s, Lose([x]));
    evs, s := evs + [Lose([x])], Step(s, Lose([x]));
    GoesOn(o, evs, s, Send(x));
    evs, s := evs + [Send(x)], Step(s, Send(x));
    GoesOn(o, evs, s, Paths(1));
    evs, t := evs + [Paths(1)], Step(s, Paths(1));
    assert evs == [Send(x), Send(x), Send(x), Lose([x]), Send(x), Paths(1)];
    assert Reaches(o, evs, t) && LosesApart(o, evs) by { WhatGoes(o, evs, t); }
  }

  lemma JoinGoes(o: Sender, evs: seq<Event>, s: Sender, x: Bytes) returns (t: Sender)
    requires Goes(o, evs, s) && x != [] && |s.sent| < U32 - 1 && s.enc.multipath && s.enc.armed && |s.enc.open| + 1 < s.enc.k
    ensures Goes(o, evs + [Send(x)], t)
    ensures var n := |s.sent| + 1;
            t == s.(enc := s.enc.(lastSeq := n, open := s.enc.open + [VpnFrame(n, x)]), sent := s.sent + [x])
  {
    hide Step, Reaches, LosesApart;
    SendJoins(s, x);
    t := Step(s, Send(x));
    GoesOn(o, evs, s, Send(x));
  }

  lemma FirstGroup(ic: Cipher, x: Bytes) returns (evs: seq<Event>, s: Sender)
    requires x != []
    ensures Goes(Start(3, ic), evs, s) && evs == [Send(x), Send(x), Send(x)]
    ensures s == Sender(NewEncoder(3, ic).(lastSeq := 3), [x, x, x], [Par(1, [x, x, x])], {})
  {
    hide Step, Reaches, LosesApart, ParityOf;
    var o := Start(3, ic);
    assert Goes(o, [], o) by { NothingYet(o); }
    var s1 := JoinGoes(o, [], o, x);
    var s2 := JoinGoes(o, [] + [Send(x)], s1, x);
    SendCompletes(s2, x);
    s := Step(s2, Send(x));
    assert s2.enc.open == [VpnFrame(1, x), VpnFrame(2, x)];
    assert Payloads(s2.enc.open + [VpnFrame(3, x)]) == [x, x, x];
    assert s.log == [Par(1, [x, x, x])] && s.sent == [x, x, x];
    GoesOn(o, [] + [Send(x)] + [Send(x)], s2, Send(x));
    evs := [] + [Send(x)] + [Send(x)] + [Send(x)];
  }

  lemma LoseFour(s: Sender, x: Bytes)
    requires Ready(s) && |s.sent| == 3 && s.lost == {}
    ensures Step(s, Lose([x])) == s.(sent := s.sent + [x], lost := {4})
  {
    assert Numbers(3, 4) == {4};
  }

  lemma DropAndSend(o: Sender, evs: seq<Event>, s: Sender, ic: Cipher, x: Bytes)
    requires x != [] && s == Sender(NewEncoder(3, ic).(lastSeq := 3), [x, x, x], [Par(1, [x, x, x])], {})
    ensures Ready(s) && s.enc.Valid() && s.enc.open == []
    ensures var s4 := Step(s, Lose([x]));
            && Ready(s4) && s4.enc.Valid()
            && var s5 := Step(s4, Send(x));
               && Ready(s5) && s5.enc.Valid()
               && var t := Step(s5, Paths(1));
                  && t.enc.Valid() && t.enc.k == 3 && t.enc.ic == ic && t.sent == [x, x, x, x, x] && t.lost == {4}
                  && t.log == [Par(1, [x, x, x]), Ctl(ModeControl(1, Suspend, 5), 5)]
  {
    hide Step, Aligned;
    LoseFour(s, x);
    var s4 := Step(s, Lose([x]));
    SendCases(s4, x);
    var s5 := Step(s4, Send(x));
    assert s5.enc == s.enc.(lastSeq := 5, open := [VpnFrame(5, x)]) && s5.sent == [x, x, x, x, x] && s5.log == s.log;
    GivesUp(s5, ic, x);
  }

  lemma GivesUp(s: Sender, ic: Cipher, x: Bytes)
    requires x != [] && s.enc == NewEncoder(3, ic).(lastSeq := 5, open := [VpnFrame(5, x)])
    ensures Ready(s) && s.enc.Valid()
    ensures var t := Step(s, Paths(1));
            && t.enc.Valid() && t.enc.k == 3 && t.enc.ic == ic && t.sent == s.sent && t.lost == s.lost
            && t.log == s.log + [Ctl(ModeControl(1, Suspend, 5), 5)]
  {
    hide Aligned, GroupStart, NextGroupStart;
  }

  // ---- no boundary divides a group that the receiver decodes ----

  /** A parity the receiver takes lies on one side of the boundary. */
  predicate OneSide(x: Item, b: nat, k: nat)
    requires GroupSize(k)
  {
    x.Par? && Aligned(x.start, k) ==> !Divides(b, x.start, k)
  }

  /** Boundaries announced so far are behind the numbers to come, and divide no parity's group; parities are complete. */
  predicate Apart(s: Sender)
    requires GroupSize(s.enc.k)
  {
    && (forall i :: 0 <= i < |s.log| && IsSuspend(s.log[i]) ==>
          s.log[i].c.boundary <= s.enc.lastSeq + 1 && (s.enc.open != [] ==> s.log[i].c.boundary <= s.enc.open[0].n))
    && (forall i, j :: 0 <= i < |s.log| && 0 <= j < |s.log| && IsSuspend(s.log[i]) ==>
          OneSide(s.log[j], s.log[i].c.boundary, s.enc.k))
    && (forall j :: 0 <= j < |s.log| && s.log[j].Par? ==> |s.log[j].datas| == s.enc.k)
  }

  lemma SuspendBehind(s: Sender, count: int)
    requires NumbersInv(s) && s.enc.multipath && count < 2
    ensures var t := Step(s, Paths(count)); t.log != s.log ==> t.log[|t.log| - 1].c.boundary <= s.enc.lastSeq + 1
  {
    hide Aligned, ResumesRespected, ParitiesBelowLimit;
  }

  lemma SuspendApart(s: Sender, count: int)
    requires NumbersInv(s) && Apart(s) && s.enc.multipath && count < 2
    ensures Apart(Step(s, Paths(count)))
  {
    hide Step, Aligned, GroupStart, ResumesRespected, ParitiesBelowLimit;
    SuspendStep(s, count);
    SuspendBehind(s, count);
  }

  lemma PathsApart(s: Sender, count: int)
    requires NumbersInv(s) && Apart(s)
    ensures var t := Step(s, Paths(count)); t.enc.k == s.enc.k && Apart(t)
  {
    if (count >= 2) == s.enc.multipath {
    } else if count < 2 {
      SuspendApart(s, count);
    } else {
      hide Aligned, NoGroupLeft, ResumesRespected, ParitiesBelowLimit;
      ResumeStep(s, count);
    }
  }

  lemma SendApart(s: Sender, data: Bytes)
    requires NumbersInv(s) && Apart(s)
    ensures Apart(Step(s, Send(data)))
  {
    hide Step, Aligned, Payloads, ResumesRespected, ParitiesBelowLimit;
    if data == [] || |s.sent| >= U32 - 1 {
      SendsNothing(s, data);
    } else {
      SendCases(s, data);
    }
  }

  lemma {:induction false} RunApart(s: Sender, evs: seq<Event>, t: Sender)
    requires ModeInv(s) && Apart(s) && Reaches(s, evs, t)
    ensures GroupSize(t.enc.k) && Apart(t)
    decreases |evs|
  {
    hide ModeInv, Apart, Step;
    assert GroupSize(s.enc.k) && s.enc.lastSeq < U32 && NumbersInv(s) by { SizeKept(s); }
    if evs != [] {
      match evs[0] {
        case Paths(count) => PathsKeeps(s, count); PathsApart(s, count);
        case Send(data) => SendKeeps(s, data); SendApart(s, data);
        case Lose(batch) => LoseKeeps(s, batch); LoseApart(s, batch);
      }
      RunApart(Step(s, evs[0]), evs[1..], t);
    }
  }

  lemma SizeKept(s: Sender)
    requires ModeInv(s)
    ensures GroupSize(s.enc.k) && s.enc.lastSeq < U32 && NumbersInv(s)
  {
  }

  lemma ParitiesEnd(t: Sender)
    requires ModeInv(t)
    ensures forall j :: 0 <= j < |t.log| && t.log[j].Par? ==> 1 <= t.log[j].start && t.log[j].start + t.enc.k <= |t.sent| + 1
  {
    hide ResumesRespected, SuspendsRespected, ModeTied, BoundaryInv;
    assert Limit(t) <= |t.sent| + 1;
  }

  lemma LoseApart(s: Sender, batch: seq<Bytes>)
    requires NumbersInv(s) && Apart(s)
    ensures Apart(Step(s, Lose(batch)))
  {
    hide Aligned;
  }

  /** Over every run, whatever is lost: no SUSPEND boundary divides the group of a parity the receiver takes. */
  lemma BoundariesDivideNoGroup(k: int, ic: Cipher, evs: seq<Event>, t: Sender)
    requires Reaches(Start(k, ic), evs, t)
    ensures GroupSize(t.enc.k)
    ensures forall i, j :: 0 <= i < |t.log| && 0 <= j < |t.log| && IsSuspend(t.log[i]) && Taken(t.log[j], t.enc.k) ==>
              !Divides(t.log[i].c.boundary, t.log[j].start, t.enc.k)
    ensures forall j :: 0 <= j < |t.log| && t.log[j].Par? ==>
              |t.log[j].datas| == t.enc.k && 1 <= t.log[j].start && t.log[j].start + t.enc.k <= |t.sent| + 1
  {
    hide Reaches, Divides, Aligned, Start, ModeInv, Apart;
    StartInv(k, ic);
    StartApart(k, ic);
    RunApart(Start(k, ic), evs, t);
    RunKeeps(Start(k, ic), evs, t);
    ParitiesEnd(t);
    ApartSides(t);
  }

  lemma StartApart(k: int, ic: Cipher)
    ensures GroupSize(Start(k, ic).enc.k) && Apart(Start(k, ic))
  {
  }

  lemma ApartSides(t: Sender)
    requires GroupSize(t.enc.k) && Apart(t)
    ensures forall i, j :: 0 <= i < |t.log| && 0 <= j < |t.log| && IsSuspend(t.log[i]) && Taken(t.log[j], t.enc.k) ==>
              !Divides(t.log[i].c.boundary, t.log[j].start, t.enc.k)
    ensures forall j :: 0 <= j < |t.log| && t.log[j].Par? ==> |t.log[j].datas| == t.enc.k
  {
    hide Aligned;
    forall i, j | 0 <= i < |t.log| && 0 <= j < |t.log| && IsSuspend(t.log[i]) && Taken(t.log[j], t.enc.k)
      ensures !Divides(t.log[i].c.boundary, t.log[j].start, t.enc.k)
    {
      assert OneSide(t.log[j], t.log[i].c.boundary, t.enc.k);
    }
  }
}
