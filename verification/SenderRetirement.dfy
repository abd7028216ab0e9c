/**
 Retirement against what the sender emits.  Over every run of the sending port, drops
 anywhere included, its boundaries and parities are such that forgetting retired
 groups is invisible, although a boundary inside a group retires numbers of a group
 that is still to come.
 */
module SenderRetirement {
  import opened Xor
  import opened Wire
  import opened FecControl
  import opened FecParity
  import opened FecEncoder
  import Modes = SenderModes
  import AcceptedParities
  import Boundaries
  import opened GroupDecoder
  import opened Reorder
  import opened Retirement
  import opened RetiredGroups
  import opened RetirementOnce

  /**
   An input the receiver can get from a sender whose run ended in t.  Nothing is asked of data payloads, and
   numbers that were dropped may come too.
   */
  ghost predicate FromSender(t: Modes.Sender, x: Input) {
    match x
    case DataIn(n, data) => 1 <= n <= |t.sent|
    case ParityIn(b) => exists i :: 0 <= i < |t.log| && t.log[i].Par? && b == ParityOf(t.enc.ic, t.log[i].start, t.log[i].datas)
    case ModeIn(c) => exists i :: 0 <= i < |t.log| && t.log[i].Ctl? && t.log[i].c == c
  }

  ghost predicate AllFromSender(t: Modes.Sender, evs: seq<Event>) {
    forall i :: 0 <= i < |evs| && evs[i].Input? ==> FromSender(t, evs[i].x)
  }

  /** The boundaries of the SUSPEND controls of a run. */
  ghost function Bounds(log: seq<Modes.Item>): (bs: set<nat>)
    ensures forall i :: 0 <= i < |log| && Modes.IsSuspend(log[i]) ==> log[i].c.boundary in bs
    ensures forall b :: b in bs ==> exists i :: 0 <= i < |log| && Modes.IsSuspend(log[i]) && log[i].c.boundary == b
  {
    if log == [] then {}
    else
      var rest := Bounds(log[..|log| - 1]);
      var x := log[|log| - 1];
      if Modes.IsSuspend(x) then rest + {x.c.boundary} else rest
  }

  lemma ParityInRange(k: int, ic: Cipher, sevs: seq<Modes.Event>, t: Modes.Sender, i: nat)
    requires Modes.Reaches(Modes.Start(k, ic), sevs, t) && |t.sent| <= LAST_ORDERED
    requires i < |t.log| && t.log[i].Par?
    ensures GroupSize(t.enc.k) && InRange(ParityIn(ParityOf(t.enc.ic, t.log[i].start, t.log[i].datas)), t.enc.k, Bounds(t.log))
  {
    hide Modes.Reaches, ParseHeader, EncodeParity, Bounds, Divides;
    Boundaries.BoundariesDivideNoGroup(k, ic, sevs, t);
    var x := t.log[i];
    HeaderNamesStart(t.enc.ic, x.start, Lengths(x.datas), Body(x.datas));
    var h := ParseHeader(ParityOf(t.enc.ic, x.start, x.datas), t.enc.k);
    if h.Some? {
      forall b | b in Bounds(t.log) ensures !Divides(b, x.start, t.enc.k) {
        var j :| 0 <= j < |t.log| && Modes.IsSuspend(t.log[j]) && t.log[j].c.boundary == b;
      }
    }
  }

  lemma SenderInRange(k: int, ic: Cipher, sevs: seq<Modes.Event>, t: Modes.Sender, x: Input)
    requires Modes.Reaches(Modes.Start(k, ic), sevs, t) && |t.sent| + ClampGroup(k) <= LAST_ORDERED && FromSender(t, x)
    ensures InRange(x, ClampGroup(k), Bounds(t.log))
  {
    hide Modes.Reaches, ParityOf, Bounds, Split, ParseHeader;
    Modes.SameGroupSize(Modes.Start(k, ic), sevs, t);
    match x
    case DataIn(n, data) =>
    case ParityIn(b) =>
      var i :| 0 <= i < |t.log| && t.log[i].Par? && b == ParityOf(t.enc.ic, t.log[i].start, t.log[i].datas);
      ParityInRange(k, ic, sevs, t, i);
    case ModeIn(c) =>
      var i :| 0 <= i < |t.log| && t.log[i].Ctl? && t.log[i].c == c;
      assert c.op == Suspend ==> Modes.IsSuspend(t.log[i]);
  }

  lemma AllSenderInRange(k: int, ic: Cipher, sevs: seq<Modes.Event>, t: Modes.Sender, evs: seq<Event>)
    requires Modes.Reaches(Modes.Start(k, ic), sevs, t) && |t.sent| + ClampGroup(k) <= LAST_ORDERED && AllFromSender(t, evs)
    ensures AllInRange(evs, ClampGroup(k), Bounds(t.log))
  {
    hide Modes.Reaches, FromSender, Bounds, InRange;
    forall i | 0 <= i < |evs| && evs[i].Input? ensures InRange(evs[i].x, ClampGroup(k), Bounds(t.log)) {
      SenderInRange(k, ic, sevs, t, evs[i].x);
    }
  }

  /** Retirement is invisible on everything within reach that any run of the sender can produce, in any order and with any repetition, */
  lemma InvisibleOnSenderRuns(k: int, ic: Cipher, sevs: seq<Modes.Event>, t: Modes.Sender, evs: seq<Event>)
    requires Modes.Reaches(Modes.Start(k, ic), sevs, t) && |t.sent| + ClampGroup(k) <= LAST_ORDERED && AllFromSender(t, evs)
    requires RunWith(NewReceiver(k, ic), NewReceiver(k, ic), evs, true, true)
    ensures After(NewReceiver(k, ic), evs, true).out == After(NewReceiver(k, ic), evs, false).out
    ensures After(NewReceiver(k, ic), evs, true).order == After(NewReceiver(k, ic), evs, false).order
  {
    hide *;
    AllSenderInRange(k, ic, sevs, t, evs);
    RetirementInvisible(k, ic, evs, Bounds(t.log));
  }

  /** and, when each frame comes at most once, on everything. */
  lemma InvisibleOnPlainRuns(k: int, ic: Cipher, sevs: seq<Modes.Event>, t: Modes.Sender, evs: seq<Event>)
    requires Modes.Reaches(Modes.Start(k, ic), sevs, t) && |t.sent| + ClampGroup(k) <= LAST_ORDERED && AllFromSender(t, evs)
    requires RunWith(NewReceiver(k, ic), NewReceiver(k, ic), evs, true, false) && NoRepeats(evs, ClampGroup(k))
    ensures After(NewReceiver(k, ic), evs, true).out == After(NewReceiver(k, ic), evs, false).out
    ensures After(NewReceiver(k, ic), evs, true).order == After(NewReceiver(k, ic), evs, false).order
  {
    hide *;
    AllSenderInRange(k, ic, sevs, t, evs);
    InvisibleWithoutRepeats(k, ic, evs, Bounds(t.log));
  }

  /**
   But a group is not always retired whole: the sender's run with K = 3 that announces boundary 5, and
   a receiver that gets that control, frame 5 and the parity of the first group.  Group 4 is retired,
   and its frame 6 is the next one to be delivered.
   */
  lemma RetiredGroupStillDelivers(ic: Cipher, x: Bytes, f: VpnFrame) returns (sevs: seq<Modes.Event>, t: Modes.Sender, evs: seq<Event>)
    requires 0 < |x| < U32 && f.n == 6
    ensures Modes.Reaches(Modes.Start(3, ic), sevs, t) && AcceptedParities.LosesApart(Modes.Start(3, ic), sevs)
    ensures AllFromSender(t, evs) && forall i :: 0 <= i < |evs| && evs[i].Input? && evs[i].x.DataIn? ==> evs[i].x.n !in t.lost
    ensures var r := After(NewReceiver(3, ic), evs, true);
            && WindowSize(r.order.size) && r.fec.Retired(4) && !Covered(r.order, 4, 3) && r.order.Insert(6, f).1 == [f]
  {
    sevs := [Modes.Send(x), Modes.Send(x), Modes.Send(x), Modes.Lose([x]), Modes.Send(x), Modes.Paths(1)];
    hide *;
    t := Boundaries.MisalignedSuspend(ic, x);
    var c, p := ModeControl(1, Suspend, 5), ParityOf(ic, 1, [x, x, x]);
    evs := [Input(ModeIn(c)), Input(DataIn(5, x)), Input(ParityIn(p))];
    Emitted(t, x, c, p);
    ThreeInputs(ic, x, c, p, f);
  }

  lemma Emitted(t: Modes.Sender, x: Bytes, c: ModeControl, p: Bytes)
    requires t.log == [Modes.Par(1, [x, x, x]), Modes.Ctl(c, 5)] && |t.sent| == 5 && p == ParityOf(t.enc.ic, 1, [x, x, x])
    ensures AllFromSender(t, [Input(ModeIn(c)), Input(DataIn(5, x)), Input(ParityIn(p))])
  {
    hide ParityOf;
    assert t.log[1] == Modes.Ctl(c, 5) && t.log[0] == Modes.Par(1, [x, x, x]);
  }

  lemma ThreeInputs(ic: Cipher, x: Bytes, c: ModeControl, p: Bytes, f: VpnFrame)
    requires 0 < |x| < U32 && f.n == 6 && c == ModeControl(1, Suspend, 5) && p == ParityOf(ic, 1, [x, x, x])
    ensures var r := After(NewReceiver(3, ic), [Input(ModeIn(c)), Input(DataIn(5, x)), Input(ParityIn(p))], true);
            && WindowSize(r.order.size) && r.fec.Retired(4) && !Covered(r.order, 4, 3) && r.order.Insert(6, f).1 == [f]
  {
    hide ParityOf, ParseHeader;
    var r0 := NewReceiver(3, ic);
    var e1, e2, e3 := Input(ModeIn(c)), Input(DataIn(5, x)), Input(ParityIn(p));
    var r1 := SuspendFirst(r0, c);
    var r2 := FrameFive(r1, x);
    var r3 := r2.Next(e3, true);
    assert ParseHeader(p, 3) == Some(1) by { GroupOneHeader(ic, x); }
    TheParityRetires(r2, p);
    AfterThree(r0, e1, e2, e3);
    assert !Covers(r3.order, 6);
    DueFrame(r3.order, f);
  }

  lemma GroupOneHeader(ic: Cipher, x: Bytes)
    requires 0 < |x| < U32
    ensures ParseHeader(ParityOf(ic, 1, [x, x, x]), 3) == Some(1)
  {
    hide ParityOf, ParseHeader, ParseLengths, Open;
    ParityRoundTrip(ic, 1, [x, x, x]);
  }

  lemma SuspendFirst(r: Receiver, c: ModeControl) returns (t: Receiver)
    requires r.fec == NewDecoder(3, r.fec.ic) && r.order == Empty() && c == ModeControl(1, Suspend, 5)
    ensures r.Sane() && t == r.Next(Input(ModeIn(c)), true)
    ensures t.order == Empty() && t.fec == r.fec.(fence := Fence(1, 5, 0), cleanupBefore := 5)
  {
    t := r.Next(Input(ModeIn(c)), true);
  }

  lemma FrameFive(r: Receiver, x: Bytes) returns (t: Receiver)
    requires r.fec == NewDecoder(3, r.fec.ic).(fence := Fence(1, 5, 0), cleanupBefore := 5) && r.order == Empty()
    ensures r.Sane() && t == r.Next(Input(DataIn(5, x)), true)
    ensures t.fec == r.fec && t.order == Reorder(6, WINDOW, map[], false)
  {
    hide InsertPair;
    var f := VpnFrame(5, x);
    t := r.Next(Input(DataIn(5, x)), true);
    PairCases(Empty(), f, None);
    InsertFirst(5, f);
    DrainSingle(Reorder(5, WINDOW, map[5 := f], false), 5, f);
    assert Empty<VpnFrame>().buffered[5 := f] == map[5 := f];
  }

  lemma TheParityRetires(r: Receiver, p: Bytes)
    requires r.fec == NewDecoder(3, r.fec.ic).(fence := Fence(1, 5, 0), cleanupBefore := 5)
    requires r.order == Reorder(6, WINDOW, map[], false) && ParseHeader(p, 3) == Some(1)
    ensures r.Sane() && r.Next(Input(ParityIn(p)), true).order == r.order && r.Next(Input(ParityIn(p)), true).fec.retiredBefore == 5
  {
    hide ParseHeader, ParseLengths, Decoder.AcceptParity;
  }

  lemma AfterThree(r: Receiver, x: Event, y: Event, z: Event)
    requires r.Sane() && r.Next(x, true).Sane() && r.Next(x, true).Next(y, true).Sane()
    ensures After(r, [x, y, z], true) == r.Next(x, true).Next(y, true).Next(z, true)
  {
    hide Receiver.Next;
    assert [x, y, z][1..] == [y, z];
    AfterTwo(r.Next(x, true), y, z);
  }

  lemma DueFrame(o: Order, f: VpnFrame)
    requires o == Reorder(6, WINDOW, map[], false) && f.n == 6
    ensures o.Insert(6, f).1 == [f]
  {
    assert Distance(6, 6) == 0;
    assert o.buffered[6 := f] == map[6 := f];
    DrainSingle(Reorder(6, WINDOW, map[6 := f], false), 6, f);
  }
}
