/**
 The retirement theorem needs room in the decoders: a run over groups of two, all of
 it within the reorder window, in which the decoder that retires and the one that
 does not deliver different frames.  A full decoder gives up its oldest group: where
 the one that retired has room, the other gives up a group that could still be rebuilt.
 */
module RetirementLimits {
  import opened Xor
  import opened Wire
  import opened FecControl
  import opened FecParity
  import opened FecEncoder
  import opened GroupDecoder
  import opened GroupWork
  import DecoderSoundness
  import opened RecoveryComplete
  import opened Reorder
  import opened Retirement

  // ---- runs, event by event ----

  /** Both receivers after the events, the run meeting the chosen conditions. */
  ghost predicate Reached(o: Receiver, evs: seq<Event>, r: Receiver, q: Receiver, bs: set<nat>, roomy: bool, near: bool) {
    && r == After(o, evs, true) && q == After(o, evs, false)
    && AllInRange(evs, 2, bs) && RunWith(o, o, evs, roomy, near)
    && r.Sane() && q.Sane()
  }

  ghost predicate Fits(r: Receiver, q: Receiver, ev: Event, bs: set<nat>, roomy: bool, near: bool)
    requires q.Sane()
  {
    ev.Input? ==>
      InRange(ev.x, 2, bs) && (roomy ==> Roomy(r.fec, q.fec)) && (near ==> Near(q.fec, q.order, ev.x))
  }

  lemma {:induction false} AfterOneMore(r: Receiver, evs: seq<Event>, ev: Event, told: bool)
    requires After(r, evs, told).Sane()
    ensures After(r, evs + [ev], told) == After(r, evs, told).Next(ev, told)
    decreases |evs|
  {
    hide Receiver.Next;
    if evs == [] {
      assert (evs + [ev])[1..] == [];
    } else if r.Sane() {
      assert (evs + [ev])[1..] == evs[1..] + [ev];
      AfterOneMore(r.Next(evs[0], told), evs[1..], ev, told);
    }
  }

  lemma {:induction false} RunOneMore(r: Receiver, q: Receiver, evs: seq<Event>, ev: Event, roomy: bool, near: bool)
    requires RunWith(r, q, evs, roomy, near) && After(r, evs, true).Sane() && After(q, evs, false).Sane()
    requires ev.Input? && roomy ==> Roomy(After(r, evs, true).fec, After(q, evs, false).fec)
    requires ev.Input? && near ==> Near(After(q, evs, false).fec, After(q, evs, false).order, ev.x)
    ensures RunWith(r, q, evs + [ev], roomy, near)
    decreases |evs|
  {
    hide Receiver.Next, Roomy, Near;
    if evs == [] {
      assert (evs + [ev])[1..] == [];
    } else {
      assert (evs + [ev])[1..] == evs[1..] + [ev];
      RunOneMore(r.Next(evs[0], true), q.Next(evs[0], false), evs[1..], ev, roomy, near);
    }
  }

  lemma Goes(o: Receiver, evs: seq<Event>, r: Receiver, q: Receiver, ev: Event, bs: set<nat>, roomy: bool, near: bool)
    requires Reached(o, evs, r, q, bs, roomy, near) && Fits(r, q, ev, bs, roomy, near)
    ensures Reached(o, evs + [ev], r.Next(ev, true), q.Next(ev, false), bs, roomy, near)
  {
    hide Receiver.Next, RunWith, After, Near, InRange;
    AfterOneMore(o, evs, ev, true);
    AfterOneMore(o, evs, ev, false);
    RunOneMore(o, o, evs, ev, roomy, near);
    NextSize(r, ev, true);
    NextSize(q, ev, false);
  }

  /** A data frame that completes nothing. */
  lemma NextData(r: Receiver, n: nat, data: Bytes, told: bool, e: Decoder, p: Order, out: seq<VpnFrame>)
    requires r.Sane() && r.fec.OnData(n, data, if told then r.order.expected else 0) == (e, None)
    requires InsertPair(r.order, VpnFrame(n, data), None) == (p, out)
    ensures r.Next(Input(DataIn(n, data)), told) == Receiver(e, p, r.out + out)
  {
    hide InsertPair, Decoder.OnData;
  }

  lemma NearData(d: Decoder, o: Order, n: nat, data: Bytes)
    requires GroupSize(d.k) && |d.done| == DONE_RING && WindowSize(o.size) && d.OnData(n, data, 0).1 == None
    requires 0 < n <= LAST_ORDERED && FateOf(o, n) != Beyond
    ensures Near(d, o, DataIn(n, data))
  {
    hide Decoder.OnData, FateOf;
  }

  // ---- groups of two ----

  const X: Bytes := [1]

  function F(n: nat): VpnFrame {
    VpnFrame(n, X)
  }

  /** The first member has come. */
  function Half(): Group {
    Group(map[0 := X], None)
  }

  lemma HalfWaits()
    ensures MissingCount(Half().members, 2) == 1 && MissingCount(Half().members[1 := X], 2) == 0
  {
    assert MissingCount(Half().members, 1) == 0 && MissingCount(Half().members[1 := X], 1) == 0;
  }

  ghost predicate Pair(d: Decoder, ic: Cipher) {
    d.Valid() && d.k == 2 && d.ic == ic && !d.staticSingle
  }

  /** Nothing stops the decoder from working on frame n of group s. */
  ghost predicate Open2(d: Decoder, n: nat, s: nat) {
    Pair(d, d.ic) && Aligned(s, 2) && s <= n < s + 2 && s + 2 < U32 && !d.IsDone(s) && !d.Retired(n) && !d.fence.Bypass(n)
  }

  /** The first member of a new group, with room for it. */
  lemma FirstMember(d: Decoder, s: nat, progress: nat)
    requires Open2(d, s, s) && s !in d.groups && |d.groups| < MAX_PENDING
    ensures d.OnData(s, X, progress) ==
            (d.(groups := d.groups[s := Half()], order := Pruned(d.order, d.groups.Keys) + [s]), None)
  {
    GroupStartUnique(s, 2, s);
    HalfWaits();
    assert map[][0 := X] == map[0 := X];
    assert d.groups[s := EmptyGroup][s := Half()] == d.groups[s := Half()];
  }

  /** The same in a full decoder: its oldest group goes. */
  lemma FirstMemberFull(d: Decoder, s: nat, progress: nat)
    requires Open2(d, s, s) && s !in d.groups && |d.groups| == MAX_PENDING && d.order != [] && d.order[0] in d.groups
    ensures var (e, rec) := d.OnData(s, X, progress);
            rec == None && e == d.(groups := (d.groups - {d.order[0]})[s := Half()], order := e.order)
  {
    GroupStartUnique(s, 2, s);
    HalfWaits();
    var g: map<nat, Group> := d.groups - {d.order[0]};
    assert d.MakeRoom().groups == g;
    assert map[][0 := X] == map[0 := X];
    assert g[s := EmptyGroup][s := Half()] == g[s := Half()];
  }

  /** The second member completes the group. */
  lemma SecondMember(d: Decoder, s: nat, progress: nat)
    requires Open2(d, s + 1, s) && s in d.groups && d.groups[s] == Half()
    ensures d.OnData(s + 1, X, progress) == (d.(groups := d.groups - {s}, done := d.done[s % DONE_RING := s]), None)
  {
    hide MissingCount, Verdict, Aligned, GroupStart, Decoder.GroupValid, Decoder.Retire, Decoder.NewGroup;
    GroupStartUnique(s + 1, 2, s);
    HalfWaits();
    assert d.groups[s := Half().(members := Half().members[1 := X])] - {s} == d.groups - {s};
  }

  function ParityFrameOf(ic: Cipher, s: nat): Bytes {
    ParityOf(ic, s, [X, X])
  }

  lemma ParityReads(ic: Cipher, s: nat)
    requires Aligned(s, 2) && s + 2 < U32
    ensures var b := ParityFrameOf(ic, s);
            && ParseHeader(b, 2) == Some(s) && ParseLengths(b, 2, TagLen(ic)) == Some(Lengths([X, X]))
            && FecParity.Open(ic, s, SealedBody(b, 2, Lengths([X, X]), TagLen(ic))) == Some(Body([X, X]))
  {
    hide ParityOf, ParseHeader, ParseLengths, FecParity.Open, SealedBody;
    ParityRoundTrip(ic, s, [X, X]);
  }

  /** The parity of a group of which nothing is there waits. */
  lemma ParityAlone(d: Decoder, s: nat)
    requires Pair(d, d.ic) && Aligned(s, 2) && s + 2 < U32 && s !in d.groups
    ensures d.OnParity(ParityFrameOf(d.ic, s), 0).1 == None
  {
    hide ParityFrameOf, ParseHeader, ParseLengths, FecParity.Open, SealedBody, Decoder.WithGroup, Decoder.GroupValid;
    ParityReads(d.ic, s);
    NoProgress(d);
    WithGroupFrame(d, s);
    MissingEmpty(2);
  }

  lemma HalvesGenuine(sent: seq<Bytes>, d: Decoder)
    requires d.Valid() && forall t :: t in d.groups ==> d.groups[t] == Half() && t <= |sent|
    requires forall i :: 0 <= i < |sent| ==> sent[i] == X
    ensures DecoderSoundness.GenuineGroups(sent, {}, d)
  {
    hide Aligned;
    forall t | t in d.groups ensures DecoderSoundness.GenuineGroup(sent, {}, d.k, t, d.groups[t]) {
      assert t >= 1 by { ShapeOf(d, t); AlignedPositive(t, d.k); }
    }
  }

  /** The parity of a group with one member rebuilds the other. */
  lemma ParityRebuilds(d: Decoder, s: nat, progress: nat)
    requires Pair(d, d.ic) && Aligned(s, 2) && s + 2 < U32 - 1 && s in d.groups
    requires forall t :: t in d.groups ==> d.groups[t] == Half() && t < U32 - 1
    requires !d.IsDone(s) && !d.Retired(s) && (progress == 0 || d.retiredBefore >= d.cleanupBefore)
    ensures d.OnParity(ParityFrameOf(d.ic, s), progress).1 == Some(F(s + 1))
  {
    hide ParityOf, ParseHeader, ParseLengths, FecParity.Open, SealedBody, Decoder.GroupValid, Decoder.OnParityBody, Aligned,
         DecoderSoundness.GenuineGroups, Lengths, Body;
    ParityReads(d.ic, s);
    AlignedPositive(s, 2);
    var sent := seq(U32 - 1, _ => X);
    assert DecoderSoundness.Block(sent, 2, s) == [X, X];
    HalvesGenuine(sent, d);
    assert AllBut(2, 1) == {0};
    ParityBodyStep(sent, d, s, progress, 1, {0}, false);
  }

  // ---- the reorder buffer, in the steps the runs take ----

  function Waiting(expected: nat): Order {
    Reorder(expected, WINDOW, map[], false)
  }

  lemma LateFrame(o: Order, n: nat)
    requires WindowSize(o.size) && 0 < n < o.expected <= LAST_ORDERED
    ensures InsertPair(o, F(n), None) == (o, [])
  {
    hide InsertPair;
    PairCases(o, F(n), None);
    DistanceOrdered(n, o.expected);
  }

  lemma HeldFrame(expected: nat, n: nat)
    requires 0 < expected < n < expected + WINDOW && n <= LAST_ORDERED
    ensures InsertPair(Waiting(expected), F(n), None) == (Reorder(expected, WINDOW, map[n := F(n)], true), [])
  {
    hide InsertPair;
    PairCases(Waiting(expected), F(n), None);
    DistanceOrdered(n, expected);
    assert map[][n := F(n)] == map[n := F(n)];
  }

  lemma FirstFrame(n: nat)
    requires 0 < n < LAST_ORDERED
    ensures InsertPair(Empty(), F(n), None) == (Waiting(n + 1), [F(n)])
  {
    hide InsertPair;
    PairCases(Empty(), F(n), None);
    assert Distance(n, n) == 0;
    assert map[][n := F(n)] == map[n := F(n)];
    DrainSingle(Reorder(n, WINDOW, map[n := F(n)], false), n, F(n));
  }

  // ---- a full decoder ----

  const BOUNDS: set<nat> := {1201}
  const S1 := ModeControl(1, Suspend, 1201)
  const R2 := ModeControl(2, Resume, 1283)

  /** Group 1301 came first, then the first members of the i groups from 1 on, all of them late. */
  ghost predicate Filling(r: Receiver, ic: Cipher, i: nat) {
    && r.order == Waiting(1302) && r.out == [F(1301)]
    && var d := r.fec;
       && Pair(d, ic) && d.fence == Fence(2, 1201, 1283) && d.cleanupBefore == 1201 && d.retiredBefore == 0
       && (forall j :: 0 <= j < DONE_RING ==> d.done[j] == 0)
       && |d.groups| == i + 1 && 1301 in d.groups && d.order != [] && d.order[0] == 1301
       && forall t :: t in d.groups ==> d.groups[t] == Half() && (t == 1301 || t < 2 * i + 1)
  }

  lemma OddAligned(i: nat)
    ensures Aligned(2 * i + 1, 2)
  {
  }

  lemma FillStep(r: Receiver, ic: Cipher, i: nat, told: bool)
    requires Filling(r, ic, i) && i < 511
    ensures r.Sane() && Filling(r.Next(Input(DataIn(2 * i + 1, X)), told), ic, i + 1)
    ensures Near(r.fec, r.order, DataIn(2 * i + 1, X))
  {
    hide InsertPair, Decoder.OnData, Decoder.GroupValid, Receiver.Next, Near, Aligned, Pruned;
    var d, n := r.fec, 2 * i + 1;
    OddAligned(i);
    assert Open2(d, n, n);
    var p := if told then r.order.expected else 0;
    FirstMember(d, n, p);
    FirstMember(d, n, 0);
    LateFrame(r.order, n);
    OnDataValid(d, n, X, p);
    var e := d.OnData(n, X, p).0;
    NextData(r, n, X, told, e, r.order, []);
    NearData(d, r.order, n, X);
    assert r.out + [] == r.out;
    OneMore(d.groups, n);
    FirstStays(d.order, d.groups.Keys, n);
  }

  lemma OneMore(g: map<nat, Group>, n: nat)
    requires n !in g
    ensures |g[n := Half()]| == |g| + 1
  {
    assert g[n := Half()].Keys == g.Keys + {n};
    assert |g| == |g.Keys| && |g[n := Half()]| == |g[n := Half()].Keys|;
  }

  lemma FirstStays(order: seq<nat>, live: set<nat>, n: nat)
    requires order != [] && order[0] in live
    ensures var o := Pruned(order, live) + [n]; o != [] && o[0] == order[0]
  {
  }

  /** SUSPEND and RESUME, and the first frame to arrive. */
  lemma FillStart(ic: Cipher) returns (evs: seq<Event>, r: Receiver, q: Receiver)
    ensures Reached(NewReceiver(2, ic), evs, r, q, BOUNDS, false, true)
    ensures Filling(r, ic, 0) && Filling(q, ic, 0)
  {
    hide After, RunWith, InsertPair, Near;
    var o := NewReceiver(2, ic);
    evs := [];
    NoEvents(o, BOUNDS, false, true);
    ModesOnly(o, S1);
    Goes(o, evs, o, o, Input(ModeIn(S1)), BOUNDS, false, true);
    var o1 := o.(fec := o.fec.(fence := Fence(1, 1201, 0), cleanupBefore := 1201));
    assert o.Next(Input(ModeIn(S1)), true) == o1 == o.Next(Input(ModeIn(S1)), false);
    ModesOnly(o1, R2);
    Goes(o, evs + [Input(ModeIn(S1))], o1, o1, Input(ModeIn(R2)), BOUNDS, false, true);
    var o2 := o.(fec := o.fec.(fence := Fence(2, 1201, 1283), cleanupBefore := 1201));
    assert o1.Next(Input(ModeIn(R2)), true) == o2 == o1.Next(Input(ModeIn(R2)), false);
    evs := evs + [Input(ModeIn(S1))] + [Input(ModeIn(R2))];
    FirstArrives(o2, ic);
    var ev := Input(DataIn(1301, X));
    Goes(o, evs, o2, o2, ev, BOUNDS, false, true);
    evs, r, q := evs + [ev], o2.Next(ev, true), o2.Next(ev, false);
  }

  lemma NoEvents(o: Receiver, bs: set<nat>, roomy: bool, near: bool)
    requires o.Sane()
    ensures Reached(o, [], o, o, bs, roomy, near)
  {
  }

  lemma ModesOnly(r: Receiver, c: ModeControl)
    requires r.Sane()
    ensures Near(r.fec, r.order, ModeIn(c))
  {
  }

  lemma FirstArrives(r: Receiver, ic: Cipher)
    requires r == Receiver(NewDecoder(2, ic).(fence := Fence(2, 1201, 1283), cleanupBefore := 1201), Empty(), [])
    ensures r.Sane() && Near(r.fec, r.order, DataIn(1301, X))
    ensures forall told :: Filling(r.Next(Input(DataIn(1301, X)), told), ic, 0)
  {
    hide InsertPair, Decoder.OnData;
    assert Aligned(1301, 2) by { OddAligned(650); }
    FirstFrame(1301);
    FirstMember(r.fec, 1301, 0);
    OnDataValid(r.fec, 1301, X, 0);
    assert r.out + [F(1301)] == [F(1301)];
  }

  lemma {:induction false} FillUp(o: Receiver, before: seq<Event>, r0: Receiver, q0: Receiver, ic: Cipher, i: nat)
    returns (evs: seq<Event>, r: Receiver, q: Receiver)
    requires Reached(o, before, r0, q0, BOUNDS, false, true) && Filling(r0, ic, i) && Filling(q0, ic, i) && i <= 511
    ensures Reached(o, evs, r, q, BOUNDS, false, true) && Filling(r, ic, 511) && Filling(q, ic, 511)
    decreases 511 - i
  {
    hide Reached, Filling, Receiver.Next, Near;
    if i == 511 {
      evs, r, q := before, r0, q0;
    } else {
      var ev := Input(DataIn(2 * i + 1, X));
      FillStep(r0, ic, i, true);
      FillStep(q0, ic, i, false);
      FillFits(r0, q0, ic, i);
      Goes(o, before, r0, q0, ev, BOUNDS, false, true);
      evs, r, q := FillUp(o, before + [ev], r0.Next(ev, true), q0.Next(ev, false), ic, i + 1);
    }
  }

  lemma FillFits(r: Receiver, q: Receiver, ic: Cipher, i: nat)
    requires Filling(r, ic, i) && Filling(q, ic, i) && i < 511
    ensures q.Sane() && Fits(r, q, Input(DataIn(2 * i + 1, X)), BOUNDS, false, true)
    ensures r.Sane() && r.Next(Input(DataIn(2 * i + 1, X)), true).Sane() && q.Next(Input(DataIn(2 * i + 1, X)), false).Sane()
  {
    hide Near, Receiver.Next, Decoder.GroupValid;
    FillStep(r, ic, i, true);
    FillStep(q, ic, i, false);
    OddAligned(i);
    GroupStartUnique(2 * i + 1, 2, 2 * i + 1);
  }

  /** Frame 1280 is let through and makes the one decoder retire. */
  ghost predicate Emptied(r: Receiver, ic: Cipher) {
    && r.order == Waiting(1302) && r.out == [F(1301)]
    && var d := r.fec;
       && Pair(d, ic) && d.fence == Fence(2, 1201, 1283) && d.cleanupBefore == 1201 && d.retiredBefore == 1201
       && (forall j :: 0 <= j < DONE_RING ==> d.done[j] == 0)
       && d.groups == map[1301 := Half()]
  }

  lemma RetireStep(r: Receiver, q: Receiver, ic: Cipher)
    requires Filling(r, ic, 511) && Filling(q, ic, 511)
    ensures var ev := Input(DataIn(1280, X));
            && r.Sane() && q.Sane() && Fits(r, q, ev, BOUNDS, false, true)
            && Emptied(r.Next(ev, true), ic) && q.Next(ev, false) == q
  {
    hide InsertPair, Decoder.GroupValid, Aligned, Near, Receiver.Next;
    RetiresAll(r, ic);
    NoProgress(q.fec);
    LateFrame(r.order, 1280);
    NextData(q, 1280, X, false, q.fec, q.order, []);
    NearData(q.fec, q.order, 1280, X);
    assert q.out + [] == q.out;
    assert Numbered(DataIn(1280, X), 2) by { GroupStartUnique(1280, 2, 1279); }
  }

  lemma RetiresTo(d: Decoder)
    requires d.cleanupBefore == 1201 && d.retiredBefore == 0 && 1301 in d.groups && d.groups[1301] == Half()
    requires forall t :: t in d.groups ==> t == 1301 || t < 1023
    ensures var e := d.Retire(1302); e == d.(retiredBefore := 1201, groups := map[1301 := Half()], order := e.order)
  {
    assert d.Retire(1302).groups == map[1301 := Half()];
  }

  lemma RetiresAll(r: Receiver, ic: Cipher)
    requires Filling(r, ic, 511)
    ensures r.Sane() && Emptied(r.Next(Input(DataIn(1280, X)), true), ic)
  {
    hide InsertPair, Decoder.GroupValid, Aligned, Receiver.Next, Decoder.Retire;
    LateFrame(r.order, 1280);
    RetireValid(r.fec, 1302);
    RetiresTo(r.fec);
    NextData(r, 1280, X, true, r.fec.Retire(1302), r.order, []);
    assert r.out + [] == r.out;
  }

  /** Frame 1401 starts a group: the decoder that retired has room. */
  lemma RoomStep(r: Receiver, ic: Cipher)
    requires Emptied(r, ic)
    ensures var t := r.Next(Input(DataIn(1401, X)), true);
            && t.order == Reorder(1302, WINDOW, map[1401 := F(1401)], true) && t.out == [F(1301)]
            && t.fec == r.fec.(groups := map[1301 := Half(), 1401 := Half()], order := t.fec.order) && Pair(t.fec, ic)
  {
    hide InsertPair, Decoder.GroupValid, Decoder.OnData;
    assert Aligned(1401, 2) by { OddAligned(700); }
    HeldFrame(1302, 1401);
    FirstMember(r.fec, 1401, 1302);
    OnDataValid(r.fec, 1401, X, 1302);
    assert r.out + [] == r.out;
    assert map[1301 := Half()][1401 := Half()] == map[1301 := Half(), 1401 := Half()];
  }

  /** The other one gives up group 1301. */
  lemma EvictStep(q: Receiver, ic: Cipher)
    requires Filling(q, ic, 511)
    ensures q.Sane() && Near(q.fec, q.order, DataIn(1401, X)) && Retirement.InRange(DataIn(1401, X), 2, BOUNDS)
    ensures var u := q.Next(Input(DataIn(1401, X)), false);
            && u.order == Reorder(1302, WINDOW, map[1401 := F(1401)], true) && u.out == [F(1301)]
            && Pair(u.fec, ic) && 1301 !in u.fec.groups
  {
    hide InsertPair, Decoder.GroupValid, Decoder.OnData, Receiver.Next, Near, GroupStart;
    assert Aligned(1401, 2) by { OddAligned(700); }
    hide Aligned;
    HeldFrame(1302, 1401);
    FirstMemberFull(q.fec, 1401, 0);
    OnDataValid(q.fec, 1401, X, 0);
    NextData(q, 1401, X, false, q.fec.OnData(1401, X, 0).0, Reorder(1302, WINDOW, map[1401 := F(1401)], true), []);
    assert q.out + [] == q.out;
    NearData(q.fec, q.order, 1401, X);
    GroupStartUnique(1401, 2, 1401);
  }

  /** The parity of group 1301: frame 1302 is rebuilt and delivered, */
  lemma DeliverStep(r: Receiver, ic: Cipher)
    requires r.Sane() && Pair(r.fec, ic)
    requires r.fec.groups == map[1301 := Half(), 1401 := Half()] && r.fec.cleanupBefore == r.fec.retiredBefore == 1201
    requires forall j :: 0 <= j < DONE_RING ==> r.fec.done[j] == 0
    requires r.order == Reorder(1302, WINDOW, map[1401 := F(1401)], true)
    ensures var t := r.Next(Input(ParityIn(ParityFrameOf(ic, 1301))), true); t.Sane() && |t.out| > |r.out|
  {
    hide ParityFrameOf, Decoder.GroupValid, Decoder.OnParity, Reorder<VpnFrame>.Insert, Receiver.Next;
    assert Aligned(1301, 2) by { OddAligned(650); }
    ParityRebuilds(r.fec, 1301, 1302);
    assert FateOf(r.order, 1302) == Due;
    InsertValid(r.order, 1302, F(1302));
    NextParity(r, ParityFrameOf(ic, 1301), true, F(1302));
  }

  lemma NextParity(r: Receiver, b: Bytes, told: bool, f: VpnFrame)
    requires r.Sane() && r.fec.OnParity(b, if told then r.order.expected else 0).1 == Some(f)
    ensures var t := r.Next(Input(ParityIn(b)), told); t.out == r.out + r.order.Insert(f.n, f).1 && t.Sane()
  {
    hide Decoder.OnParity, Reorder<VpnFrame>.Insert;
  }

  /** or not. */
  lemma NoDeliverStep(q: Receiver, ic: Cipher)
    requires q.Sane() && Pair(q.fec, ic) && 1301 !in q.fec.groups
    ensures var x := ParityIn(ParityFrameOf(ic, 1301)); var u := q.Next(Input(x), false);
            Near(q.fec, q.order, x) && Retirement.InRange(x, 2, BOUNDS) && u.Sane() && u.out == q.out
  {
    hide ParityFrameOf, Decoder.GroupValid, Decoder.OnParity, ParseHeader;
    assert Aligned(1301, 2) by { OddAligned(650); }
    ParityReads(ic, 1301);
    ParityAlone(q.fec, 1301);
  }

  /** All numbers are within reach, but one decoder is full: frame 1302 is delivered by the other one only. */
  lemma FullDecoderDiffers(ic: Cipher) returns (evs: seq<Event>)
    ensures var start := NewReceiver(2, ic);
            && AllInRange(evs, 2, BOUNDS) && RunWith(start, start, evs, false, true)
            && After(start, evs, true).out != After(start, evs, false).out
  {
    hide Receiver.Next, Near, RunWith, After, Filling, Emptied, ParityFrameOf;
    var o := NewReceiver(2, ic);
    var r, q;
    evs, r, q := FillStart(ic);
    evs, r, q := FillUp(o, evs, r, q, ic, 0);
    evs, r, q := Overflow(o, evs, r, q, ic);
    var ev := Input(ParityIn(ParityFrameOf(ic, 1301)));
    DeliverStep(r, ic);
    NoDeliverStep(q, ic);
    Goes(o, evs, r, q, ev, BOUNDS, false, true);
    evs := evs + [ev];
  }

  lemma Overflow(o: Receiver, before: seq<Event>, r0: Receiver, q0: Receiver, ic: Cipher)
    returns (evs: seq<Event>, r: Receiver, q: Receiver)
    requires Reached(o, before, r0, q0, BOUNDS, false, true) && Filling(r0, ic, 511) && Filling(q0, ic, 511)
    ensures Reached(o, evs, r, q, BOUNDS, false, true) && Pair(r.fec, ic) && Pair(q.fec, ic) && 1301 !in q.fec.groups
    ensures r.fec.groups == map[1301 := Half(), 1401 := Half()] && r.fec.cleanupBefore == r.fec.retiredBefore == 1201
    ensures forall j :: 0 <= j < DONE_RING ==> r.fec.done[j] == 0
    ensures r.order == Reorder(1302, WINDOW, map[1401 := F(1401)], true) && r.out == q.out
  {
    hide Receiver.Next, Near, RunWith, After, Filling;
    var ev := Input(DataIn(1280, X));
    RetireStep(r0, q0, ic);
    Goes(o, before, r0, q0, ev, BOUNDS, false, true);
    evs, r := before + [ev], r0.Next(ev, true);
    ev := Input(DataIn(1401, X));
    RoomStep(r, ic);
    EvictStep(q0, ic);
    Goes(o, evs, r, q0, ev, BOUNDS, false, true);
    evs, r, q := evs + [ev], r.Next(ev, true), q0.Next(ev, false);
  }
}
