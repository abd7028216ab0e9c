/**
 The retirement theorem needs the frames to be within the reorder window: a run over
 groups of two, with room in both decoders throughout, in which the decoder that
 retires and the one that does not deliver different frames.  A frame beyond the
 window is decoded although it is not kept, so its group finishes uncovered; a late
 frame then takes that group's place in the ring of finished groups on one side only.
 The far frame comes again later; where nothing is repeated the window does not matter
 (RetirementOnce).
 */
module BeyondWindow {
  import opened Wire
  import opened FecControl
  import opened FecParity
  import opened FecEncoder
  import opened GroupDecoder
  import opened Reorder
  import opened Retirement
  import opened RetirementLimits

  /** The far group; it shares its place in the ring of finished groups with group 1. */
  const S: nat := 65793

  const Window := Fence(2, 3, 515)

  const BOUNDS: set<nat> := {3}

  datatype State = State(order: Order, out: seq<VpnFrame>, groups: map<nat, Group>, slot: nat, fence: Fence, cleanup: nat, retired: nat)

  ghost predicate Is(r: Receiver, ic: Cipher, st: State) {
    && r.order == st.order && r.out == st.out && Pair(r.fec, ic) && r.fec.groups == st.groups
    && (forall j :: 0 <= j < DONE_RING ==> r.fec.done[j] == (if j == 1 then st.slot else 0))
    && r.fec.fence == st.fence && r.fec.cleanupBefore == st.cleanup && r.fec.retiredBefore == st.retired
    && WindowSize(st.order.size) && |st.groups| < MAX_PENDING
  }

  lemma FarAligned()
    ensures Aligned(S, 2) && Aligned(1, 2)
  {
    OddAligned(32896);
    OddAligned(0);
  }

  lemma FarFrame(n: nat)
    requires S <= n <= S + 1
    ensures InsertPair(Waiting(2), F(n), None) == (Waiting(2), [])
  {
    hide InsertPair;
    PairCases(Waiting(2), F(n), None);
    DistanceOrdered(n, 2);
  }

  /** A decoder that stays as it is, and a buffer that takes the frame. */
  lemma DataStep(r: Receiver, ic: Cipher, st: State, n: nat, told: bool, p: Order,
                 e: Decoder, groups: map<nat, Group>, slot: nat, retired: nat)
    requires Is(r, ic, st) && r.Sane() && n < U32 && r.fec.OnData(n, X, if told then r.order.expected else 0) == (e, None)
    requires InsertPair(st.order, F(n), None) == (p, []) && WindowSize(p.size)
    requires e.groups == groups && |groups| < MAX_PENDING && e.k == 2 && e.ic == ic && !e.staticSingle
    requires |e.done| == DONE_RING && forall j :: 0 <= j < DONE_RING ==> e.done[j] == (if j == 1 then slot else 0)
    requires e.fence == st.fence && e.cleanupBefore == st.cleanup && e.retiredBefore == retired
    ensures Is(r.Next(Input(DataIn(n, X)), told), ic, st.(order := p, groups := groups, slot := slot, retired := retired))
  {
    hide InsertPair, Decoder.OnData, Decoder.GroupValid, Aligned;
    OnDataValid(r.fec, n, X, if told then r.order.expected else 0);
    assert r.out + [] == r.out;
  }

  const St1 := State(Waiting(2), [F(1)], map[1 := Half()], 0, Window, 3, 0)
  const St2 := St1.(groups := map[1 := Half(), S := Half()])
  const St3 := St1.(slot := S)
  const St4 := St3.(order := Reorder(2, WINDOW, map[4 := F(4)], true))
  const St5 := St3.(order := Waiting(5), out := [F(1)] + [F(4)])

  lemma Step2(r: Receiver, ic: Cipher, told: bool)
    requires Is(r, ic, St1)
    ensures r.Sane() && Is(r.Next(Input(DataIn(S, X)), told), ic, St2)
  {
    hide InsertPair, Decoder.OnData, Decoder.GroupValid, Receiver.Next;
    FarAligned();
    FarFrame(S);
    FirstMember(r.fec, S, if told then r.order.expected else 0);
    var g := map[1 := Half()][S := Half()];
    assert g == St2.groups && g.Keys == {1, S} && |g| == |g.Keys|;
    DataStep(r, ic, St1, S, told, Waiting(2), r.fec.OnData(S, X, if told then r.order.expected else 0).0, St2.groups, 0, 0);
  }

  lemma Step3(r: Receiver, ic: Cipher, told: bool)
    requires Is(r, ic, St2)
    ensures r.Sane() && Is(r.Next(Input(DataIn(S + 1, X)), told), ic, St3)
  {
    hide InsertPair, Decoder.OnData, Decoder.GroupValid, Receiver.Next;
    FarAligned();
    FarFrame(S + 1);
    SecondMember(r.fec, S, if told then r.order.expected else 0);
    assert map[1 := Half(), S := Half()] - {S} == map[1 := Half()];
    DataStep(r, ic, St2, S + 1, told, Waiting(2), r.fec.OnData(S + 1, X, if told then r.order.expected else 0).0, St3.groups, S, 0);
  }

  lemma Step4(r: Receiver, ic: Cipher, told: bool)
    requires Is(r, ic, St3)
    ensures r.Sane() && Is(r.Next(Input(DataIn(4, X)), told), ic, St4)
  {
    hide InsertPair, Decoder.GroupValid, Receiver.Next;
    HeldFrame(2, 4);
    DataStep(r, ic, St3, 4, told, St4.order, r.fec, St3.groups, S, 0);
  }

  lemma Expires(r: Receiver, ic: Cipher, st: State, n: nat, told: bool)
    requires Is(r, ic, st) && st.order == Reorder(st.order.expected, WINDOW, map[n := F(n)], true)
    requires 0 < st.order.expected < n && n + 1 < U32
    ensures r.Sane() && Is(r.Next(Timeout, told), ic, st.(order := Waiting(n + 1), out := st.out + [F(n)]))
  {
    ExpireSingle(st.order, n, F(n));
  }

  // ---- the two receivers part ----

  const A6 := St5.(order := Reorder(5, WINDOW, map[512 := F(512)], true), groups := map[], retired := 3)
  const B6 := A6.(groups := map[1 := Half()], retired := 0)
  const B7 := B6.(groups := map[], slot := 1)
  const A8 := A6.(order := Waiting(513), out := St5.out + [F(512)])
  const B8 := A8.(slot := 1, retired := 0)
  const A9 := A8.(order := Reorder(513, MAX_WINDOW, map[S := F(S)], true))
  const B9 := A9.(groups := map[S := Half()], slot := 1, retired := 0)

  /** Frame 512 is let through; it makes one decoder retire. */
  lemma StepA6(r: Receiver, ic: Cipher)
    requires Is(r, ic, St5)
    ensures r.Sane() && Is(r.Next(Input(DataIn(512, X)), true), ic, A6)
  {
    hide InsertPair, Decoder.GroupValid, Receiver.Next;
    HeldFrame(5, 512);
    var none: map<nat, Group> := map[];
    assert r.fec.Retire(5).groups == none;
    DataStep(r, ic, St5, 512, true, A6.order, r.fec.Retire(5), none, S, 3);
  }

  lemma StepB6(r: Receiver, ic: Cipher)
    requires Is(r, ic, St5)
    ensures r.Sane() && Is(r.Next(Input(DataIn(512, X)), false), ic, B6)
  {
    hide InsertPair, Decoder.GroupValid, Receiver.Next;
    HeldFrame(5, 512);
    NoProgress(r.fec);
    DataStep(r, ic, St5, 512, false, A6.order, r.fec, St5.groups, S, 0);
  }

  /** Frame 2 is late; it finishes group 1 where that is still known. */
  lemma StepA7(r: Receiver, ic: Cipher)
    requires Is(r, ic, A6)
    ensures r.Sane() && Is(r.Next(Input(DataIn(2, X)), true), ic, A6)
  {
    hide InsertPair, Decoder.GroupValid, Receiver.Next;
    LateFrame(A6.order, 2);
    DataStep(r, ic, A6, 2, true, A6.order, r.fec, A6.groups, S, 3);
  }

  lemma StepB7(r: Receiver, ic: Cipher)
    requires Is(r, ic, B6)
    ensures r.Sane() && Is(r.Next(Input(DataIn(2, X)), false), ic, B7)
  {
    hide InsertPair, Decoder.GroupValid, Decoder.OnData;
    FarAligned();
    LateFrame(B6.order, 2);
    SecondMember(r.fec, 1, 0);
    var none: map<nat, Group> := map[];
    assert map[1 := Half()] - {1} == none;
    DataStep(r, ic, B6, 2, false, B6.order, r.fec.OnData(2, X, 0).0, none, 1, 0);
  }

  lemma ReachableNow()
    ensures InsertPair(Waiting(513), F(S), None) == (Reorder(513, MAX_WINDOW, map[S := F(S)], true), [])
  {
    hide InsertPair;
    PairCases(Waiting(513), F(S), None);
    DistanceOrdered(S, 513);
    assert Grown(32768, 65281) == Some(65536) && Grown(16384, 65281) == Some(65536) && Grown(8192, 65281) == Some(65536);
    assert map[][S := F(S)] == map[S := F(S)];
  }

  /** Frame S comes again, now within reach; one decoder has forgotten that its group was finished. */
  lemma StepA9(r: Receiver, ic: Cipher)
    requires Is(r, ic, A8)
    ensures r.Sane() && Is(r.Next(Input(DataIn(S, X)), true), ic, A9)
  {
    hide InsertPair, Decoder.GroupValid, Receiver.Next;
    FarAligned();
    GroupStartUnique(S, 2, S);
    ReachableNow();
    DataStep(r, ic, A8, S, true, A9.order, r.fec, A8.groups, S, 3);
  }

  lemma StepB9(r: Receiver, ic: Cipher)
    requires Is(r, ic, B8)
    ensures r.Sane() && Is(r.Next(Input(DataIn(S, X)), false), ic, B9)
  {
    hide InsertPair, Decoder.GroupValid, Decoder.OnData;
    FarAligned();
    ReachableNow();
    FirstMember(r.fec, S, 0);
    var none: map<nat, Group> := map[];
    assert none[S := Half()] == map[S := Half()];
    DataStep(r, ic, B8, S, false, A9.order, r.fec.OnData(S, X, 0).0, B9.groups, 1, 0);
  }

  /** The parity of group S: finished here, */
  lemma StepA10(r: Receiver, ic: Cipher)
    requires Is(r, ic, A9)
    ensures r.Sane() && Is(r.Next(Input(ParityIn(ParityFrameOf(ic, S))), true), ic, A9)
  {
    hide ParityFrameOf, Decoder.GroupValid, Decoder.AcceptParity, ParseHeader, ParseLengths;
    FarAligned();
    ParityReads(ic, S);
    assert r.out + [] == r.out;
  }

  /** and rebuilding frame S + 1 there. */
  lemma StepB10(r: Receiver, ic: Cipher)
    requires Is(r, ic, B9)
    ensures r.Sane()
    ensures var t := r.Next(Input(ParityIn(ParityFrameOf(ic, S))), false);
            t.Sane() && t.out == B9.out && t.order == Reorder(513, MAX_WINDOW, map[S := F(S), S + 1 := F(S + 1)], true)
  {
    hide ParityFrameOf, Decoder.GroupValid, Decoder.OnParity;
    FarAligned();
    ParityRebuilds(r.fec, S, 0);
    DistanceOrdered(S + 1, 513);
    assert map[S := F(S)][S + 1 := F(S + 1)] == map[S := F(S), S + 1 := F(S + 1)];
    assert r.out + [] == r.out;
  }

  /** The last expiry delivers frame S, and the frame after it if it is there. */
  lemma TwoFrames(o: Order)
    requires o == Reorder(513, MAX_WINDOW, map[S := F(S), S + 1 := F(S + 1)], true)
    ensures |o.Expire().1| >= 2
  {
    assert S in o.buffered.Keys && S + 1 in o.buffered.Keys;
    DistanceOrdered(S, 513);
    DistanceOrdered(S + 1, 513);
    var b: map<nat, VpnFrame> := o.buffered;
    var c: map<nat, VpnFrame> := b - {S};
    assert S + 1 in c;
    assert Run(b, S) == [b[S]] + Run(c, S + 1);
  }

  // ---- the run ----

  lemma Both(o: Receiver, evs: seq<Event>, r: Receiver, q: Receiver, ev: Event)
    requires Reached(o, evs, r, q, BOUNDS, true, false)
    requires ev.Input? ==> q.fec.k == 2 && Roomy(r.fec, q.fec) && Retirement.InRange(ev.x, 2, BOUNDS)
    requires r.Next(ev, true).Sane() && q.Next(ev, false).Sane()
    ensures Reached(o, evs + [ev], r.Next(ev, true), q.Next(ev, false), BOUNDS, true, false)
  {
    hide Receiver.Next, Near, RunWith, After;
    Goes(o, evs, r, q, ev, BOUNDS, true, false);
  }

  lemma Known(r: Receiver, ic: Cipher, st: State)
    requires Is(r, ic, st)
    ensures r.Sane() && r.fec.k == 2 && |r.fec.groups| < MAX_PENDING && r.out == st.out && r.order == st.order
  {
  }

  lemma InRange2(n: nat)
    requires 0 < n <= S + 1
    ensures Retirement.InRange(DataIn(n, X), 2, BOUNDS)
  {
  }

  /** One data frame at both. */
  lemma BothData(o: Receiver, evs: seq<Event>, r: Receiver, q: Receiver, n: nat, ic: Cipher, sr: State, sq: State, tr: State, tq: State)
    returns (next: seq<Event>, r': Receiver, q': Receiver)
    requires Reached(o, evs, r, q, BOUNDS, true, false) && Is(r, ic, sr) && Is(q, ic, sq) && 0 < n <= S + 1
    requires var ev := Input(DataIn(n, X)); r.Sane() && q.Sane() && Is(r.Next(ev, true), ic, tr) && Is(q.Next(ev, false), ic, tq)
    ensures Reached(o, next, r', q', BOUNDS, true, false) && Is(r', ic, tr) && Is(q', ic, tq)
  {
    hide Is, Receiver.Next, Reached;
    var ev := Input(DataIn(n, X));
    Known(r, ic, sr);
    Known(q, ic, sq);
    Known(r.Next(ev, true), ic, tr);
    Known(q.Next(ev, false), ic, tq);
    InRange2(n);
    Both(o, evs, r, q, ev);
    next, r', q' := evs + [ev], r.Next(ev, true), q.Next(ev, false);
  }

  /** The gap timer fires at both. */
  lemma BothExpire(o: Receiver, evs: seq<Event>, r: Receiver, q: Receiver, n: nat, ic: Cipher, sr: State, sq: State)
    returns (next: seq<Event>, r': Receiver, q': Receiver)
    requires Reached(o, evs, r, q, BOUNDS, true, false) && Is(r, ic, sr) && Is(q, ic, sq) && sr.order == sq.order && n + 1 < U32
    requires sr.order == Reorder(sr.order.expected, WINDOW, map[n := F(n)], true) && 0 < sr.order.expected < n
    ensures Reached(o, next, r', q', BOUNDS, true, false)
    ensures Is(r', ic, sr.(order := Waiting(n + 1), out := sr.out + [F(n)]))
    ensures Is(q', ic, sq.(order := Waiting(n + 1), out := sq.out + [F(n)]))
  {
    hide Is, Receiver.Next, Reached;
    Expires(r, ic, sr, n, true);
    Expires(q, ic, sq, n, false);
    Known(r.Next(Timeout, true), ic, sr.(order := Waiting(n + 1), out := sr.out + [F(n)]));
    Known(q.Next(Timeout, false), ic, sq.(order := Waiting(n + 1), out := sq.out + [F(n)]));
    Both(o, evs, r, q, Timeout);
    next, r', q' := evs + [Timeout], r.Next(Timeout, true), q.Next(Timeout, false);
  }

  /** Frame 1, then a window from 3 to 515. */
  lemma Begins(ic: Cipher) returns (evs: seq<Event>, r: Receiver, q: Receiver)
    ensures Reached(NewReceiver(2, ic), evs, r, q, BOUNDS, true, false) && Is(r, ic, St1) && Is(q, ic, St1)
  {
    hide Is, Reached, Receiver.Next;
    evs, r := BeginsWithOne(ic);
    evs, r := Opens(ic, evs, r, ModeControl(1, Suspend, 3), St1.(fence := ActiveFence, cleanup := 0));
    evs, r := Opens(ic, evs, r, ModeControl(2, Resume, 515), St1.(fence := Fence(1, 3, 0)));
    q := r;
  }

  lemma BeginsWithOne(ic: Cipher) returns (evs: seq<Event>, r: Receiver)
    ensures Reached(NewReceiver(2, ic), evs, r, r, BOUNDS, true, false) && Is(r, ic, St1.(fence := ActiveFence, cleanup := 0))
  {
    hide Is, Reached, Receiver.Next;
    var o, ev := NewReceiver(2, ic), Input(DataIn(1, X));
    NoEvents(o, BOUNDS, true, false);
    r := FrameOne(ic, o);
    InRange2(1);
    Known(r, ic, St1.(fence := ActiveFence, cleanup := 0));
    Both(o, [], o, o, ev);
    evs := [] + [ev];
  }

  lemma FrameOne(ic: Cipher, o: Receiver) returns (r: Receiver)
    requires o == NewReceiver(2, ic)
    ensures o.Sane() && forall told :: o.Next(Input(DataIn(1, X)), told) == r
    ensures Is(r, ic, St1.(fence := ActiveFence, cleanup := 0))
  {
    hide InsertPair, Decoder.OnData;
    FarAligned();
    FirstFrame(1);
    FirstMember(o.fec, 1, 0);
    OnDataValid(o.fec, 1, X, 0);
    r := o.Next(Input(DataIn(1, X)), false);
    assert o.out + [F(1)] == [F(1)];
    var none: map<nat, Group> := map[];
    assert none[1 := Half()] == map[1 := Half()];
  }

  /** The SUSPEND at 3 or the RESUME at 515; no pending group is affected. */
  lemma Opens(ic: Cipher, before: seq<Event>, r: Receiver, c: ModeControl, st: State) returns (evs: seq<Event>, t: Receiver)
    requires Reached(NewReceiver(2, ic), before, r, r, BOUNDS, true, false) && Is(r, ic, st)
    requires (c == ModeControl(1, Suspend, 3) && st == St1.(fence := ActiveFence, cleanup := 0))
             || (c == ModeControl(2, Resume, 515) && st == St1.(fence := Fence(1, 3, 0)))
    ensures Reached(NewReceiver(2, ic), evs, t, t, BOUNDS, true, false) && Is(t, ic, St1.(fence := st.fence.After(c)))
  {
    hide Is, Reached, Receiver.Next, Fence.After;
    var ev := Input(ModeIn(c));
    OpensFence(r, ic, c, st);
    t := r.(fec := r.fec.(fence := st.fence.After(c), cleanupBefore := 3));
    Known(r, ic, st);
    Known(t, ic, St1.(fence := st.fence.After(c)));
    Both(NewReceiver(2, ic), before, r, r, ev);
    evs := before + [ev];
  }

  lemma OpensFence(r: Receiver, ic: Cipher, c: ModeControl, st: State)
    requires Is(r, ic, st)
    requires (c == ModeControl(1, Suspend, 3) && st == St1.(fence := ActiveFence, cleanup := 0))
             || (c == ModeControl(2, Resume, 515) && st == St1.(fence := Fence(1, 3, 0)))
    ensures r.Sane() && Retirement.InRange(ModeIn(c), 2, BOUNDS)
    ensures var t := r.(fec := r.fec.(fence := st.fence.After(c), cleanupBefore := 3));
            Is(t, ic, St1.(fence := st.fence.After(c))) && forall told :: r.Next(Input(ModeIn(c)), told) == t
  {
    hide Decoder.GroupValid, Decoder.OnMode, Decoder.DropRange, Aligned;
    FenceMoves(r.fec, c, 0);
    FenceMoves(r.fec, c, 2);
    OnModeValid(r.fec, c, 0);
    assert r.out + [] == r.out;
  }

  lemma FenceMoves(d: Decoder, c: ModeControl, expected: nat)
    requires d.groups == map[1 := Half()] && d.retiredBefore == 0 && expected < 3
    requires (c == ModeControl(1, Suspend, 3) && d.fence == ActiveFence && d.cleanupBefore == 0)
             || (c == ModeControl(2, Resume, 515) && d.fence == Fence(1, 3, 0) && d.cleanupBefore == 3)
    ensures d.OnMode(c, expected) == d.(fence := d.fence.After(c), cleanupBefore := 3)
  {
    var e := d.(fence := d.fence.After(c), cleanupBefore := 3);
    var until := if c.op == Suspend then U32 else 515;
    assert (map s | s in e.groups && !(3 <= s && s < until) :: e.groups[s]) == e.groups;
    assert e.DropRange(3, until) == e;
  }

  /** Frames S and S + 1 are beyond the window, and the gap before frame 4 is given up. */
  lemma Approach(ic: Cipher) returns (evs: seq<Event>, r: Receiver, q: Receiver)
    ensures Reached(NewReceiver(2, ic), evs, r, q, BOUNDS, true, false) && Is(r, ic, St5) && Is(q, ic, St5)
  {
    hide Is, Receiver.Next, Reached;
    var o := NewReceiver(2, ic);
    evs, r, q := Begins(ic);
    Step2(r, ic, true); Step2(q, ic, false);
    evs, r, q := BothData(o, evs, r, q, S, ic, St1, St1, St2, St2);
    Step3(r, ic, true); Step3(q, ic, false);
    evs, r, q := BothData(o, evs, r, q, S + 1, ic, St2, St2, St3, St3);
    Step4(r, ic, true); Step4(q, ic, false);
    evs, r, q := BothData(o, evs, r, q, 4, ic, St3, St3, St4, St4);
    evs, r, q := BothExpire(o, evs, r, q, 4, ic, St4, St4);
  }

  lemma Parting(o: Receiver, before: seq<Event>, r0: Receiver, q0: Receiver, ic: Cipher)
    returns (evs: seq<Event>, r: Receiver, q: Receiver)
    requires Reached(o, before, r0, q0, BOUNDS, true, false) && Is(r0, ic, St5) && Is(q0, ic, St5)
    ensures Reached(o, evs, r, q, BOUNDS, true, false) && Is(r, ic, A9) && Is(q, ic, B9)
  {
    hide Is, Receiver.Next, Reached;
    StepA6(r0, ic); StepB6(q0, ic);
    evs, r, q := BothData(o, before, r0, q0, 512, ic, St5, St5, A6, B6);
    StepA7(r, ic); StepB7(q, ic);
    evs, r, q := BothData(o, evs, r, q, 2, ic, A6, B6, A6, B7);
    evs, r, q := BothExpire(o, evs, r, q, 512, ic, A6, B7);
    StepA9(r, ic); StepB9(q, ic);
    evs, r, q := BothData(o, evs, r, q, S, ic, A8, B8, A9, B9);
  }

  /** The parity of group S arrives, then the gap timer fires. */
  lemma Ending(o: Receiver, before: seq<Event>, r0: Receiver, q0: Receiver, ic: Cipher)
    returns (evs: seq<Event>, r: Receiver, q: Receiver)
    requires Reached(o, before, r0, q0, BOUNDS, true, false) && Is(r0, ic, A9) && Is(q0, ic, B9)
    ensures Reached(o, evs, r, q, BOUNDS, true, false) && r.out != q.out
  {
    hide Is, Receiver.Next, Reached, ParityFrameOf;
    StepA10(r0, ic); StepB10(q0, ic);
    var ev := Input(ParityIn(ParityFrameOf(ic, S)));
    assert Retirement.InRange(ev.x, 2, BOUNDS) by { FarAligned(); ParityReads(ic, S); }
    Known(r0, ic, A9); Known(q0, ic, B9); Known(r0.Next(ev, true), ic, A9);
    Both(o, before, r0, q0, ev);
    evs, r, q := before + [ev], r0.Next(ev, true), q0.Next(ev, false);
    LastExpiry(r, q);
    Both(o, evs, r, q, Timeout);
    evs, r, q := evs + [Timeout], r.Next(Timeout, true), q.Next(Timeout, false);
  }

  /** Every decoder has room, but frame S was beyond the window once: frame S + 1 is delivered on one side only. */
  lemma BeyondWindowDiffers(ic: Cipher) returns (evs: seq<Event>)
    ensures var start := NewReceiver(2, ic);
            && AllInRange(evs, 2, BOUNDS) && RunWith(start, start, evs, true, false)
            && After(start, evs, true).out != After(start, evs, false).out
  {
    hide Is, RunWith, After, NewReceiver;
    var o := NewReceiver(2, ic);
    var r, q;
    evs, r, q := Approach(ic);
    evs, r, q := Parting(o, evs, r, q, ic);
    evs, r, q := Ending(o, evs, r, q, ic);
  }

  lemma LastExpiry(r: Receiver, q: Receiver)
    requires r.Sane() && q.Sane() && r.out == q.out && r.order == A9.order
    requires q.order == Reorder(513, MAX_WINDOW, map[S := F(S), S + 1 := F(S + 1)], true)
    ensures r.Next(Timeout, true).Sane() && q.Next(Timeout, false).Sane()
    ensures |r.Next(Timeout, true).out| < |q.Next(Timeout, false).out|
  {
    ExpireSingle(r.order, S, F(S));
    TwoFrames(q.order);
  }
}
