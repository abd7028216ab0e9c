/**
 What retirement may forget, over every run: full decoders, frames far ahead and
 boundaries anywhere included.  A number is retired only when ordered delivery has
 passed it, so every frame with that number that still turns up, arrived or rebuilt,
 is released and changes nothing.  Whole groups are retired that way if and only if
 the boundaries are group starts.
 */
module RetiredGroups {
  import opened Xor
  import opened Wire
  import opened FecControl
  import opened FecParity
  import opened FecEncoder
  import opened GroupDecoder
  import opened GroupWork
  import opened Reorder
  import opened Retirement

  /** What is retired is behind the delivery. */
  ghost predicate Behind(d: Decoder, o: Order) {
    d.Valid() && o.Valid() && d.retiredBefore <= o.expected
  }

  /** The boundaries after a step: where they were, or retirement caught up with the cleanup. */
  ghost predicate SameBounds(d: Decoder, e: Decoder, progress: nat) {
    && e.k == d.k && e.fence == d.fence && e.cleanupBefore == d.cleanupBefore
    && (e.retiredBefore == d.retiredBefore
        || (e.retiredBefore == d.cleanupBefore && d.retiredBefore < d.cleanupBefore <= progress))
  }

  lemma RetireBounds(d: Decoder, progress: nat)
    ensures SameBounds(d, d.Retire(progress), progress)
  {
  }

  lemma RecoverBounds(d: Decoder, s: nat)
    requires s in d.groups && |d.done| == DONE_RING
    ensures SameBounds(d, d.TryRecover(s).0, 0)
  {
    hide Rebuild, MissingCount;
  }

  lemma MemberBounds(d: Decoder, s: nat, j: nat, data: Bytes)
    requires s in d.groups && |d.done| == DONE_RING
    ensures SameBounds(d, d.AddMember(s, j, data).0, 0)
  {
    hide Decoder.TryRecover, MissingCount;
    if j !in d.groups[s].members {
      RecoverBounds(d.Put(s, d.groups[s].(members := d.groups[s].members[j := data])), s);
    }
  }

  lemma DataBounds(d: Decoder, n: nat, data: Bytes, progress: nat)
    requires d.Valid() && Numbered(DataIn(n, data), d.k)
    ensures var (e, rec) := d.OnData(n, data, progress);
            e.Valid() && SameBounds(d, e, progress) && (rec.Some? ==> 0 < rec.value.n <= LAST_ORDERED)
  {
    hide Decoder.AddMember, Decoder.WithGroup, Decoder.Retire, Decoder.GroupValid;
    OnDataValid(d, n, data, progress);
    DataNumber(d, n, data, progress);
    RetireBounds(d, progress);
    var s := GroupStart(n, d.k);
    WithGroupFrame(d, s);
    MemberBounds(d.WithGroup(s), s, n - s, data);
  }

  lemma AcceptBounds(d: Decoder, s: nat, lens: seq<nat>, sealed: Bytes)
    requires d.Valid()
    ensures SameBounds(d, d.AcceptParity(s, lens, sealed, 0).0, 0)
  {
    hide Decoder.TryRecover, Decoder.WithGroup, Decoder.Retire, Decoder.GroupValid, Open;
    WithGroupFrame(d, s);
    var m := d.WithGroup(s);
    var body := Open(d.ic, s, sealed);
    if body.Some? {
      var q := m.Put(s, m.groups[s].(parity := Some(Parity(lens, body.value))));
      RecoverBounds(q, s);
      NoProgress(q.TryRecover(s).0);
    }
  }

  lemma ParityBounds(d: Decoder, b: Bytes, progress: nat)
    requires d.Valid() && Numbered(ParityIn(b), d.k)
    ensures var (e, rec) := d.OnParity(b, progress);
            e.Valid() && SameBounds(d, e, progress) && (rec.Some? ==> 0 < rec.value.n <= LAST_ORDERED)
  {
    hide Decoder.AcceptParity, Decoder.Retire, Decoder.GroupValid, ParseLengths, SealedBody;
    OnParityValid(d, b, progress);
    ParityNumber(d, b, progress);
    var h := ParseHeader(b, d.k);
    if !d.staticSingle && h.Some? {
      var r, s := d.Retire(progress), h.value;
      RetireBounds(d, progress);
      RetireValid(d, progress);
      BodyRetires(r, s, b, progress);
      RetireBounds(r.OnParityBody(s, b, 0).0, progress);
      var lens := ParseLengths(b, r.k, TagLen(r.ic));
      if lens.Some? {
        AcceptBounds(r, s, lens.value, SealedBody(b, r.k, lens.value, TagLen(r.ic)));
      }
    }
  }

  lemma ModeBounds(d: Decoder, o: Order, c: ModeControl)
    requires Behind(d, o)
    ensures Behind(d.OnMode(c, o.expected), o) && d.OnMode(c, o.expected).k == d.k
    ensures d.retiredBefore <= d.OnMode(c, o.expected).retiredBefore
  {
    hide Aligned, Decoder.Retire, Decoder.GroupValid;
    OnModeValid(d, c, o.expected);
    var f := d.fence.After(c);
    if c.Valid() && c.generation > d.fence.generation && f.from != 0 {
      var e := d.(fence := f, cleanupBefore := if f.from > d.cleanupBefore then f.from else d.cleanupBefore)
                .DropRange(f.from, if f.until == 0 then U32 else f.until);
      RetireBounds(e, o.expected);
    }
  }

  /** One or two insertions of ordered numbers only move the buffer on. */
  lemma PairMovesOn(o: Order, f: VpnFrame, rec: Option<VpnFrame>)
    requires o.Valid() && 0 < f.n <= LAST_ORDERED && (rec.Some? ==> 0 < rec.value.n <= LAST_ORDERED)
    ensures InsertPair(o, f, rec).0.Valid() && Onward(o, InsertPair(o, f, rec).0)
  {
    hide Reorder<VpnFrame>.Insert, FateOf, InsertPair;
    PairCases(o, f, rec);
    if rec.None? || rec.value.n == f.n {
      InsertOnward(o, f);
    } else {
      var g := rec.value;
      var first, second := if g.n < f.n then g else f, if g.n < f.n then f else g;
      InsertOnward(o, first);
      InsertOnward(o.Insert(first.n, first).0, second);
    }
  }

  // ---- runs ----

  ghost predicate AllNumbered(k: nat, evs: seq<Event>)
    requires GroupSize(k)
  {
    forall i :: 0 <= i < |evs| && evs[i].Input? ==> Numbered(evs[i].x, k)
  }

  lemma SplitRun(k: nat, evs: seq<Event>, later: seq<Event>)
    requires GroupSize(k) && AllNumbered(k, evs + later)
    ensures AllNumbered(k, evs) && AllNumbered(k, later)
  {
    hide Numbered;
    forall i | 0 <= i < |evs| && evs[i].Input? ensures Numbered(evs[i].x, k) {
      assert (evs + later)[i] == evs[i];
    }
    forall i | 0 <= i < |later| && later[i].Input? ensures Numbered(later[i].x, k) {
      assert (evs + later)[|evs| + i] == later[i];
    }
  }

  /** The step keeps the invariant and only adds to what is retired and what is covered. */
  ghost predicate StepsOn(r: Receiver, t: Receiver) {
    && Behind(t.fec, t.order) && t.fec.k == r.fec.k
    && r.fec.retiredBefore <= t.fec.retiredBefore && Onward(r.order, t.order)
  }

  lemma BehindMoves(d: Decoder, o: Order, e: Decoder, p: Order)
    requires Behind(d, o) && SameBounds(d, e, o.expected) && e.Valid() && p.Valid() && Onward(o, p)
    ensures Behind(e, p) && d.retiredBefore <= e.retiredBefore
  {
    hide Aligned, Decoder.Valid, Reorder<VpnFrame>.Valid;
    ValidSize(d);
    ValidSize(e);
  }

  lemma StepBehind(r: Receiver, ev: Event)
    requires Behind(r.fec, r.order) && (ev.Input? ==> GroupSize(r.fec.k) && Numbered(ev.x, r.fec.k))
    ensures r.Sane() && StepsOn(r, r.Next(ev, true))
  {
    var d, o := r.fec, r.order;
    ValidSize(d);
    OnwardReflexive(o);
    assert r.Sane();
    hide Decoder.Valid, Decoder.OnData, Decoder.OnParity, Decoder.OnMode, Reorder<VpnFrame>.Insert, Reorder<VpnFrame>.Expire;
    hide InsertPair, Onward, Aligned, Reorder<VpnFrame>.Valid;
    match ev {
      case Timeout =>
        ExpireOnward(o);
        BehindMoves(d, o, d, o.Expire().0);
      case Input(x) =>
        match x {
          case DataIn(n, data) =>
            DataBounds(d, n, data, o.expected);
            var (e, rec) := d.OnData(n, data, o.expected);
            PairMovesOn(o, VpnFrame(n, data), rec);
            BehindMoves(d, o, e, InsertPair(o, VpnFrame(n, data), rec).0);
          case ParityIn(b) =>
            ParityBounds(d, b, o.expected);
            var (e, rec) := d.OnParity(b, o.expected);
            if rec.Some? { InsertOnward(o, rec.value); }
            BehindMoves(d, o, e, InsertSome(o, rec).0);
          case ModeIn(c) =>
            ModeBounds(d, o, c);
        }
    }
  }

  lemma {:induction false} RunBehind(r: Receiver, evs: seq<Event>)
    requires Behind(r.fec, r.order) && GroupSize(r.fec.k) && AllNumbered(r.fec.k, evs)
    ensures StepsOn(r, After(r, evs, true))
    decreases |evs|
  {
    hide Behind, Receiver.Next, Numbered;
    if evs == [] {
      OnwardReflexive(r.order);
    } else {
      StepBehind(r, evs[0]);
      RunBehind(r.Next(evs[0], true), evs[1..]);
    }
  }

  lemma InsertReleased(o: Order, f: VpnFrame)
    requires o.Valid() && 0 < f.n <= LAST_ORDERED && Covers(o, f.n)
    ensures o.Insert(f.n, f) == (o, [], [f])
  {
    DistanceOrdered(f.n, o.expected);
  }

  lemma StartBehind(k: int, ic: Cipher)
    ensures Behind(NewDecoder(k, ic), Empty())
  {
  }

  /**
   Over every run of ordered numbers, whatever the boundaries: delivery has passed a number retired
   by then, and after every continuation a frame with that number can only be released.
   */
  lemma RetiredForGood(k: int, ic: Cipher, evs: seq<Event>, later: seq<Event>, f: VpnFrame)
    requires AllNumbered(ClampGroup(k), evs + later)
    requires f.n > 0 && After(NewReceiver(k, ic), evs, true).fec.Retired(f.n)
    ensures var r := After(NewReceiver(k, ic), evs, true); var t := After(r, later, true);
            && f.n < r.order.expected <= t.order.expected
            && t.fec.Retired(f.n) && WindowSize(t.order.size) && t.order.Insert(f.n, f) == (t.order, [], [f])
  {
    var start := NewReceiver(k, ic);
    hide After, Onward, Numbered;
    StartBehind(k, ic);
    SplitRun(ClampGroup(k), evs, later);
    RunBehind(start, evs);
    var r := After(start, evs, true);
    RunBehind(r, later);
    ReleasedLater(r, After(r, later, true), f);
  }

  lemma ReleasedLater(r: Receiver, t: Receiver, f: VpnFrame)
    requires Behind(r.fec, r.order) && StepsOn(r, t) && f.n > 0 && r.fec.Retired(f.n)
    ensures f.n < r.order.expected <= t.order.expected && t.fec.Retired(f.n)
    ensures WindowSize(t.order.size) && t.order.Insert(f.n, f) == (t.order, [], [f])
  {
    hide Decoder.Valid, Reorder<VpnFrame>.Insert;
    InsertReleased(t.order, f);
  }

  // ---- whole groups ----

  /** A group that retiring drops is covered below the boundary, and altogether unless the boundary falls into it. */
  lemma DroppedIsCovered(d: Decoder, o: Order, s: nat)
    requires Behind(d, o) && s in d.groups && s !in d.Retire(o.expected).groups
    ensures d.Retire(o.expected).Retired(s)
    ensures forall n :: s <= n < s + d.k && n < d.cleanupBefore ==> Covers(o, n)
    ensures !Divides(d.cleanupBefore, s, d.k) ==> Covered(o, s, d.k)
  {
  }

  /** The only boundary in sight is b. */
  predicate OnlyAt(d: Decoder, b: nat) {
    d.cleanupBefore in {0, b} && d.retiredBefore in {0, b} && d.fence.from in {0, b}
  }

  predicate SuspendsAt(evs: seq<Event>, b: nat) {
    forall i :: 0 <= i < |evs| && evs[i].Input? && evs[i].x.ModeIn? && evs[i].x.c.op == Suspend ==> evs[i].x.c.boundary == b
  }

  lemma ModeOnlyAt(d: Decoder, c: ModeControl, progress: nat, b: nat)
    requires OnlyAt(d, b) && (c.op == Suspend ==> c.boundary == b)
    ensures OnlyAt(d.OnMode(c, progress), b)
  {
    hide Decoder.Retire;
    var f := d.fence.After(c);
    if c.Valid() && c.generation > d.fence.generation && f.from != 0 {
      var e := d.(fence := f, cleanupBefore := if f.from > d.cleanupBefore then f.from else d.cleanupBefore)
                .DropRange(f.from, if f.until == 0 then U32 else f.until);
      RetireBounds(e, progress);
    }
  }

  lemma StepOnlyAt(r: Receiver, ev: Event, b: nat)
    requires Behind(r.fec, r.order) && OnlyAt(r.fec, b) && r.Sane() && (ev.Input? ==> Numbered(ev.x, r.fec.k))
    requires SuspendsAt([ev], b)
    ensures OnlyAt(r.Next(ev, true).fec, b)
  {
    hide Decoder.Valid, Decoder.OnData, Decoder.OnParity, Decoder.OnMode, Reorder<VpnFrame>.Insert, Reorder<VpnFrame>.Expire;
    hide InsertPair, Numbered;
    var d, o := r.fec, r.order;
    assert [ev][0] == ev;
    if ev.Input? {
      match ev.x {
        case DataIn(n, data) => DataBounds(d, n, data, o.expected);
        case ParityIn(bytes) => ParityBounds(d, bytes, o.expected);
        case ModeIn(c) => ModeOnlyAt(d, c, o.expected, b);
      }
    }
  }

  lemma {:induction false} RunOnlyAt(r: Receiver, evs: seq<Event>, b: nat)
    requires Behind(r.fec, r.order) && OnlyAt(r.fec, b) && GroupSize(r.fec.k) && AllNumbered(r.fec.k, evs) && SuspendsAt(evs, b)
    ensures OnlyAt(After(r, evs, true).fec, b)
    decreases |evs|
  {
    hide Behind, Receiver.Next, Numbered, OnlyAt;
    if evs != [] {
      StepBehind(r, evs[0]);
      assert SuspendsAt([evs[0]], b);
      StepOnlyAt(r, evs[0], b);
      RunOnlyAt(r.Next(evs[0], true), evs[1..], b);
    }
  }

  /** Whenever a group is retired all of it is covered. */
  ghost predicate RetiresWhole(k: int, ic: Cipher, evs: seq<Event>) {
    var r := After(NewReceiver(k, ic), evs, true);
    forall s: nat :: Aligned(s, ClampGroup(k)) && r.fec.Retired(s) ==> Covered(r.order, s, ClampGroup(k))
  }

  lemma StartRetiresWhole(k: int, ic: Cipher, evs: seq<Event>, b: nat)
    requires Aligned(b, ClampGroup(k)) && AllNumbered(ClampGroup(k), evs) && SuspendsAt(evs, b)
    ensures RetiresWhole(k, ic, evs)
  {
    hide After, Numbered, Aligned;
    var start := NewReceiver(k, ic);
    StartBehind(k, ic);
    RunBehind(start, evs);
    RunOnlyAt(start, evs, b);
    var r := After(start, evs, true);
    forall s: nat | Aligned(s, ClampGroup(k)) && r.fec.Retired(s) ensures Covered(r.order, s, ClampGroup(k)) {
      AlignedApart(s, b, ClampGroup(k));
    }
  }

  /** The frame before the boundary, then SUSPEND: the boundary itself is still to come. */
  lemma InsideIsLeft(k: int, ic: Cipher, b: nat) returns (evs: seq<Event>)
    requires !Aligned(b, ClampGroup(k)) && 0 < b && b + ClampGroup(k) <= LAST_ORDERED
    ensures AllNumbered(ClampGroup(k), evs) && SuspendsAt(evs, b) && !RetiresWhole(k, ic, evs)
  {
    var c := ModeControl(1, Suspend, b);
    var x, y := Input(DataIn(b - 1, [1])), Input(ModeIn(c));
    evs := [x, y];
    var start := NewReceiver(k, ic);
    NewIsSane(k, ic);
    assert b > 1 && GroupStart(b, start.fec.k) < b by { Inside(b, start.fec.k); }
    hide Aligned, Receiver.Next, After, GroupStart, NewReceiver, RetiresWhole;
    var r1 := FrameBefore(start, start.fec.k, b);
    SuspendsNow(r1, c);
    AfterTwo(start, x, y);
    NotWhole(k, ic, evs, r1.Next(y, true), b);
    TwoNumbered(b, ClampGroup(k), c);
  }

  lemma NewIsSane(k: int, ic: Cipher)
    ensures var r := NewReceiver(k, ic);
            && r.Sane() && r.fec.Valid() && r.fec.k == ClampGroup(k) && r.order == Empty() && r.fec.groups == map[]
            && r.fec.fence == ActiveFence && r.fec.cleanupBefore == r.fec.retiredBefore == 0 && !r.fec.staticSingle
  {
  }

  lemma Inside(b: nat, k: nat)
    requires GroupSize(k) && 0 < b && !Aligned(b, k)
    ensures b > 1 && GroupStart(b, k) < b
  {
  }

  lemma AfterTwo(r: Receiver, x: Event, y: Event)
    requires r.Sane() && r.Next(x, true).Sane()
    ensures After(r, [x, y], true) == r.Next(x, true).Next(y, true)
  {
    hide Receiver.Next;
    assert [x, y][1..] == [y] && [y][1..] == [];
    assert After(r.Next(x, true), [y], true) == After(r.Next(x, true).Next(y, true), [], true);
  }

  lemma TwoNumbered(b: nat, k: nat, c: ModeControl)
    requires GroupSize(k) && 1 < b && b + k <= LAST_ORDERED && c == ModeControl(1, Suspend, b)
    ensures var evs := [Input(DataIn(b - 1, [1])), Input(ModeIn(c))]; AllNumbered(k, evs) && SuspendsAt(evs, b)
  {
    hide GroupStart;
    assert [Input(DataIn(b - 1, [1])), Input(ModeIn(c))][1] == Input(ModeIn(c));
  }

  lemma NotWhole(k: int, ic: Cipher, evs: seq<Event>, r: Receiver, b: nat)
    requires r == After(NewReceiver(k, ic), evs, true) && 0 < b && GroupStart(b, ClampGroup(k)) < b
    requires r.fec.retiredBefore == b && r.order.expected == b && r.order.buffered == map[]
    ensures !RetiresWhole(k, ic, evs)
  {
    hide After, Aligned, NewReceiver;
    var s := GroupStart(b, ClampGroup(k));
    assert Aligned(s, ClampGroup(k)) && r.fec.Retired(s);
    assert !Covers(r.order, b);
  }

  lemma FrameBefore(start: Receiver, k: nat, b: nat) returns (r: Receiver)
    requires GroupSize(k) && start.fec.Valid() && start.fec.k == k && start.order == Empty() && start.fec.groups == map[]
    requires start.fec.fence == ActiveFence && start.fec.cleanupBefore == start.fec.retiredBefore == 0
    requires 1 < b && b + k <= LAST_ORDERED && start.Sane() && !start.fec.staticSingle
    ensures r == start.Next(Input(DataIn(b - 1, [1])), true) && r.Sane()
    ensures r.order == Reorder(b, WINDOW, map[], false)
    ensures r.fec.fence == ActiveFence && r.fec.cleanupBefore == r.fec.retiredBefore == 0
  {
    hide Decoder.OnData, InsertPair, Decoder.GroupValid;
    var f := VpnFrame(b - 1, [1]);
    r := start.Next(Input(DataIn(b - 1, [1])), true);
    BareData(start.fec, b - 1, [1], 0);
    DataBounds(start.fec, b - 1, [1], 0);
    NextSize(start, Input(DataIn(b - 1, [1])), true);
    PairCases(Empty(), f, None);
    InsertFirst(b - 1, f);
    DrainSingle(Reorder(b - 1, WINDOW, map[b - 1 := f], false), b - 1, f);
    assert Empty<VpnFrame>().buffered[b - 1 := f] == map[b - 1 := f];
  }

  lemma SuspendsNow(r: Receiver, c: ModeControl)
    requires r.Sane() && c.Valid() && c.op == Suspend && r.order.expected == c.boundary
    requires r.fec.fence == ActiveFence && r.fec.cleanupBefore == r.fec.retiredBefore == 0
    ensures var t := r.Next(Input(ModeIn(c)), true); t.order == r.order && t.fec.retiredBefore == c.boundary
  {
  }

  /** Groups are retired whole, in every run that suspends there, exactly when the boundary is a group start. */
  lemma RetiresWholeIff(k: int, ic: Cipher, b: nat)
    requires 0 < b && b + ClampGroup(k) <= LAST_ORDERED
    ensures Aligned(b, ClampGroup(k)) <==>
            forall evs :: AllNumbered(ClampGroup(k), evs) && SuspendsAt(evs, b) ==> RetiresWhole(k, ic, evs)
  {
    hide RetiresWhole, AllNumbered, SuspendsAt, Aligned;
    if Aligned(b, ClampGroup(k)) {
      forall evs | AllNumbered(ClampGroup(k), evs) && SuspendsAt(evs, b) ensures RetiresWhole(k, ic, evs) {
        StartRetiresWhole(k, ic, evs, b);
      }
    } else {
      var evs := InsideIsLeft(k, ic, b);
    }
  }
}
