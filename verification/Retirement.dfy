/**
 Retirement is invisible.

 When ordered delivery has passed a SUSPEND boundary the decoder forgets every group
 below it.  Compare it with a decoder that is never told about the progress and so
 never retires anything: both see the same frames, and the reorder buffer behind
 them delivers the same frames in the same order.  The groups they may disagree on
 are covered: every member has been delivered, given up or is waiting already, so
 that whatever is recovered from them is late or a duplicate.

 Two things are asked of the run: neither decoder is full, since a full one gives up
 its oldest group, and no frame lies beyond the reach of the reorder window.  Runs
 that break one of them only and tell the two apart are in RetirementLimits and
 BeyondWindow.  Boundaries may fall anywhere, also inside a group, provided that no
 parity of such a group arrives; SenderRetirement shows that no sender emits one.
 RetirementOnce does without reach where nothing is repeated; what holds of every run
 is in RetiredGroups.
 */
module Retirement {
  import opened Xor
  import opened Wire
  import opened FecControl
  import opened FecParity
  import opened FecEncoder
  import opened GroupDecoder
  import opened GroupWork
  import opened Reorder
  import RxPath

  type Order = Reorder<VpnFrame>

  // ---- the receive path with any progress report ----

  /** What the session does with an original and the frame rebuilt with its help, on the reorder buffer alone. */
  function InsertPair(o: Order, f: VpnFrame, rec: Option<VpnFrame>): (Order, seq<VpnFrame>)
    requires WindowSize(o.size)
  {
    var s := RxPath.NewRx(None).(order := o).InsertPair(f, rec);
    (s.order, s.ready)
  }

  lemma PairCases(o: Order, f: VpnFrame, rec: Option<VpnFrame>)
    requires WindowSize(o.size)
    ensures rec.None? || rec.value.n == f.n ==> InsertPair(o, f, rec) == (o.Insert(f.n, f).0, o.Insert(f.n, f).1)
    ensures rec.Some? && rec.value.n != f.n ==>
              var g := rec.value;
              var first, second := if g.n < f.n then g else f, if g.n < f.n then f else g;
              var p := o.Insert(first.n, first);
              var q := p.0.Insert(second.n, second);
              InsertPair(o, f, rec) == (q.0, p.1 + q.1)
  {
    hide Reorder<VpnFrame>.Insert;
    var none: seq<VpnFrame> := [];
    assert none + o.Insert(f.n, f).1 == o.Insert(f.n, f).1;
    if rec.Some? {
      var g := rec.value;
      assert none + o.Insert(g.n, g).1 == o.Insert(g.n, g).1;
    }
  }

  /** One input; progress is what the reorder buffer reports to the decoder. */
  function Arrive(d: Decoder, o: Order, x: Input, progress: nat): (Decoder, Order, seq<VpnFrame>)
    requires GroupSize(d.k) && |d.done| == DONE_RING && WindowSize(o.size)
  {
    var (e, rec) := Step(d, x, progress);
    match x
    case DataIn(n, data) =>
      var (p, out) := InsertPair(o, VpnFrame(n, data), rec);
      (e, p, out)
    case _ =>
      if rec.None? then (e, o, [])
      else
        var (p, out, gone) := o.Insert(rec.value.n, rec.value);
        (e, p, out)
  }

  // ---- covered numbers ----

  /** The number is behind, or its frame is waiting: another copy changes nothing. */
  predicate Covers(o: Order, n: nat) {
    n < o.expected || n in o.buffered
  }

  ghost predicate Covered(o: Order, s: nat, k: nat) {
    forall n :: s <= n < s + k ==> Covers(o, n)
  }

  /** Whatever is covered stays covered. */
  ghost predicate Onward(o: Order, p: Order) {
    o.expected <= p.expected && forall n :: Covers(o, n) ==> Covers(p, n)
  }

  lemma InsertCovered(o: Order, f: VpnFrame)
    requires o.Valid() && 0 < f.n <= LAST_ORDERED && Covers(o, f.n)
    ensures o.Insert(f.n, f).0 == o && o.Insert(f.n, f).1 == []
  {
    DistanceOrdered(f.n, o.expected);
  }

  lemma InsertOnward(o: Order, f: VpnFrame)
    requires o.Valid() && 0 < f.n <= LAST_ORDERED
    ensures var p := o.Insert(f.n, f).0;
            p.Valid() && Onward(o, p) && (FateOf(o, f.n) != Beyond ==> Covers(p, f.n))
  {
    hide Reorder<VpnFrame>.Insert;
    InsertValid(o, f.n, f);
    InsertEffect(o, f.n, f);
  }

  lemma ExpireOnward(o: Order)
    requires o.Valid()
    ensures o.Expire().0.Valid() && Onward(o, o.Expire().0)
  {
    hide Reorder<VpnFrame>.Expire;
    if o.gap {
      ExpireEffect(o);
    } else {
      ExpireIdle(o);
    }
  }

  /** The numbers are ordered ones, and none of the insertions is out of reach. */
  predicate Reachable(o: Order, f: VpnFrame, rec: Option<VpnFrame>)
    requires WindowSize(o.size)
  {
    && 0 < f.n <= LAST_ORDERED
    && match rec
       case None => FateOf(o, f.n) != Beyond
       case Some(g) =>
         && 0 < g.n <= LAST_ORDERED
         && if g.n == f.n then FateOf(o, f.n) != Beyond
            else
              var first, second := if g.n < f.n then g else f, if g.n < f.n then f else g;
              FateOf(o, first.n) != Beyond && FateOf(o.Insert(first.n, first).0, second.n) != Beyond
  }

  lemma PairOnward(o: Order, f: VpnFrame, rec: Option<VpnFrame>)
    requires o.Valid() && Reachable(o, f, rec)
    ensures var p := InsertPair(o, f, rec).0;
            p.Valid() && Onward(o, p) && Covers(p, f.n) && (rec.Some? ==> Covers(p, rec.value.n))
  {
    hide Reorder<VpnFrame>.Insert, FateOf, InsertPair;
    PairCases(o, f, rec);
    if rec.None? || rec.value.n == f.n {
      InsertOnward(o, f);
    } else {
      var g := rec.value;
      var first, second := if g.n < f.n then g else f, if g.n < f.n then f else g;
      InsertOnward(o, first);
      InsertOnward(o.Insert(first.n, first).0, second);
    }
  }

  lemma PairCovered(o: Order, f: VpnFrame, rec: Option<VpnFrame>)
    requires o.Valid() && 0 < f.n <= LAST_ORDERED && Covers(o, f.n)
    requires rec.Some? ==> 0 < rec.value.n <= LAST_ORDERED && Covers(o, rec.value.n)
    ensures InsertPair(o, f, rec) == (o, [])
  {
    hide Reorder<VpnFrame>.Insert, InsertPair;
    PairCases(o, f, rec);
    InsertCovered(o, f);
    if rec.Some? && rec.value.n != f.n {
      var g := rec.value;
      InsertCovered(o, g);
      var none: seq<VpnFrame> := [];
      assert InsertPair(o, f, rec) == (o, none + none) && none + none == none;
    }
  }

  // ---- the invariant of each decoder, and the relation of the two ----

  /** One of the boundaries falls inside the group. */
  ghost predicate Split(s: nat, k: nat, bs: set<nat>) {
    exists b :: b in bs && Divides(b, s, k)
  }

  /** No boundary yet, or one of those announced. */
  ghost predicate Boundary(b: nat, bs: set<nat>) {
    b == 0 || b in bs
  }

  /** A group that a boundary falls into has no parity, and so nothing is ever rebuilt from it. */
  ghost predicate SplitIsBare(d: Decoder, bs: set<nat>) {
    forall s :: s in d.groups && Split(s, d.k, bs) ==> Bare(d, s)
  }

  ghost predicate MembersCovered(d: Decoder, o: Order) {
    forall s, j :: s in d.groups && j in d.groups[s].members ==> Covers(o, s + j)
  }

  ghost predicate DoneCovered(d: Decoder, o: Order)
    requires GroupSize(d.k) && |d.done| == DONE_RING
  {
    forall s: nat :: Aligned(s, d.k) && d.IsDone(s) ==> Covered(o, s, d.k)
  }

  /** What was seen is covered, what is done is covered, and retirement is behind the delivery. */
  ghost predicate Tame(d: Decoder, o: Order, bs: set<nat>) {
    && d.Valid()
    && MembersCovered(d, o)
    && DoneCovered(d, o)
    && SplitIsBare(d, bs)
    && Boundary(d.cleanupBefore, bs) && Boundary(d.retiredBefore, bs) && Boundary(d.fence.from, bs)
    && d.retiredBefore <= o.expected
  }

  /** A recovery from this group could still matter. */
  ghost predicate Matters(o: Order, s: nat, k: nat, bs: set<nat>)
    requires GroupSize(k)
  {
    Aligned(s, k) && !Split(s, k, bs) && !Covered(o, s, k)
  }

  /** Same configuration and window, and the same groups wherever a recovery could still matter. */
  ghost predicate Alike(a: Decoder, b: Decoder, o: Order, bs: set<nat>)
    requires GroupSize(a.k)
  {
    && a.k == b.k && a.ic == b.ic && a.fence == b.fence && a.staticSingle == b.staticSingle
    && a.cleanupBefore == b.cleanupBefore
    && forall s: nat :: Matters(o, s, a.k, bs) ==> SameGroup(a, b, s)
  }

  lemma CoveredOnward(o: Order, p: Order, s: nat, k: nat)
    requires Onward(o, p) && Covered(o, s, k)
    ensures Covered(p, s, k)
  {
  }

  lemma TouchMembers(d: Decoder, e: Decoder, o: Order, p: Order, s: nat, fed: set<nat>, rec: Option<VpnFrame>)
    requires MembersCovered(d, o) && Touches(d, e, s, fed, rec) && Onward(o, p)
    requires forall j :: j in fed ==> Covers(p, s + j)
    ensures MembersCovered(e, p)
  {
    hide Supplied, Covers;
    forall t, j | t in e.groups && j in e.groups[t].members ensures Covers(p, t + j) {
      assert t != s ==> SameGroup(d, e, t);
      assert Covers(o, t + j) || (t == s && j in fed);
    }
  }

  lemma TouchDone(d: Decoder, e: Decoder, o: Order, p: Order, s: nat, fed: set<nat>, rec: Option<VpnFrame>, t: nat)
    requires GroupSize(d.k) && |d.done| == DONE_RING && DoneCovered(d, o) && MembersCovered(d, o)
    requires Touches(d, e, s, fed, rec) && Onward(o, p)
    requires forall j :: j in fed ==> Covers(p, s + j)
    requires rec.Some? ==> Covers(p, rec.value.n)
    requires Aligned(t, e.k) && e.IsDone(t)
    ensures Covered(p, t, e.k)
  {
    hide Aligned, Covers, SameGroup;
    if d.IsDone(t) {
      CoveredOnward(o, p, t, d.k);
    } else {
      assert t == s && e.done != d.done;
      forall n | s <= n < s + d.k ensures Covers(p, n) {
        var j := n - s;
        assert Supplied(d, s, fed, rec, j);
        if j in Had(d, s) {
          assert Covers(o, s + j);
        }
      }
    }
  }

  lemma TouchKeeps(d: Decoder, e: Decoder, o: Order, p: Order, s: nat, fed: set<nat>, rec: Option<VpnFrame>, bs: set<nat>)
    requires Tame(d, o, bs) && Touches(d, e, s, fed, rec) && e.Valid() && Onward(o, p)
    requires forall j :: j in fed ==> Covers(p, s + j)
    requires rec.Some? ==> Covers(p, rec.value.n)
    requires Split(s, d.k, bs) ==> Bare(e, s)
    ensures Tame(e, p, bs)
  {
    hide Decoder.Valid, Aligned, MembersCovered, Covers, Supplied, Had, Split;
    assert SplitIsBare(e, bs) by {
      forall t | t in e.groups && Split(t, e.k, bs) ensures Bare(e, t) {
        assert t != s ==> SameGroup(d, e, t);
      }
    }
    hide SameGroup, SplitIsBare, Bare;
    ValidSize(d);
    ValidSize(e);
    TouchMembers(d, e, o, p, s, fed, rec);
    forall t: nat | Aligned(t, e.k) && e.IsDone(t) ensures Covered(p, t, e.k) {
      TouchDone(d, e, o, p, s, fed, rec, t);
    }
  }

  lemma ValidSize(d: Decoder)
    requires d.Valid()
    ensures GroupSize(d.k) && |d.done| == DONE_RING
  {
  }

  lemma TameOnward(d: Decoder, o: Order, p: Order, bs: set<nat>)
    requires Tame(d, o, bs) && Onward(o, p)
    ensures Tame(d, p, bs)
  {
    hide Decoder.Valid, Aligned;
    ValidSize(d);
    forall t: nat | Aligned(t, d.k) && d.IsDone(t) ensures Covered(p, t, d.k) {
      CoveredOnward(o, p, t, d.k);
    }
  }

  lemma AlikeOnward(a: Decoder, b: Decoder, o: Order, p: Order, bs: set<nat>)
    requires GroupSize(a.k) && Alike(a, b, o, bs) && Onward(o, p)
    ensures Alike(a, b, p, bs)
  {
    hide SameGroup, Aligned, Split;
    forall s: nat | Matters(p, s, a.k, bs) ensures SameGroup(a, b, s) {
      if Covered(o, s, a.k) {
        CoveredOnward(o, p, s, a.k);
      }
    }
  }

  /** After the same group was touched on both sides, only that group needs another look. */
  lemma AlikeTouched(a: Decoder, b: Decoder, o: Order, c: Decoder, d: Decoder, p: Order, s: nat,
                     fa: set<nat>, ra: Option<VpnFrame>, fb: set<nat>, rb: Option<VpnFrame>, bs: set<nat>)
    requires GroupSize(a.k) && Alike(a, b, o, bs) && Onward(o, p)
    requires Touches(a, c, s, fa, ra) && Touches(b, d, s, fb, rb)
    requires Matters(p, s, a.k, bs) ==> SameGroup(c, d, s)
    ensures Alike(c, d, p, bs)
  {
    hide Supplied, Had, Matters;
    AlikeOnward(a, b, o, p, bs);
    forall t: nat | Matters(p, t, c.k, bs) ensures SameGroup(c, d, t) {
      if t != s {
        assert SameGroup(a, c, t) && SameGroup(b, d, t) && SameGroup(a, b, t);
      }
    }
  }

  /** Groups below a boundary that delivery has reached are covered, unless it falls inside them. */
  lemma BelowIsCovered(o: Order, s: nat, b: nat, k: nat, bs: set<nat>)
    requires b in bs && !Split(s, k, bs) && s < b <= o.expected
    ensures Covered(o, s, k)
  {
    assert !Divides(b, s, k);
  }

  /** Retirement leaves the decoder as it is, or forgets exactly the groups below the boundary. */
  lemma RetireShape(d: Decoder, progress: nat)
    requires d.Valid()
    ensures var e := d.Retire(progress);
            && e.Valid() && e.k == d.k && e.ic == d.ic && e.fence == d.fence && e.staticSingle == d.staticSingle
            && e.cleanupBefore == d.cleanupBefore && e.done == d.done && |e.groups| <= |d.groups|
            && (forall s :: s in e.groups ==> s in d.groups && e.groups[s] == d.groups[s])
            && (e == d || (0 < e.retiredBefore == d.cleanupBefore <= progress && d.retiredBefore < d.cleanupBefore
                           && forall s :: s in d.groups && s >= d.cleanupBefore ==> s in e.groups))
  {
    var e := d.Retire(progress);
    RetireValid(d, progress);
    hide Decoder.Valid, Pruned;
    assert e.groups.Keys <= d.groups.Keys;
    SubsetSize(e.groups.Keys, d.groups.Keys);
    assert |e.groups| == |e.groups.Keys| && |d.groups| == |d.groups.Keys|;
  }

  lemma RetireTame(d: Decoder, o: Order, progress: nat, bs: set<nat>)
    requires Tame(d, o, bs) && progress <= o.expected
    ensures var e := d.Retire(progress);
            && Tame(e, o, bs)
            && e.k == d.k && e.ic == d.ic && e.fence == d.fence && e.staticSingle == d.staticSingle
            && e.cleanupBefore == d.cleanupBefore && e.done == d.done
            && |e.groups| <= |d.groups|
            && forall s: nat :: Matters(o, s, d.k, bs) ==> SameGroup(d, e, s)
  {
    hide Aligned, Covered, Decoder.Valid, Split, Decoder.Retire;
    assert GroupSize(d.k) && |d.done| == DONE_RING by { ValidSizes(d); }
    RetireShape(d, progress);
    var e := d.Retire(progress);
    if e != d {
      forall s: nat | Matters(o, s, d.k, bs) ensures SameGroup(d, e, s) {
        if s < d.cleanupBefore {
          BelowIsCovered(o, s, d.cleanupBefore, d.k, bs);
        }
      }
    }
  }

  lemma RetireAlike(a: Decoder, b: Decoder, o: Order, progress: nat, bs: set<nat>)
    requires GroupSize(a.k) && Tame(a, o, bs) && Alike(a, b, o, bs) && progress <= o.expected
    ensures Alike(a.Retire(progress), b, o, bs) && Tame(a.Retire(progress), o, bs) && |a.Retire(progress).groups| <= |a.groups|
    ensures a.Retire(progress).k == a.k
  {
    hide Decoder.Retire, Matters, MembersCovered, DoneCovered, SplitIsBare;
    RetireTame(a, o, progress, bs);
    forall s: nat | Matters(o, s, a.k, bs) ensures SameGroup(a.Retire(progress), b, s) {
      assert SameGroup(a, b, s) && SameGroup(a, a.Retire(progress), s);
    }
  }

  // ---- one step of both ----

  /** Everything is tracked, and the two decoders differ in covered groups only. */
  ghost predicate Agree(a: Decoder, b: Decoder, o: Order, bs: set<nat>) {
    GroupSize(a.k) && Tame(a, o, bs) && Tame(b, o, bs) && Alike(a, b, o, bs) && o.Valid()
  }

  /** The numbers of the group are ordered ones. */
  predicate Numbered(x: Input, k: nat)
    requires GroupSize(k)
  {
    match x
    case DataIn(n, data) => 0 < n && GroupStart(n, k) + k <= LAST_ORDERED + 1
    case ParityIn(b) => ParseHeader(b, k).Some? ==> ParseHeader(b, k).value + k <= LAST_ORDERED + 1
    case ModeIn(c) => true
  }

  /** Ordered numbers, SUSPEND boundaries among bs, and no parity of a group that one of them falls into. */
  ghost predicate InRange(x: Input, k: nat, bs: set<nat>)
    requires GroupSize(k)
  {
    && Numbered(x, k)
    && (x.ParityIn? && ParseHeader(x.b, k).Some? ==> !Split(ParseHeader(x.b, k).value, k, bs))
    && (x.ModeIn? && x.c.op == Suspend ==> x.c.boundary in bs)
  }

  /** Neither decoder is full. */
  predicate Roomy(a: Decoder, b: Decoder) {
    |a.groups| < MAX_PENDING && |b.groups| < MAX_PENDING
  }

  /** Nothing the input makes the decoder insert lies beyond the reorder window. */
  predicate Near(b: Decoder, o: Order, x: Input)
    requires GroupSize(b.k) && |b.done| == DONE_RING && WindowSize(o.size)
  {
    var rec := Step(b, x, 0).1;
    if x.DataIn? then Reachable(o, VpnFrame(x.n, x.data), rec)
    else rec.Some? ==> 0 < rec.value.n <= LAST_ORDERED && FateOf(o, rec.value.n) != Beyond
  }

  ghost predicate Calm(a: Decoder, b: Decoder, o: Order, x: Input, bs: set<nat>)
    requires GroupSize(b.k) && |b.done| == DONE_RING && WindowSize(o.size)
  {
    InRange(x, b.k, bs) && Roomy(a, b) && Near(b, o, x)
  }

  /** Where a recovery still matters, nothing has been retired or finished. */
  lemma UncoveredIsLive(d: Decoder, o: Order, s: nat, n: nat, bs: set<nat>)
    requires Tame(d, o, bs) && GroupSize(d.k) && Matters(o, s, d.k, bs) && s <= n < s + d.k
    ensures !d.Retired(n) && !d.Retired(s) && !d.IsDone(s)
  {
    hide Aligned, MembersCovered, Decoder.GroupValid, Split;
    if d.retiredBefore != 0 && s < d.retiredBefore {
      BelowIsCovered(o, s, d.retiredBefore, d.k, bs);
    }
  }

  /** The frame and what is rebuilt with it, when the group is covered: nothing comes out. */
  lemma CoveredPair(o: Order, s: nat, k: nat, f: VpnFrame, rec: Option<VpnFrame>)
    requires o.Valid() && Covered(o, s, k) && 0 < s && s + k <= LAST_ORDERED + 1
    requires s <= f.n < s + k && (rec.Some? ==> s <= rec.value.n < s + k)
    ensures InsertPair(o, f, rec) == (o, [])
  {
    hide InsertPair, Reorder<VpnFrame>.Valid;
    PairCovered(o, f, rec);
  }

  lemma OnwardReflexive(o: Order)
    ensures Onward(o, o)
  {
  }

  /** Both sides after the same group was touched and the same frames were inserted. */
  lemma AgreeTouched(a: Decoder, b: Decoder, o: Order, c: Decoder, d: Decoder, p: Order, s: nat, fed: set<nat>,
                     ra: Option<VpnFrame>, rb: Option<VpnFrame>, bs: set<nat>)
    requires Agree(a, b, o, bs) && Onward(o, p) && p.Valid() && c.Valid() && d.Valid()
    requires Touches(a, c, s, fed, ra) && Touches(b, d, s, fed, rb)
    requires Matters(p, s, a.k, bs) ==> SameGroup(c, d, s)
    requires Split(s, a.k, bs) ==> Bare(c, s) && Bare(d, s)
    requires forall j :: j in fed ==> Covers(p, s + j)
    requires (ra.Some? ==> Covers(p, ra.value.n)) && (rb.Some? ==> Covers(p, rb.value.n))
    ensures Agree(c, d, p, bs)
  {
    hide Touches, Tame, Reorder<VpnFrame>.Valid, Decoder.Valid, Covers, SameGroup, Matters, Split, Bare;
    TouchKeeps(a, c, o, p, s, fed, ra, bs);
    TouchKeeps(b, d, o, p, s, fed, rb, bs);
    assert c.k == a.k by { TouchesSize(a, c, s, fed, ra); }
    AlikeTouched(a, b, o, c, d, p, s, fed, ra, fed, rb, bs);
  }

  /** A touched group that is covered: whatever came out of it is old. */
  lemma CoveredSame(a: Decoder, b: Decoder, o: Order, c: Decoder, d: Decoder, s: nat, fed: set<nat>,
                    ra: Option<VpnFrame>, rb: Option<VpnFrame>, bs: set<nat>)
    requires Agree(a, b, o, bs) && Covered(o, s, a.k) && !Split(s, a.k, bs) && c.Valid() && d.Valid() && a.k == b.k
    requires Touches(a, c, s, fed, ra) && Touches(b, d, s, fed, rb) && forall j :: j in fed ==> j < a.k
    ensures Agree(c, d, o, bs)
  {
    hide Touches, Tame, Alike, Reorder<VpnFrame>.Valid, Decoder.Valid, Onward;
    TouchesSize(a, c, s, fed, ra);
    TouchesSize(b, d, s, fed, rb);
    OnwardReflexive(o);
    AgreeTouched(a, b, o, c, d, o, s, fed, ra, rb, bs);
  }

  /** A decoded data frame of a group that is covered, of one that a boundary falls into, and of one that matters. */
  lemma DecodedCovered(a: Decoder, b: Decoder, o: Order, n: nat, data: Bytes, bs: set<nat>)
    requires Agree(a, b, o, bs) && Calm(a, b, o, DataIn(n, data), bs) && data != [] && !a.staticSingle && !a.fence.Bypass(n)
    requires Covered(o, GroupStart(n, a.k), a.k) && !Split(GroupStart(n, a.k), a.k, bs)
    ensures var f := VpnFrame(n, data);
            var (c, ra) := a.OnData(n, data, o.expected); var (d, rb) := b.OnData(n, data, 0);
            InsertPair(o, f, ra) == (o, []) == InsertPair(o, f, rb) && Agree(c, d, o, bs)
  {
    hide Calm, Decoder.OnData, InsertPair, Touches, Reachable, Covered, Agree, Decoder.Valid, Reorder<VpnFrame>.Valid, Split;
    AgreeConfig(a, b, o, bs);
    CalmData(a, b, o, n, data, bs);
    var s, k, f := GroupStart(n, a.k), a.k, VpnFrame(n, data);
    OnDataTouches(a, n, data, o.expected);
    OnDataTouches(b, n, data, 0);
    var (c, ra) := a.OnData(n, data, o.expected);
    var (d, rb) := b.OnData(n, data, 0);
    TouchesSize(a, c, s, {n - s}, ra);
    TouchesSize(b, d, s, {n - s}, rb);
    CoveredPair(o, s, k, f, ra);
    CoveredPair(o, s, k, f, rb);
    CoveredSame(a, b, o, c, d, s, {n - s}, ra, rb, bs);
  }

  lemma CalmData(a: Decoder, b: Decoder, o: Order, n: nat, data: Bytes, bs: set<nat>)
    requires Agree(a, b, o, bs) && GroupSize(b.k) && |b.done| == DONE_RING && WindowSize(o.size) && Calm(a, b, o, DataIn(n, data), bs)
    ensures InRange(DataIn(n, data), b.k, bs) && Roomy(a, b) && Reachable(o, VpnFrame(n, data), b.OnData(n, data, 0).1)
  {
    hide Decoder.OnData, Reachable, Agree;
  }

  lemma DecodedSplit(a: Decoder, b: Decoder, o: Order, n: nat, data: Bytes, bs: set<nat>)
    requires Agree(a, b, o, bs) && Calm(a, b, o, DataIn(n, data), bs) && data != [] && !a.staticSingle && !a.fence.Bypass(n)
    requires Split(GroupStart(n, a.k), a.k, bs)
    ensures var f := VpnFrame(n, data);
            var (c, ra) := a.OnData(n, data, o.expected); var (d, rb) := b.OnData(n, data, 0);
            ra == rb == None && Agree(c, d, InsertPair(o, f, None).0, bs)
  {
    hide Calm, Decoder.OnData, InsertPair, Touches, Reachable, Covered, Agree, Decoder.Valid, Reorder<VpnFrame>.Valid;
    hide Split, Onward, Covers, SameGroup, Bare;
    AgreeConfig(a, b, o, bs);
    CalmData(a, b, o, n, data, bs);
    var s, f := GroupStart(n, a.k), VpnFrame(n, data);
    assert Bare(a, s) && Bare(b, s) by { SplitBare(a, b, o, s, bs); }
    BareData(a, n, data, o.expected);
    BareData(b, n, data, 0);
    OnDataTouches(a, n, data, o.expected);
    OnDataTouches(b, n, data, 0);
    PairOnward(o, f, None);
    AgreeTouched(a, b, o, a.OnData(n, data, o.expected).0, b.OnData(n, data, 0).0, InsertPair(o, f, None).0, s, {n - s}, None, None, bs);
  }

  lemma SplitBare(a: Decoder, b: Decoder, o: Order, s: nat, bs: set<nat>)
    requires Agree(a, b, o, bs) && Split(s, a.k, bs)
    ensures Bare(a, s) && Bare(b, s)
  {
    hide Split, MembersCovered, DoneCovered, Decoder.Valid, Matters;
  }

  lemma DecodedLive(a: Decoder, b: Decoder, o: Order, n: nat, data: Bytes, bs: set<nat>)
    requires Agree(a, b, o, bs) && Calm(a, b, o, DataIn(n, data), bs) && data != [] && !a.staticSingle && !a.fence.Bypass(n)
    requires Matters(o, GroupStart(n, a.k), a.k, bs)
    ensures var f := VpnFrame(n, data);
            var (c, ra) := a.OnData(n, data, o.expected); var (d, rb) := b.OnData(n, data, 0);
            ra == rb && Agree(c, d, InsertPair(o, f, ra).0, bs)
  {
    hide Calm, Decoder.OnData, InsertPair, Touches, Reachable, Covered, Agree, Decoder.AddMember, Decoder.WithGroup;
    hide Decoder.Valid, Reorder<VpnFrame>.Valid, SameGroup, Onward, Covers, Split, GroupStart, Aligned, Bare;
    AgreeConfig(a, b, o, bs);
    CalmData(a, b, o, n, data, bs);
    var s, k, f := GroupStart(n, a.k), a.k, VpnFrame(n, data);
    OnDataTouches(a, n, data, o.expected);
    OnDataTouches(b, n, data, 0);
    LiveGroup(a, b, o, s, n, bs);
    SameData(a, b, s, n - s, data);
    var (d, rb) := b.OnData(n, data, 0);
    PairOnward(o, f, rb);
    AgreeTouched(a, b, o, a.OnData(n, data, o.expected).0, d, InsertPair(o, f, rb).0, s, {n - s}, rb, rb, bs);
  }

  lemma LiveGroup(a: Decoder, b: Decoder, o: Order, s: nat, n: nat, bs: set<nat>)
    requires Agree(a, b, o, bs) && GroupSize(a.k) && Matters(o, s, a.k, bs) && s <= n < s + a.k
    ensures !a.Retired(n) && !a.Retired(s) && !a.IsDone(s)
    ensures !b.Retired(n) && !b.Retired(s) && |b.done| == DONE_RING && !b.IsDone(s)
    ensures SameGroup(a, b, s)
  {
    hide MembersCovered, DoneCovered, Matters, SameGroup, Decoder.GroupValid, SplitIsBare;
    UncoveredIsLive(a, o, s, n, bs);
    UncoveredIsLive(b, o, s, n, bs);
  }

  /** Delivery moved on; the decoders did not, except that one may have retired. */
  lemma AgreeOnward(a: Decoder, b: Decoder, o: Order, p: Order, bs: set<nat>)
    requires Agree(a, b, o, bs) && Onward(o, p) && p.Valid()
    ensures Agree(a, b, p, bs)
  {
    hide Tame, Alike, Reorder<VpnFrame>.Valid, Onward;
    TameOnward(a, o, p, bs);
    TameOnward(b, o, p, bs);
    AlikeOnward(a, b, o, p, bs);
  }

  lemma AgreeRetired(a: Decoder, b: Decoder, o: Order, progress: nat, bs: set<nat>)
    requires Agree(a, b, o, bs) && progress <= o.expected
    ensures Agree(a.Retire(progress), b, o, bs) && |a.Retire(progress).groups| <= |a.groups|
  {
    hide Tame, Alike, Reorder<VpnFrame>.Valid, Decoder.Retire;
    RetireAlike(a, b, o, progress, bs);
  }

  lemma DataSame(a: Decoder, b: Decoder, o: Order, n: nat, data: Bytes, bs: set<nat>)
    requires Agree(a, b, o, bs) && Calm(a, b, o, DataIn(n, data), bs)
    ensures var f := VpnFrame(n, data);
            var (c, ra) := a.OnData(n, data, o.expected); var (d, rb) := b.OnData(n, data, 0);
            InsertPair(o, f, ra) == InsertPair(o, f, rb) && Agree(c, d, InsertPair(o, f, ra).0, bs)
  {
    hide Agree, InsertPair, Reachable, Decoder.AddMember, Decoder.WithGroup, Decoder.Retire, Split, Covered;
    AgreeConfig(a, b, o, bs);
    if data != [] && !a.staticSingle && !a.fence.Bypass(n) {
      if Split(GroupStart(n, a.k), a.k, bs) {
        DecodedSplit(a, b, o, n, data, bs);
      } else if Covered(o, GroupStart(n, a.k), a.k) {
        DecodedCovered(a, b, o, n, data, bs);
      } else {
        DecodedLive(a, b, o, n, data, bs);
      }
    } else {
      var p := InsertPair(o, VpnFrame(n, data), None).0;
      PairOnward(o, VpnFrame(n, data), None);
      AgreeOnward(a, b, o, p, bs);
      AgreeRetired(a, b, p, o.expected, bs);
      assert b.Retire(0) == b by { NoProgress(b); }
    }
  }

  lemma AgreeConfig(a: Decoder, b: Decoder, o: Order, bs: set<nat>)
    requires Agree(a, b, o, bs)
    ensures a.k == b.k && a.ic == b.ic && a.fence == b.fence && a.staticSingle == b.staticSingle
    ensures o.Valid() && a.Valid() && b.Valid() && WindowSize(o.size) && GroupSize(a.k)
    ensures |a.done| == DONE_RING && |b.done| == DONE_RING
  {
  }

  /** Without a progress report nothing is ever retired. */
  lemma NoProgress(d: Decoder)
    ensures d.Retire(0) == d
  {
  }

  function InsertSome(o: Order, rec: Option<VpnFrame>): (Order, seq<VpnFrame>)
    requires WindowSize(o.size)
  {
    if rec.None? then (o, [])
    else
      var (p, out, gone) := o.Insert(rec.value.n, rec.value);
      (p, out)
  }

  /** A parity body; what it leads to is retired from in the end, or not. */
  lemma BodyRetires(d: Decoder, s: nat, b: Bytes, progress: nat)
    requires |d.done| == DONE_RING
    ensures var (e, rec) := d.OnParityBody(s, b, 0); var (f, same) := d.OnParityBody(s, b, progress);
            same == rec && (f == e || f == e.Retire(progress))
  {
    hide ParseLengths, Decoder.TryRecover, Decoder.WithGroup, Decoder.Retire, SealedBody;
    var lens := ParseLengths(b, d.k, TagLen(d.ic));
    if !(d.Retired(s) || lens.None? || d.IsDone(s)) && !(s in d.groups && d.groups[s].parity.Some?) {
      var m := d.WithGroup(s);
      var body := Open(d.ic, s, SealedBody(b, d.k, lens.value, TagLen(d.ic)));
      if body.Some? {
        NoProgress(m.Put(s, m.groups[s].(parity := Some(Parity(lens.value, body.value)))).TryRecover(s).0);
      }
    }
  }

  lemma BodySame(a: Decoder, b: Decoder, o: Order, s: nat, body: Bytes, bs: set<nat>)
    requires Agree(a, b, o, bs) && Aligned(s, a.k) && s + a.k <= LAST_ORDERED + 1 && !Split(s, a.k, bs)
    requires |a.groups| < MAX_PENDING && |b.groups| < MAX_PENDING
    requires var rec := b.OnParityBody(s, body, 0).1; rec.Some? ==> FateOf(o, rec.value.n) != Beyond
    ensures var (c, ra) := a.OnParityBody(s, body, 0); var (d, rb) := b.OnParityBody(s, body, 0);
            InsertSome(o, ra) == InsertSome(o, rb) && Agree(c, d, InsertSome(o, rb).0, bs) && o.expected <= InsertSome(o, rb).0.expected
  {
    hide Decoder.OnParityBody, Touches, Covered, Agree, Decoder.Valid, SameGroup, Aligned, Split;
    AgreeConfig(a, b, o, bs);
    ParityTouches(a, s, body);
    ParityTouches(b, s, body);
    var (c, ra) := a.OnParityBody(s, body, 0);
    var (d, rb) := b.OnParityBody(s, body, 0);
    TouchesSize(a, c, s, {}, ra);
    TouchesSize(b, d, s, {}, rb);
    assert s > 0 by { AlignedPositive(s, a.k); }
    if Covered(o, s, a.k) {
      CoveredRec(o, s, a.k, ra);
      CoveredRec(o, s, a.k, rb);
      CoveredSame(a, b, o, c, d, s, {}, ra, rb, bs);
    } else {
      LiveGroup(a, b, o, s, s, bs);
      SameParity(a, b, s, body);
      SomeOnward(o, rb);
      AgreeTouched(a, b, o, c, d, InsertSome(o, rb).0, s, {}, rb, rb, bs);
    }
  }

  lemma CoveredRec(o: Order, s: nat, k: nat, rec: Option<VpnFrame>)
    requires o.Valid() && Covered(o, s, k) && 0 < s && s + k <= LAST_ORDERED + 1
    requires rec.Some? ==> s <= rec.value.n < s + k
    ensures InsertSome(o, rec) == (o, [])
  {
    hide Reorder<VpnFrame>.Insert;
    if rec.Some? {
      InsertCovered(o, rec.value);
    }
  }

  lemma SomeOnward(o: Order, rec: Option<VpnFrame>)
    requires o.Valid() && (rec.Some? ==> 0 < rec.value.n <= LAST_ORDERED && FateOf(o, rec.value.n) != Beyond)
    ensures var p := InsertSome(o, rec).0; p.Valid() && Onward(o, p) && (rec.Some? ==> Covers(p, rec.value.n))
  {
    hide Reorder<VpnFrame>.Insert;
    if rec.Some? {
      InsertOnward(o, rec.value);
    }
  }

  lemma ParitySame(a: Decoder, b: Decoder, o: Order, body: Bytes, bs: set<nat>)
    requires Agree(a, b, o, bs) && Calm(a, b, o, ParityIn(body), bs)
    ensures var (c, ra) := a.OnParity(body, o.expected); var (d, rb) := b.OnParity(body, 0);
            InsertSome(o, ra) == InsertSome(o, rb) && Agree(c, d, InsertSome(o, rb).0, bs)
  {
    hide Decoder.OnParityBody, Agree, Decoder.Valid, Decoder.Retire, ParseHeader, InsertSome, Split;
    AgreeConfig(a, b, o, bs);
    var header := ParseHeader(body, a.k);
    if a.staticSingle || header.None? {
      assert InsertSome(o, None) == (o, []) by { NothingInserted(o); }
    } else {
      var s := header.value;
      AgreeRetired(a, b, o, o.expected, bs);
      var r := a.Retire(o.expected);
      NoProgress(b);
      assert r.k == a.k by { AgreeConfig(r, b, o, bs); }
      BodySame(r, b, o, s, body, bs);
      var p := InsertSome(o, b.OnParityBody(s, body, 0).1).0;
      assert |r.done| == DONE_RING by { AgreeConfig(r, b, o, bs); }
      BodyRetires(r, s, body, o.expected);
      AgreeRetired(r.OnParityBody(s, body, 0).0, b.OnParityBody(s, body, 0).0, p, o.expected, bs);
    }
  }

  lemma NothingInserted(o: Order)
    requires WindowSize(o.size)
    ensures InsertSome(o, None) == (o, [])
  {
  }

  /** The window moves alike, and drops the same groups. */
  lemma WindowMoves(d: Decoder, o: Order, f: Fence, boundary: nat, bs: set<nat>)
    requires Tame(d, o, bs) && f.generation < U64 && f.from < U32 && f.until < U32 && Boundary(f.from, bs) && Boundary(boundary, bs)
    ensures Tame(d.(fence := f, cleanupBefore := boundary), o, bs)
  {
    hide Aligned, MembersCovered, Split;
    var e := d.(fence := f, cleanupBefore := boundary);
    assert forall s :: s in e.groups ==> d.GroupValid(s, d.groups[s]);
    assert MembersCovered(e, o) by { SameMembers(d, e, o); }
  }

  lemma SameMembers(d: Decoder, e: Decoder, o: Order)
    requires e.groups == d.groups && MembersCovered(d, o)
    ensures MembersCovered(e, o)
  {
  }

  lemma DropTame(d: Decoder, o: Order, from: nat, until: nat, bs: set<nat>)
    requires Tame(d, o, bs)
    ensures Tame(d.DropRange(from, until), o, bs)
  {
    hide Aligned, Decoder.GroupValid, Split;
    DropRangeValid(d, from, until);
  }

  lemma DropAlike(a: Decoder, b: Decoder, o: Order, from: nat, until: nat, bs: set<nat>)
    requires GroupSize(a.k) && Alike(a, b, o, bs)
    ensures Alike(a.DropRange(from, until), b.DropRange(from, until), o, bs)
  {
    hide Matters;
    var c, d := a.DropRange(from, until), b.DropRange(from, until);
    forall s: nat | Matters(o, s, a.k, bs) ensures SameGroup(c, d, s) {
      assert SameGroup(a, b, s);
    }
  }

  lemma ModeSame(a: Decoder, b: Decoder, o: Order, c: ModeControl, bs: set<nat>)
    requires Agree(a, b, o, bs) && (c.op == Suspend ==> c.boundary in bs)
    ensures Agree(a.OnMode(c, o.expected), b.OnMode(c, 0), o, bs)
  {
    hide Decoder.DropRange, Decoder.Retire, MembersCovered, DoneCovered, SplitIsBare, Matters, SameGroup, Decoder.GroupValid;
    if c.Valid() && c.generation > a.fence.generation {
      var f := a.fence.After(c);
      var boundary := if f.from > a.cleanupBefore then f.from else a.cleanupBefore;
      var high := if f.from == 0 then a.cleanupBefore else boundary;
      WindowMoves(a, o, f, high, bs);
      WindowMoves(b, o, f, high, bs);
      var p, q := a.(fence := f, cleanupBefore := high), b.(fence := f, cleanupBefore := high);
      assert Alike(p, q, o, bs) by { ConfigAlike(a, b, o, f, high, bs); }
      if f.from != 0 {
        var until := if f.until == 0 then U32 else f.until;
        DropTame(p, o, f.from, until, bs);
        DropTame(q, o, f.from, until, bs);
        DropAlike(p, q, o, f.from, until, bs);
        AgreeRetired(p.DropRange(f.from, until), q.DropRange(f.from, until), o, o.expected, bs);
        NoProgress(q.DropRange(f.from, until));
      }
    }
  }

  lemma ConfigAlike(a: Decoder, b: Decoder, o: Order, f: Fence, boundary: nat, bs: set<nat>)
    requires GroupSize(a.k) && Alike(a, b, o, bs)
    ensures Alike(a.(fence := f, cleanupBefore := boundary), b.(fence := f, cleanupBefore := boundary), o, bs)
  {
    hide Matters;
    var p, q := a.(fence := f, cleanupBefore := boundary), b.(fence := f, cleanupBefore := boundary);
    forall s: nat | Matters(o, s, a.k, bs) ensures SameGroup(p, q, s) {
      assert SameGroup(a, b, s);
    }
  }

  // ---- runs ----

  /** What happens at the receiver: an input arrives, or the gap timer fires. */
  datatype Event = Input(x: GroupDecoder.Input) | Timeout

  /** A receiver whose decoder is told the progress, or told nothing. */
  datatype Receiver = Receiver(fec: Decoder, order: Order, out: seq<VpnFrame>)
  {
    ghost predicate Sane() {
      GroupSize(fec.k) && |fec.done| == DONE_RING && WindowSize(order.size)
    }

    function Next(ev: Event, told: bool): Receiver
      requires GroupSize(fec.k) && |fec.done| == DONE_RING && WindowSize(order.size)
    {
      match ev
      case Timeout =>
        var (p, more) := order.Expire();
        this.(order := p, out := out + more)
      case Input(x) =>
        var (e, p, more) := Arrive(fec, order, x, if told then order.expected else 0);
        Receiver(e, p, out + more)
    }
  }

  ghost predicate AllInRange(evs: seq<Event>, k: nat, bs: set<nat>)
    requires GroupSize(k)
  {
    forall i :: 0 <= i < |evs| && evs[i].Input? ==> InRange(evs[i].x, k, bs)
  }

  /** Every input of the run finds room if roomy, and is within reach if near. */
  ghost predicate RunWith(r: Receiver, q: Receiver, evs: seq<Event>, roomy: bool, near: bool)
    decreases |evs|
  {
    evs != [] ==>
      && r.Sane() && q.Sane()
      && (evs[0].Input? && roomy ==> Roomy(r.fec, q.fec))
      && (evs[0].Input? && near ==> Near(q.fec, q.order, evs[0].x))
      && RunWith(r.Next(evs[0], true), q.Next(evs[0], false), evs[1..], roomy, near)
  }

  lemma NextSize(r: Receiver, ev: Event, told: bool)
    requires r.Sane()
    ensures r.Next(ev, told).fec.k == r.fec.k && r.Next(ev, told).Sane()
  {
    hide Decoder.OnData, Decoder.OnParity, Decoder.OnMode, Reorder<VpnFrame>.Insert, Reorder<VpnFrame>.Drain, RxPath.Rx.Insert;
    if ev.Timeout? {
      ExpireSize(r.order);
    } else if ev.x.DataIn? {
      var f := VpnFrame(ev.x.n, ev.x.data);
      PairSize(r.order, f, Step(r.fec, ev.x, if told then r.order.expected else 0).1);
    }
  }

  lemma ExpireSize(o: Order)
    ensures o.Expire().0.size == o.size
  {
  }

  lemma PairSize(o: Order, f: VpnFrame, rec: Option<VpnFrame>)
    requires WindowSize(o.size)
    ensures WindowSize(InsertPair(o, f, rec).0.size)
  {
    hide Reorder<VpnFrame>.Insert, InsertPair;
    PairCases(o, f, rec);
  }

  function After(r: Receiver, evs: seq<Event>, told: bool): Receiver
    decreases |evs|
  {
    if evs == [] || !GroupSize(r.fec.k) || |r.fec.done| != DONE_RING || !WindowSize(r.order.size) then r
    else After(r.Next(evs[0], told), evs[1..], told)
  }

  lemma StepSame(r: Receiver, q: Receiver, ev: Event, bs: set<nat>)
    requires Agree(r.fec, q.fec, r.order, bs) && r.order == q.order && r.out == q.out && r.Sane() && q.Sane()
    requires ev.Input? ==> Calm(r.fec, q.fec, q.order, ev.x, bs)
    ensures var s, t := r.Next(ev, true), q.Next(ev, false);
            s.order == t.order && s.out == t.out && Agree(s.fec, t.fec, s.order, bs)
  {
    hide Agree, InsertPair, Decoder.OnData, Decoder.OnParity, Decoder.OnMode, Calm, Reorder<VpnFrame>.Insert;
    var a, b, o := r.fec, q.fec, r.order;
    match ev {
      case Timeout =>
        assert o.Valid() by { AgreeConfig(a, b, o, bs); }
        ExpireOnward(o);
        AgreeOnward(a, b, o, o.Expire().0, bs);
      case Input(x) =>
        match x {
          case DataIn(n, data) => DataSame(a, b, o, n, data, bs);
          case ParityIn(body) => ParitySame(a, b, o, body, bs);
          case ModeIn(c) =>
            assert c.op == Suspend ==> c.boundary in bs by { CalmBoundary(a, b, o, c, bs); }
            ModeSame(a, b, o, c, bs);
        }
    }
  }

  lemma CalmBoundary(a: Decoder, b: Decoder, o: Order, c: ModeControl, bs: set<nat>)
    requires Agree(a, b, o, bs) && Calm(a, b, o, ModeIn(c), bs)
    ensures c.op == Suspend ==> c.boundary in bs
  {
  }

  lemma {:induction false} RunSame(r: Receiver, q: Receiver, evs: seq<Event>, bs: set<nat>)
    requires Agree(r.fec, q.fec, r.order, bs) && r.order == q.order && r.out == q.out
    requires GroupSize(q.fec.k) && AllInRange(evs, q.fec.k, bs) && RunWith(r, q, evs, true, true)
    ensures After(r, evs, true).out == After(q, evs, false).out && After(r, evs, true).order == After(q, evs, false).order
    decreases |evs|
  {
    hide Agree, Roomy, Near, InRange, Receiver.Next;
    if evs != [] {
      StepSame(r, q, evs[0], bs);
      NextSize(q, evs[0], false);
      RunSame(r.Next(evs[0], true), q.Next(evs[0], false), evs[1..], bs);
    }
  }

  function NewReceiver(k: int, ic: Cipher): Receiver {
    Receiver(NewDecoder(k, ic), Empty(), [])
  }

  /**
   Over every run in which both decoders have room and all frames are within reach, a decoder that
   retires groups and one that never does deliver the same frames in the same order, and leave the
   reorder buffer in the same state.  The SUSPEND boundaries bs may fall anywhere, as long as no
   parity of a group that one of them falls into arrives.
   */
  lemma RetirementInvisible(k: int, ic: Cipher, evs: seq<Event>, bs: set<nat>)
    requires AllInRange(evs, ClampGroup(k), bs) && RunWith(NewReceiver(k, ic), NewReceiver(k, ic), evs, true, true)
    ensures After(NewReceiver(k, ic), evs, true).out == After(NewReceiver(k, ic), evs, false).out
    ensures After(NewReceiver(k, ic), evs, true).order == After(NewReceiver(k, ic), evs, false).order
  {
    var start := NewReceiver(k, ic);
    var d := start.fec;
    forall s: nat | Aligned(s, d.k) ensures !d.IsDone(s) {
      assert d.done[s % DONE_RING] == 0;
    }
    RunSame(start, start, evs, bs);
  }

  // ---- the receive path of a session is such a receiver ----

  lemma SessionData(s: RxPath.Rx, f: VpnFrame)
    requires s.Sane() && s.fec.Some?
    ensures var (e, p, out) := Arrive(s.fec.value, s.order, DataIn(f.n, f.data), s.order.expected);
            var t := s.OnDataFrame(f);
            t.fec == Some(e) && t.order == p && RxPath.Log(t) == RxPath.Log(s) + out
  {
    hide Reorder<VpnFrame>.Insert, Decoder.OnData;
    var rec := s.fec.value.OnData(f.n, f.data, s.order.expected).1;
    var (p, out) := InsertPair(s.order, f, rec);
    PairCases(s.order, f, rec);
    assert s.OnDataFrame(f).ready == s.ready + out;
  }

  lemma SessionControl(s: RxPath.Rx, f: VpnFrame)
    requires s.Sane() && s.fec.Some? && !ParseControl(f.data).Bad?
    ensures var x := match ParseControl(f.data) case ModeFrame(c) => ModeIn(c) case _ => ParityIn(f.data);
            var (e, p, out) := Arrive(s.fec.value, s.order, x, s.order.expected);
            var t := s.OnControlFrame(f);
            t.Some? && t.value.fec == Some(e) && t.value.order == p && RxPath.Log(t.value) == RxPath.Log(s) + out
  {
    hide Reorder<VpnFrame>.Insert, Decoder.OnParity, Decoder.OnMode, RxPath.Rx.Flush, RxPath.Log;
    var none: seq<VpnFrame> := [];
    assert RxPath.Log(s) + none == RxPath.Log(s);
    if ParseControl(f.data).ParityFrame? {
      var (e, rec) := s.fec.value.OnParity(f.data, s.order.expected);
      var u := s.(fec := Some(e)).Release([f]);
      assert RxPath.Log(u) == RxPath.Log(s) by { SameLog(s, u); }
      if rec.Some? {
        var (p, out, gone) := s.order.Insert(rec.value.n, rec.value);
        RxPath.FlushLog(u.Insert(rec.value));
        RxPath.LogAppend(u, out);
        assert RxPath.Log(u.Insert(rec.value)) == RxPath.Log(u.(ready := u.ready + out)) by {
          SameLog(u.(ready := u.ready + out), u.Insert(rec.value));
        }
        FlushKeeps(u.Insert(rec.value));
      }
    } else {
      SameLog(s, s.OnControlFrame(f).value);
    }
  }

  lemma SameLog(s: RxPath.Rx, t: RxPath.Rx)
    requires s.handed == t.handed && s.ready == t.ready
    ensures RxPath.Log(s) == RxPath.Log(t)
  {
  }

  lemma FlushKeeps(s: RxPath.Rx)
    ensures s.Flush().fec == s.fec && s.Flush().order == s.order
  {
  }
}
