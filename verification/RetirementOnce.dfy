/**
 Retirement without repetition.

 When no frame arrives twice the reach of the reorder window no longer matters to the
 retirement theorem.  A group that has finished used up K of its K + 1 frames, so that
 whatever is still to come of it cannot make it finish again: a decoder that has
 forgotten it acts like one that remembers.
 */
module RetirementOnce {
  import opened Xor
  import opened Wire
  import opened FecControl
  import opened FecParity
  import opened FecEncoder
  import opened GroupDecoder
  import opened GroupWork
  import opened Reorder
  import opened Retirement
  import RetiredGroups

  /** The data numbers and parity headers that have arrived. */
  datatype Seen = Seen(used: set<nat>, heads: set<nat>)

  predicate Fresh(x: Input, k: nat, h: Seen)
    requires GroupSize(k)
  {
    match x
    case DataIn(n, data) => n !in h.used
    case ParityIn(b) => ParseHeader(b, k).Some? ==> ParseHeader(b, k).value !in h.heads
    case ModeIn(c) => true
  }

  function Note(x: Input, k: nat, h: Seen): Seen
    requires GroupSize(k)
  {
    match x
    case DataIn(n, data) => h.(used := h.used + {n})
    case ParityIn(b) => if ParseHeader(b, k).Some? then h.(heads := h.heads + {ParseHeader(b, k).value}) else h
    case ModeIn(c) => h
  }

  // ---- how much of a group has arrived ----

  /** The offsets of group s among the numbers. */
  function Arrived(used: set<nat>, s: nat, k: nat): (r: set<nat>)
    ensures forall j :: j in r <==> 0 <= j < k && s + j in used
  {
    if k == 0 then {} else Arrived(used, s, k - 1) + if s + k - 1 in used then {k - 1} else {}
  }

  lemma {:induction false} OffsetsSize(k: nat)
    ensures |Offsets(k)| == k
  {
    if k > 0 {
      OffsetsSize(k - 1);
    }
  }

  lemma ArrivedBound(used: set<nat>, s: nat, k: nat)
    ensures |Arrived(used, s, k)| <= k
  {
    hide Arrived, Offsets;
    OffsetsSize(k);
    SubsetSize(Arrived(used, s, k), Offsets(k));
  }

  lemma ArrivedLacks(used: set<nat>, s: nat, k: nat, j: nat)
    requires j < k && s + j !in used
    ensures |Arrived(used, s, k)| <= k - 1
  {
    hide Arrived, Offsets;
    OffsetsSize(k);
    SubsetSize(Arrived(used, s, k), Offsets(k) - {j});
  }

  lemma ArrivedMore(used: set<nat>, n: nat, s: nat, k: nat)
    requires s <= n < s + k && n !in used
    ensures Arrived(used + {n}, s, k) == Arrived(used, s, k) + {n - s} && |Arrived(used + {n}, s, k)| == |Arrived(used, s, k)| + 1
  {
    hide Arrived;
    assert n - s !in Arrived(used, s, k);
    assert Arrived(used + {n}, s, k) == Arrived(used, s, k) + {n - s};
  }

  function One(b: bool): nat {
    if b then 1 else 0
  }

  /** How many frames of the group the decoder holds. */
  function Held(d: Decoder, s: nat): nat {
    |Had(d, s)| + One(!Bare(d, s))
  }

  /** How many frames of the group have arrived at all. */
  function Total(h: Seen, s: nat, k: nat): nat {
    |Arrived(h.used, s, k)| + One(s in h.heads)
  }

  /** What is held has arrived; of a finished group at most one frame is left to be held; only such groups are done. */
  ghost predicate Tracked(d: Decoder, h: Seen, spent: set<nat>)
    requires GroupSize(d.k) && |d.done| == DONE_RING
  {
    && (forall s :: s in d.groups ==> Had(d, s) <= Arrived(h.used, s, d.k) && (!Bare(d, s) ==> s in h.heads))
    && (forall s :: s in spent ==> d.k + Held(d, s) <= Total(h, s, d.k))
    && (forall s: nat :: Aligned(s, d.k) && d.IsDone(s) ==> s in spent)
  }

  /** All members but at most one are there: that is K frames with the parity. */
  lemma EnoughArrived(h: Seen, d: Decoder, e: Decoder, s: nat, fed: set<nat>, rec: Option<VpnFrame>)
    requires Touches(d, e, s, fed, rec) && (rec.Some? || e.done != d.done)
    requires Had(d, s) + fed <= Arrived(h.used, s, d.k) && (rec.Some? ==> s in h.heads)
    ensures d.k <= Total(h, s, d.k)
  {
    hide SameGroup, Had, Arrived, Offsets;
    OffsetsSize(d.k);
    var missing := if rec.Some? then {rec.value.n - s} else {};
    forall j | j in Offsets(d.k) - missing ensures j in Arrived(h.used, s, d.k) {
      assert Supplied(d, s, fed, rec, j);
    }
    SubsetSize(Offsets(d.k) - missing, Arrived(h.used, s, d.k));
  }

  lemma TotalGrows(h: Seen, g: Seen, s: nat, k: nat)
    requires h.used <= g.used && h.heads <= g.heads
    ensures Arrived(h.used, s, k) <= Arrived(g.used, s, k) && Total(h, s, k) <= Total(g, s, k)
  {
    hide Arrived;
    SubsetSize(Arrived(h.used, s, k), Arrived(g.used, s, k));
  }

  function Finished(d: Decoder, e: Decoder, s: nat, spent: set<nat>): set<nat> {
    if e.done != d.done then spent + {s} else spent
  }

  /** The touched group holds at most one frame more, and one more has arrived. */
  ghost predicate OneMore(d: Decoder, e: Decoder, s: nat, fed: set<nat>, rec: Option<VpnFrame>, h: Seen, g: Seen) {
    && h.used <= g.used && h.heads <= g.heads
    && Had(d, s) + fed <= Arrived(g.used, s, d.k)
    && (!Bare(e, s) || rec.Some? ==> s in g.heads)
    && Held(e, s) <= Held(d, s) + 1
    && Total(h, s, d.k) + 1 <= Total(g, s, d.k)
  }

  lemma TouchTracks(d: Decoder, e: Decoder, s: nat, fed: set<nat>, rec: Option<VpnFrame>, h: Seen, g: Seen, spent: set<nat>)
    requires GroupSize(d.k) && |d.done| == DONE_RING && Tracked(d, h, spent)
    requires Touches(d, e, s, fed, rec) && OneMore(d, e, s, fed, rec, h, g)
    ensures GroupSize(e.k) && |e.done| == DONE_RING && Tracked(e, g, Finished(d, e, s, spent))
  {
    hide Aligned, Arrived, Supplied;
    if e.done != d.done {
      EnoughArrived(g, d, e, s, fed, rec);
    }
    hide Total;
    forall t | t in e.groups ensures Had(e, t) <= Arrived(g.used, t, e.k) && (!Bare(e, t) ==> t in g.heads) {
      TotalGrows(h, g, t, d.k);
      assert t != s ==> SameGroup(d, e, t);
    }
    forall t | t in Finished(d, e, s, spent) ensures e.k + Held(e, t) <= Total(g, t, e.k) {
      if t != s {
        TotalGrows(h, g, t, d.k);
        assert SameGroup(d, e, t);
      }
    }
  }

  /** Groups went, and more arrived. */
  lemma ShrinkTracks(d: Decoder, e: Decoder, h: Seen, g: Seen, spent: set<nat>)
    requires GroupSize(d.k) && |d.done| == DONE_RING && Tracked(d, h, spent)
    requires e.k == d.k && e.done == d.done && h.used <= g.used && h.heads <= g.heads
    requires forall s :: s in e.groups ==> s in d.groups && e.groups[s] == d.groups[s]
    ensures Tracked(e, g, spent)
  {
    hide Aligned, Arrived, Total;
    forall t | t in e.groups ensures Had(e, t) <= Arrived(g.used, t, e.k) {
      TotalGrows(h, g, t, d.k);
    }
    forall t | t in spent ensures e.k + Held(e, t) <= Total(g, t, e.k) {
      TotalGrows(h, g, t, d.k);
    }
  }

  lemma DataOneMore(d: Decoder, n: nat, data: Bytes, progress: nat, h: Seen, spent: set<nat>)
    requires d.Valid() && |d.groups| < MAX_PENDING && n > 0 && GroupStart(n, d.k) + d.k < U32 && n !in h.used
    requires data != [] && !d.staticSingle && !d.fence.Bypass(n) && Tracked(d, h, spent)
    ensures var s := GroupStart(n, d.k); var (e, rec) := d.OnData(n, data, progress); var g := h.(used := h.used + {n});
            Touches(d, e, s, {n - s}, rec) && e.Valid() && OneMore(d, e, s, {n - s}, rec, h, g)
  {
    hide *;
    ValidSize(d);
    var (e, rec) := d.OnData(n, data, progress);
    OnDataTouches(d, n, data, progress);
    DataKeepsParity(d, n, data, progress);
    FrameMore(d, e, n, GroupStart(n, d.k), rec, h, spent);
  }

  lemma FrameMore(d: Decoder, e: Decoder, n: nat, s: nat, rec: Option<VpnFrame>, h: Seen, spent: set<nat>)
    requires GroupSize(d.k) && |d.done| == DONE_RING && Tracked(d, h, spent) && s <= n < s + d.k && n !in h.used
    requires Touches(d, e, s, {n - s}, rec) && (!Bare(e, s) || rec.Some? ==> !Bare(d, s))
    ensures OneMore(d, e, s, {n - s}, rec, h, h.(used := h.used + {n}))
  {
    hide Touches, Tracked, Arrived, Bare, Had, Held, Total;
    TotalMore(h, n, s, d.k);
    HadArrived(d, h, spent, s);
    HeldMore(d, e, s, n - s, rec);
  }

  lemma TotalMore(h: Seen, n: nat, s: nat, k: nat)
    requires s <= n < s + k && n !in h.used
    ensures var g := h.(used := h.used + {n});
            Arrived(g.used, s, k) == Arrived(h.used, s, k) + {n - s} && Total(g, s, k) == Total(h, s, k) + 1
  {
    hide Arrived;
    ArrivedMore(h.used, n, s, k);
  }

  lemma HeldMore(d: Decoder, e: Decoder, s: nat, j: nat, rec: Option<VpnFrame>)
    requires Touches(d, e, s, {j}, rec) && (!Bare(e, s) ==> !Bare(d, s))
    ensures Held(e, s) <= Held(d, s) + 1
  {
    hide Touches, Had, Bare;
    HadMore(d, e, s, j, rec);
  }

  lemma HadArrived(d: Decoder, h: Seen, spent: set<nat>, s: nat)
    requires GroupSize(d.k) && |d.done| == DONE_RING && Tracked(d, h, spent)
    ensures Had(d, s) <= Arrived(h.used, s, d.k) && (!Bare(d, s) ==> s in h.heads)
  {
    hide Aligned, Arrived, Held, Total;
  }

  lemma HadMore(d: Decoder, e: Decoder, s: nat, j: nat, rec: Option<VpnFrame>)
    requires Touches(d, e, s, {j}, rec)
    ensures |Had(e, s)| <= |Had(d, s)| + 1
  {
    hide Supplied, SameGroup;
    SubsetSize(Had(e, s), Had(d, s) + {j});
    UnionSize(Had(d, s), j);
  }

  lemma UnionSize(a: set<nat>, j: nat)
    ensures |a + {j}| <= |a| + 1
  {
    if j in a {
      assert a + {j} == a;
    }
  }

  lemma ParityOneMore(d: Decoder, s: nat, b: Bytes, h: Seen, spent: set<nat>)
    requires d.Valid() && |d.groups| < MAX_PENDING && Aligned(s, d.k) && s + d.k < U32 && s !in h.heads && Tracked(d, h, spent)
    ensures var (e, rec) := d.OnParityBody(s, b, 0); var g := h.(heads := h.heads + {s});
            Touches(d, e, s, {}, rec) && e.Valid() && OneMore(d, e, s, {}, rec, h, g)
  {
    hide Decoder.OnParityBody, Decoder.GroupValid, Arrived, Aligned, Bare;
    ParityTouches(d, s, b);
    HadArrived(d, h, spent, s);
    var e := d.OnParityBody(s, b, 0).0;
    SubsetSize(Had(e, s), Had(d, s));
  }

  // ---- a finished group yields nothing more ----

  lemma SpentData(d: Decoder, e: Decoder, s: nat, n: nat, rec: Option<VpnFrame>, h: Seen, spent: set<nat>)
    requires GroupSize(d.k) && |d.done| == DONE_RING && Tracked(d, h, spent) && s in spent
    requires s <= n < s + d.k && n !in h.used && Touches(d, e, s, {n - s}, rec) && (rec.Some? ==> !Bare(d, s))
    ensures rec == None
  {
    hide Aligned, SameGroup, Had, Arrived, Offsets;
    if rec.Some? {
      OffsetsSize(d.k);
      var j := rec.value.n - s;
      forall i | i in Offsets(d.k) - {j} ensures i in Had(d, s) + {n - s} { assert Supplied(d, s, {n - s}, rec, i); }
      SubsetSize(Offsets(d.k) - {j}, Had(d, s) + {n - s});
      UnionSize(Had(d, s), n - s);
      ArrivedLacks(h.used, s, d.k, n - s);
    }
  }

  lemma SpentParity(d: Decoder, e: Decoder, s: nat, rec: Option<VpnFrame>, h: Seen, spent: set<nat>)
    requires GroupSize(d.k) && |d.done| == DONE_RING && Tracked(d, h, spent) && s in spent
    requires Touches(d, e, s, {}, rec) && s !in h.heads
    ensures rec == None
  {
    hide Aligned, SameGroup, Had, Arrived, Offsets;
    if rec.Some? {
      OffsetsSize(d.k);
      var j := rec.value.n - s;
      forall i | i in Offsets(d.k) - {j} ensures i in Had(d, s) { assert Supplied(d, s, {}, rec, i); }
      SubsetSize(Offsets(d.k) - {j}, Had(d, s));
      ArrivedBound(h.used, s, d.k);
    }
  }

  // ---- the relation of the two decoders ----

  /** The group is retired, or a boundary falls into it. */
  ghost predicate Excused(a: Decoder, s: nat, bs: set<nat>) {
    s + a.k <= a.retiredBefore || Split(s, a.k, bs)
  }

  /** Other groups are finished on both sides, or the same. */
  ghost predicate Matched(a: Decoder, b: Decoder, s: nat, sa: set<nat>, sb: set<nat>) {
    (s in sa <==> s in sb) && (s in sa || SameGroup(a, b, s))
  }

  ghost predicate AllMatched(a: Decoder, b: Decoder, sa: set<nat>, sb: set<nat>, bs: set<nat>)
    requires GroupSize(a.k)
  {
    forall s: nat :: Aligned(s, a.k) && !Excused(a, s, bs) ==> Matched(a, b, s, sa, sb)
  }

  ghost predicate SameSetup(a: Decoder, b: Decoder) {
    && a.k == b.k && a.ic == b.ic && a.fence == b.fence && a.staticSingle == b.staticSingle
    && a.cleanupBefore == b.cleanupBefore && b.retiredBefore == 0
  }

  /** One decoder: valid, tracked, with known boundaries, and retired behind the delivery. */
  ghost predicate Kept(d: Decoder, o: Order, h: Seen, spent: set<nat>, bs: set<nat>) {
    && d.Valid() && Tracked(d, h, spent) && SplitIsBare(d, bs)
    && Boundary(d.cleanupBefore, bs) && Boundary(d.retiredBefore, bs) && Boundary(d.fence.from, bs)
    && d.retiredBefore <= o.expected
  }

  ghost predicate Once(a: Decoder, b: Decoder, o: Order, h: Seen, sa: set<nat>, sb: set<nat>, bs: set<nat>) {
    && o.Valid() && GroupSize(a.k) && Kept(a, o, h, sa, bs) && Kept(b, o, h, sb, bs)
    && SameSetup(a, b) && AllMatched(a, b, sa, sb, bs)
  }

  lemma OnceSizes(a: Decoder, b: Decoder, o: Order, h: Seen, sa: set<nat>, sb: set<nat>, bs: set<nat>)
    requires Once(a, b, o, h, sa, sb, bs)
    ensures a.Valid() && b.Valid() && o.Valid() && WindowSize(o.size) && GroupSize(a.k) && |a.done| == DONE_RING && |b.done| == DONE_RING
    ensures SameSetup(a, b) && a.retiredBefore <= o.expected && Tracked(a, h, sa) && Tracked(b, h, sb)
  {
    hide AllMatched, Tracked, SplitIsBare;
  }

  lemma KeptTouched(d: Decoder, e: Decoder, o: Order, p: Order, s: nat, fed: set<nat>, rec: Option<VpnFrame>,
                    h: Seen, g: Seen, spent: set<nat>, bs: set<nat>)
    requires Kept(d, o, h, spent, bs) && Touches(d, e, s, fed, rec) && e.Valid() && OneMore(d, e, s, fed, rec, h, g)
    requires o.expected <= p.expected && (Split(s, d.k, bs) ==> Bare(e, s))
    ensures Kept(e, p, g, Finished(d, e, s, spent), bs)
  {
    hide Decoder.Valid, Tracked, OneMore, Split, Finished, Supplied, Had;
    ValidSize(d);
    TouchTracks(d, e, s, fed, rec, h, g, spent);
    forall t | t in e.groups && Split(t, e.k, bs) ensures Bare(e, t) {
      assert t != s ==> SameGroup(d, e, t);
    }
  }

  /** Both sides after work on the same group. */
  lemma OnceTouched(a: Decoder, b: Decoder, o: Order, c: Decoder, d: Decoder, p: Order, s: nat, fed: set<nat>,
                    ra: Option<VpnFrame>, rb: Option<VpnFrame>, h: Seen, g: Seen, sa: set<nat>, sb: set<nat>, bs: set<nat>)
    requires Once(a, b, o, h, sa, sb, bs) && p.Valid() && o.expected <= p.expected && c.Valid() && d.Valid()
    requires Touches(a, c, s, fed, ra) && OneMore(a, c, s, fed, ra, h, g)
    requires Touches(b, d, s, fed, rb) && OneMore(b, d, s, fed, rb, h, g)
    requires Split(s, a.k, bs) ==> Bare(c, s) && Bare(d, s)
    requires !Excused(a, s, bs) ==> Matched(c, d, s, Finished(a, c, s, sa), Finished(b, d, s, sb))
    ensures Once(c, d, p, g, Finished(a, c, s, sa), Finished(b, d, s, sb), bs)
  {
    hide Decoder.Valid, Tracked, OneMore, Split, Bare, Kept, Reorder<VpnFrame>.Valid, Had, Supplied, Aligned;
    KeptTouched(a, c, o, p, s, fed, ra, h, g, sa, bs);
    KeptTouched(b, d, o, p, s, fed, rb, h, g, sb, bs);
    var sc, sd := Finished(a, c, s, sa), Finished(b, d, s, sb);
    forall t: nat | Aligned(t, c.k) && !Excused(c, t, bs) ensures Matched(c, d, t, sc, sd) {
      if t != s {
        assert Matched(a, b, t, sa, sb);
        assert SameGroup(a, c, t) && SameGroup(b, d, t);
      }
    }
  }

  // ---- data ----

  /** A group that is not excused lies above what is retired. */
  lemma NotRetired(a: Decoder, s: nat, n: nat, bs: set<nat>)
    requires Boundary(a.retiredBefore, bs) && !Excused(a, s, bs) && s <= n
    ensures !a.Retired(n)
  {
    if a.retiredBefore != 0 {
      assert !Divides(a.retiredBefore, s, a.k);
    }
  }

  lemma NotDone(d: Decoder, h: Seen, spent: set<nat>, s: nat)
    requires GroupSize(d.k) && |d.done| == DONE_RING && Tracked(d, h, spent) && Aligned(s, d.k) && s !in spent
    ensures !d.IsDone(s)
  {
    hide Aligned, Held, Total, Arrived, Had, Bare;
  }

  lemma SplitIsBareAt(a: Decoder, b: Decoder, o: Order, h: Seen, sa: set<nat>, sb: set<nat>, bs: set<nat>, s: nat)
    requires Once(a, b, o, h, sa, sb, bs) && Split(s, a.k, bs)
    ensures Bare(a, s) && Bare(b, s)
  {
    hide Split, AllMatched, Decoder.Valid, Tracked;
  }

  /** A data frame the decoder works on: what is asked of the two results. */
  ghost predicate SameWork(a: Decoder, b: Decoder, c: Decoder, d: Decoder, s: nat, sa: set<nat>, sb: set<nat>, bs: set<nat>) {
    && (Split(s, a.k, bs) ==> Bare(c, s) && Bare(d, s))
    && (!Excused(a, s, bs) ==> Matched(c, d, s, Finished(a, c, s, sa), Finished(b, d, s, sb)))
  }

  /** n is decoded by both. */
  ghost predicate Decoding(a: Decoder, b: Decoder, n: nat, data: Bytes, h: Seen) {
    && GroupSize(a.k) && Numbered(DataIn(n, data), a.k) && Roomy(a, b) && n !in h.used
    && data != [] && !a.staticSingle && !a.fence.Bypass(n)
  }

  lemma SplitData(a: Decoder, b: Decoder, o: Order, n: nat, data: Bytes, h: Seen, sa: set<nat>, sb: set<nat>, bs: set<nat>)
    requires Once(a, b, o, h, sa, sb, bs) && Decoding(a, b, n, data, h) && Split(GroupStart(n, a.k), a.k, bs)
    requires |a.done| == DONE_RING && |b.done| == DONE_RING && a.k == b.k
    ensures var (c, ra) := a.OnData(n, data, o.expected); var (d, rb) := b.OnData(n, data, 0);
            ra == rb == None && SameWork(a, b, c, d, GroupStart(n, a.k), sa, sb, bs)
  {
    hide Once, Decoder.OnData, Split, Bare, GroupStart, Decoder.Valid, Aligned;
    OnceSizes(a, b, o, h, sa, sb, bs);
    SplitIsBareAt(a, b, o, h, sa, sb, bs, GroupStart(n, a.k));
    BareData(a, n, data, o.expected);
    BareData(b, n, data, 0);
  }

  lemma RetiredData(a: Decoder, b: Decoder, o: Order, n: nat, data: Bytes, h: Seen, sa: set<nat>, sb: set<nat>, bs: set<nat>)
    requires Once(a, b, o, h, sa, sb, bs) && Decoding(a, b, n, data, h) && GroupStart(n, a.k) + a.k <= a.retiredBefore
    requires !Split(GroupStart(n, a.k), a.k, bs) && |a.done| == DONE_RING && |b.done| == DONE_RING && a.k == b.k && WindowSize(o.size)
    ensures var (c, ra) := a.OnData(n, data, o.expected); var (d, rb) := b.OnData(n, data, 0); var f := VpnFrame(n, data);
            InsertPair(o, f, ra) == InsertPair(o, f, rb) && SameWork(a, b, c, d, GroupStart(n, a.k), sa, sb, bs)
  {
    hide Once, Decoder.OnData, Split, Bare, GroupStart, Decoder.Valid, Aligned, InsertPair, Tracked, Touches, OneMore;
    OnceSizes(a, b, o, h, sa, sb, bs);
    var s, f := GroupStart(n, a.k), VpnFrame(n, data);
    DataOneMore(a, n, data, o.expected, h, sa);
    DataOneMore(b, n, data, 0, h, sb);
    var (c, ra) := a.OnData(n, data, o.expected);
    var (d, rb) := b.OnData(n, data, 0);
    TouchesSize(a, c, s, {n - s}, ra);
    TouchesSize(b, d, s, {n - s}, rb);
    AlignedPositive(s, a.k);
    PairCovered(o, f, ra);
    PairCovered(o, f, rb);
  }

  lemma SpentAgain(a: Decoder, b: Decoder, o: Order, n: nat, data: Bytes, h: Seen, sa: set<nat>, sb: set<nat>, bs: set<nat>)
    requires Once(a, b, o, h, sa, sb, bs) && Decoding(a, b, n, data, h) && !Excused(a, GroupStart(n, a.k), bs)
    requires GroupStart(n, a.k) in sa && |a.done| == DONE_RING && |b.done| == DONE_RING && a.k == b.k
    ensures var (c, ra) := a.OnData(n, data, o.expected); var (d, rb) := b.OnData(n, data, 0);
            ra == rb == None && SameWork(a, b, c, d, GroupStart(n, a.k), sa, sb, bs)
  {
    hide Once, Decoder.OnData, Split, Bare, GroupStart, Decoder.Valid, Aligned, Tracked, Touches, OneMore;
    OnceSizes(a, b, o, h, sa, sb, bs);
    var s := GroupStart(n, a.k);
    MatchedAt(a, b, o, h, sa, sb, bs, s);
    DataOneMore(a, n, data, o.expected, h, sa);
    DataOneMore(b, n, data, 0, h, sb);
    DataKeepsParity(a, n, data, o.expected);
    DataKeepsParity(b, n, data, 0);
    SpentData(a, a.OnData(n, data, o.expected).0, s, n, a.OnData(n, data, o.expected).1, h, sa);
    SpentData(b, b.OnData(n, data, 0).0, s, n, b.OnData(n, data, 0).1, h, sb);
  }

  lemma MatchedAt(a: Decoder, b: Decoder, o: Order, h: Seen, sa: set<nat>, sb: set<nat>, bs: set<nat>, s: nat)
    requires Once(a, b, o, h, sa, sb, bs) && Aligned(s, a.k) && !Excused(a, s, bs)
    ensures Matched(a, b, s, sa, sb) && Boundary(a.retiredBefore, bs)
  {
    hide Aligned, Tracked, SplitIsBare, Decoder.Valid, Split, Matched;
  }

  /** A group neither side has finished: the same happens to it. */
  lemma LiveData(a: Decoder, b: Decoder, o: Order, n: nat, data: Bytes, h: Seen, sa: set<nat>, sb: set<nat>, bs: set<nat>)
    requires Once(a, b, o, h, sa, sb, bs) && Decoding(a, b, n, data, h) && !Excused(a, GroupStart(n, a.k), bs)
    requires GroupStart(n, a.k) !in sa && |a.done| == DONE_RING && |b.done| == DONE_RING && a.k == b.k
    ensures var (c, ra) := a.OnData(n, data, o.expected); var (d, rb) := b.OnData(n, data, 0);
            ra == rb && SameWork(a, b, c, d, GroupStart(n, a.k), sa, sb, bs)
  {
    hide Once, Decoder.OnData, Split, Bare, GroupStart, Decoder.Valid, Aligned, Tracked, Touches, SameGroup, Decoder.AddMember;
    hide Decoder.WithGroup, Excused;
    OnceSizes(a, b, o, h, sa, sb, bs);
    var s := GroupStart(n, a.k);
    MatchedAt(a, b, o, h, sa, sb, bs, s);
    NotRetired(a, s, n, bs);
    NotDone(a, h, sa, s);
    NotDone(b, h, sb, s);
    OnDataTouches(a, n, data, o.expected);
    OnDataTouches(b, n, data, 0);
    SameData(a, b, s, n - s, data);
    WithGroupTouches(a, s);
    WithGroupTouches(b, s);
    PendingOrDone(a.WithGroup(s), s, n - s, data);
    PendingOrDone(b.WithGroup(s), s, n - s, data);
    FinishTogether(a, b, a.OnData(n, data, o.expected).0, b.OnData(n, data, 0).0, s, {n - s}, a.OnData(n, data, o.expected).1, sa, sb);
    assert !Split(s, a.k, bs) by { NotSplit(a, s, bs); }
  }

  lemma NotSplit(a: Decoder, s: nat, bs: set<nat>)
    requires !Excused(a, s, bs)
    ensures !Split(s, a.k, bs)
  {
  }

  lemma FinishTogether(a: Decoder, b: Decoder, c: Decoder, d: Decoder, s: nat, fed: set<nat>, rec: Option<VpnFrame>,
                       sa: set<nat>, sb: set<nat>)
    requires Touches(a, c, s, fed, rec) && Touches(b, d, s, fed, rec) && SameGroup(c, d, s) && s !in sa && s !in sb
    requires |c.done| == DONE_RING && |d.done| == DONE_RING && !a.IsDone(s) && !b.IsDone(s)
    requires (s in c.groups || c.IsDone(s)) && (s in d.groups || d.IsDone(s))
    ensures Matched(c, d, s, Finished(a, c, s, sa), Finished(b, d, s, sb))
  {
    hide Supplied, Had;
  }

  lemma DecodedOnce(a: Decoder, b: Decoder, o: Order, n: nat, data: Bytes, h: Seen, sa: set<nat>, sb: set<nat>, bs: set<nat>)
    returns (sc: set<nat>, sd: set<nat>)
    requires Once(a, b, o, h, sa, sb, bs) && Decoding(a, b, n, data, h)
    requires |a.done| == DONE_RING && |b.done| == DONE_RING && a.k == b.k && WindowSize(o.size)
    ensures var (c, ra) := a.OnData(n, data, o.expected); var (d, rb) := b.OnData(n, data, 0); var f := VpnFrame(n, data);
            && InsertPair(o, f, ra) == InsertPair(o, f, rb)
            && Once(c, d, InsertPair(o, f, ra).0, h.(used := h.used + {n}), sc, sd, bs)
  {
    hide Once, Decoder.OnData, Split, Bare, GroupStart, Decoder.Valid, Aligned, Tracked, Touches, InsertPair, OneMore, Onward;
    hide Finished, Matched, Excused;
    OnceSizes(a, b, o, h, sa, sb, bs);
    var s, f := GroupStart(n, a.k), VpnFrame(n, data);
    if Split(s, a.k, bs) {
      SplitData(a, b, o, n, data, h, sa, sb, bs);
    } else if s + a.k <= a.retiredBefore {
      RetiredData(a, b, o, n, data, h, sa, sb, bs);
    } else {
      assert !Excused(a, s, bs) by { Unexcused(a, s, bs); }
      if s in sa {
        SpentAgain(a, b, o, n, data, h, sa, sb, bs);
      } else {
        LiveData(a, b, o, n, data, h, sa, sb, bs);
      }
    }
    DataOneMore(a, n, data, o.expected, h, sa);
    DataOneMore(b, n, data, 0, h, sb);
    var (c, ra) := a.OnData(n, data, o.expected);
    var (d, rb) := b.OnData(n, data, 0);
    TouchesSize(a, c, s, {n - s}, ra);
    AlignedPositive(s, a.k);
    RetiredGroups.PairMovesOn(o, f, ra);
    var p := InsertPair(o, f, ra).0;
    assert o.expected <= p.expected by { Forward(o, p); }
    OnceTouched(a, b, o, c, d, p, s, {n - s}, ra, rb, h, h.(used := h.used + {n}), sa, sb, bs);
    sc, sd := Finished(a, c, s, sa), Finished(b, d, s, sb);
  }

  lemma Unexcused(a: Decoder, s: nat, bs: set<nat>)
    requires !Split(s, a.k, bs) && s + a.k > a.retiredBefore
    ensures !Excused(a, s, bs)
  {
  }

  lemma Forward(o: Order, p: Order)
    requires Onward(o, p)
    ensures o.expected <= p.expected
  {
  }

  // ---- parities ----

  /** A parity body of group s; neither side is told the progress here. */
  ghost predicate Checking(a: Decoder, b: Decoder, s: nat, h: Seen, bs: set<nat>) {
    GroupSize(a.k) && Aligned(s, a.k) && s + a.k <= LAST_ORDERED + 1 && !Split(s, a.k, bs) && Roomy(a, b) && s !in h.heads
  }

  lemma RetiredBody(a: Decoder, b: Decoder, o: Order, s: nat, body: Bytes, h: Seen, sa: set<nat>, sb: set<nat>, bs: set<nat>)
    requires Once(a, b, o, h, sa, sb, bs) && Checking(a, b, s, h, bs) && s + a.k <= a.retiredBefore
    requires |a.done| == DONE_RING && |b.done| == DONE_RING && a.k == b.k && WindowSize(o.size)
    ensures var (c, ra) := a.OnParityBody(s, body, 0); var (d, rb) := b.OnParityBody(s, body, 0);
            InsertSome(o, ra) == InsertSome(o, rb) && SameWork(a, b, c, d, s, sa, sb, bs)
  {
    hide Once, Decoder.OnParityBody, Split, Bare, Decoder.Valid, Aligned, InsertSome, Tracked, Touches, OneMore;
    OnceSizes(a, b, o, h, sa, sb, bs);
    ParityOneMore(a, s, body, h, sa);
    ParityOneMore(b, s, body, h, sb);
    var (c, ra) := a.OnParityBody(s, body, 0);
    var (d, rb) := b.OnParityBody(s, body, 0);
    TouchesSize(a, c, s, {}, ra);
    TouchesSize(b, d, s, {}, rb);
    AlignedPositive(s, a.k);
    CoveredRec(o, s, a.k, ra);
    CoveredRec(o, s, a.k, rb);
  }

  lemma SpentBody(a: Decoder, b: Decoder, o: Order, s: nat, body: Bytes, h: Seen, sa: set<nat>, sb: set<nat>, bs: set<nat>)
    requires Once(a, b, o, h, sa, sb, bs) && Checking(a, b, s, h, bs) && !Excused(a, s, bs) && s in sa
    requires |a.done| == DONE_RING && |b.done| == DONE_RING && a.k == b.k
    ensures var (c, ra) := a.OnParityBody(s, body, 0); var (d, rb) := b.OnParityBody(s, body, 0);
            ra == rb == None && SameWork(a, b, c, d, s, sa, sb, bs)
  {
    hide Once, Decoder.OnParityBody, Split, Bare, Decoder.Valid, Aligned, Tracked, Touches, OneMore;
    OnceSizes(a, b, o, h, sa, sb, bs);
    MatchedAt(a, b, o, h, sa, sb, bs, s);
    ParityOneMore(a, s, body, h, sa);
    ParityOneMore(b, s, body, h, sb);
    SpentParity(a, a.OnParityBody(s, body, 0).0, s, a.OnParityBody(s, body, 0).1, h, sa);
    SpentParity(b, b.OnParityBody(s, body, 0).0, s, b.OnParityBody(s, body, 0).1, h, sb);
  }

  lemma LiveBody(a: Decoder, b: Decoder, o: Order, s: nat, body: Bytes, h: Seen, sa: set<nat>, sb: set<nat>, bs: set<nat>)
    requires Once(a, b, o, h, sa, sb, bs) && Checking(a, b, s, h, bs) && !Excused(a, s, bs) && s !in sa
    requires |a.done| == DONE_RING && |b.done| == DONE_RING && a.k == b.k
    ensures var (c, ra) := a.OnParityBody(s, body, 0); var (d, rb) := b.OnParityBody(s, body, 0);
            ra == rb && SameWork(a, b, c, d, s, sa, sb, bs)
  {
    hide Once, Decoder.OnParityBody, Split, Bare, Decoder.Valid, Aligned, Tracked, SameGroup, Excused;
    OnceSizes(a, b, o, h, sa, sb, bs);
    MatchedAt(a, b, o, h, sa, sb, bs, s);
    NotRetired(a, s, s, bs);
    NotDone(a, h, sa, s);
    NotDone(b, h, sb, s);
    SameParity(a, b, s, body);
    ParityFinishes(a, s, body);
    ParityFinishes(b, s, body);
  }

  lemma BodyOnce(a: Decoder, b: Decoder, o: Order, s: nat, body: Bytes, h: Seen, sa: set<nat>, sb: set<nat>, bs: set<nat>)
    returns (sc: set<nat>, sd: set<nat>)
    requires Once(a, b, o, h, sa, sb, bs) && Checking(a, b, s, h, bs)
    requires |a.done| == DONE_RING && |b.done| == DONE_RING && a.k == b.k && WindowSize(o.size)
    ensures var (c, ra) := a.OnParityBody(s, body, 0); var (d, rb) := b.OnParityBody(s, body, 0); var p := InsertSome(o, ra).0;
            && InsertSome(o, ra) == InsertSome(o, rb) && o.expected <= p.expected
            && Once(c, d, p, h.(heads := h.heads + {s}), sc, sd, bs)
  {
    hide Once, Decoder.OnParityBody, Split, Bare, Decoder.Valid, Aligned, Tracked, Touches, InsertSome, OneMore, Onward;
    hide Finished, Matched, Excused;
    OnceSizes(a, b, o, h, sa, sb, bs);
    if s + a.k <= a.retiredBefore {
      RetiredBody(a, b, o, s, body, h, sa, sb, bs);
    } else {
      assert !Excused(a, s, bs) by { Unexcused(a, s, bs); }
      if s in sa {
        SpentBody(a, b, o, s, body, h, sa, sb, bs);
      } else {
        LiveBody(a, b, o, s, body, h, sa, sb, bs);
      }
    }
    ParityOneMore(a, s, body, h, sa);
    ParityOneMore(b, s, body, h, sb);
    var (c, ra) := a.OnParityBody(s, body, 0);
    var (d, rb) := b.OnParityBody(s, body, 0);
    TouchesSize(a, c, s, {}, ra);
    AlignedPositive(s, a.k);
    SomeMovesOn(o, ra);
    var p := InsertSome(o, ra).0;
    OnceTouched(a, b, o, c, d, p, s, {}, ra, rb, h, h.(heads := h.heads + {s}), sa, sb, bs);
    sc, sd := Finished(a, c, s, sa), Finished(b, d, s, sb);
  }

  lemma SomeMovesOn(o: Order, rec: Option<VpnFrame>)
    requires o.Valid() && (rec.Some? ==> 0 < rec.value.n <= LAST_ORDERED)
    ensures InsertSome(o, rec).0.Valid() && o.expected <= InsertSome(o, rec).0.expected
  {
    hide Reorder<VpnFrame>.Insert;
    if rec.Some? {
      InsertOnward(o, rec.value);
    }
  }

  // ---- retiring, moving on, controls ----

  lemma OnceRetired(a: Decoder, b: Decoder, o: Order, progress: nat, h: Seen, sa: set<nat>, sb: set<nat>, bs: set<nat>)
    requires Once(a, b, o, h, sa, sb, bs) && progress <= o.expected
    ensures Once(a.Retire(progress), b, o, h, sa, sb, bs) && |a.Retire(progress).groups| <= |a.groups|
  {
    hide Tracked, Aligned, Split, Decoder.Valid, Decoder.Retire, Reorder<VpnFrame>.Valid;
    assert GroupSize(a.k) && |a.done| == DONE_RING by { ValidSizes(a); }
    RetireShape(a, progress);
    var e := a.Retire(progress);
    ShrinkTracks(a, e, h, h, sa);
    forall s: nat | Aligned(s, e.k) && !Excused(e, s, bs) ensures Matched(e, b, s, sa, sb) {
      if e != a {
        NotRetired(e, s, s, bs);
        assert a.retiredBefore < e.retiredBefore <= s;
      }
      assert Matched(a, b, s, sa, sb);
    }
  }

  lemma OnceOnward(a: Decoder, b: Decoder, o: Order, p: Order, h: Seen, g: Seen, sa: set<nat>, sb: set<nat>, bs: set<nat>)
    requires Once(a, b, o, h, sa, sb, bs) && p.Valid() && o.expected <= p.expected && h.used <= g.used && h.heads <= g.heads
    ensures Once(a, b, p, g, sa, sb, bs)
  {
    hide Tracked, AllMatched, Decoder.GroupValid, Reorder<VpnFrame>.Valid;
    ShrinkTracks(a, a, h, g, sa);
    ShrinkTracks(b, b, h, g, sb);
  }

  lemma WindowOnce(d: Decoder, o: Order, f: Fence, boundary: nat, h: Seen, spent: set<nat>, bs: set<nat>)
    requires Kept(d, o, h, spent, bs) && f.generation < U64 && f.from < U32 && f.until < U32
    requires Boundary(f.from, bs) && Boundary(boundary, bs)
    ensures Kept(d.(fence := f, cleanupBefore := boundary), o, h, spent, bs)
  {
    hide Tracked, Aligned, Split;
    var e := d.(fence := f, cleanupBefore := boundary);
    assert forall s :: s in e.groups ==> d.GroupValid(s, d.groups[s]);
    ShrinkTracks(d, e, h, h, spent);
  }

  lemma DropOnce(d: Decoder, o: Order, from: nat, until: nat, h: Seen, spent: set<nat>, bs: set<nat>)
    requires Kept(d, o, h, spent, bs)
    ensures Kept(d.DropRange(from, until), o, h, spent, bs)
  {
    hide Tracked, Aligned, Split, Decoder.GroupValid;
    DropRangeValid(d, from, until);
    ShrinkTracks(d, d.DropRange(from, until), h, h, spent);
  }

  lemma DropMatched(a: Decoder, b: Decoder, from: nat, until: nat, sa: set<nat>, sb: set<nat>, bs: set<nat>)
    requires GroupSize(a.k) && AllMatched(a, b, sa, sb, bs)
    ensures AllMatched(a.DropRange(from, until), b.DropRange(from, until), sa, sb, bs)
  {
    hide Aligned, Split;
    var c, d := a.DropRange(from, until), b.DropRange(from, until);
    forall s: nat | Aligned(s, c.k) && !Excused(c, s, bs) ensures Matched(c, d, s, sa, sb) {
      assert Matched(a, b, s, sa, sb);
    }
  }

  lemma WindowMatched(a: Decoder, b: Decoder, f: Fence, boundary: nat, sa: set<nat>, sb: set<nat>, bs: set<nat>)
    requires GroupSize(a.k) && AllMatched(a, b, sa, sb, bs)
    ensures AllMatched(a.(fence := f, cleanupBefore := boundary), b.(fence := f, cleanupBefore := boundary), sa, sb, bs)
  {
    hide Aligned, Split;
    var c, d := a.(fence := f, cleanupBefore := boundary), b.(fence := f, cleanupBefore := boundary);
    forall s: nat | Aligned(s, c.k) && !Excused(c, s, bs) ensures Matched(c, d, s, sa, sb) {
      assert Matched(a, b, s, sa, sb);
    }
  }

  lemma ModeOnce(a: Decoder, b: Decoder, o: Order, c: ModeControl, h: Seen, sa: set<nat>, sb: set<nat>, bs: set<nat>)
    requires Once(a, b, o, h, sa, sb, bs) && (c.op == Suspend ==> c.boundary in bs)
    ensures Once(a.OnMode(c, o.expected), b.OnMode(c, 0), o, h, sa, sb, bs)
  {
    hide Decoder.DropRange, Decoder.Retire, Tracked, SplitIsBare, AllMatched, Decoder.GroupValid;
    if c.Valid() && c.generation > a.fence.generation {
      var f := a.fence.After(c);
      var boundary := if f.from > a.cleanupBefore then f.from else a.cleanupBefore;
      var high := if f.from == 0 then a.cleanupBefore else boundary;
      WindowOnce(a, o, f, high, h, sa, bs);
      WindowOnce(b, o, f, high, h, sb, bs);
      WindowMatched(a, b, f, high, sa, sb, bs);
      var p, q := a.(fence := f, cleanupBefore := high), b.(fence := f, cleanupBefore := high);
      if f.from != 0 {
        var until := if f.until == 0 then U32 else f.until;
        DropOnce(p, o, f.from, until, h, sa, bs);
        DropOnce(q, o, f.from, until, h, sb, bs);
        DropMatched(p, q, f.from, until, sa, sb, bs);
        assert SameSetup(p.DropRange(f.from, until), q.DropRange(f.from, until)) by { DropSetup(p, q, f.from, until); }
        OnceRetired(p.DropRange(f.from, until), q.DropRange(f.from, until), o, o.expected, h, sa, sb, bs);
        NoProgress(q.DropRange(f.from, until));
      }
    }
  }

  lemma DropSetup(p: Decoder, q: Decoder, from: nat, until: nat)
    requires SameSetup(p, q)
    ensures SameSetup(p.DropRange(from, until), q.DropRange(from, until)) && p.DropRange(from, until).k == p.k
  {
  }

  // ---- one event ----

  lemma DataOnce(a: Decoder, b: Decoder, o: Order, n: nat, data: Bytes, h: Seen, sa: set<nat>, sb: set<nat>, bs: set<nat>)
    returns (sc: set<nat>, sd: set<nat>)
    requires Once(a, b, o, h, sa, sb, bs) && GroupSize(a.k) && Numbered(DataIn(n, data), a.k) && Roomy(a, b) && n !in h.used
    requires |a.done| == DONE_RING && |b.done| == DONE_RING && a.k == b.k && WindowSize(o.size)
    ensures var (c, ra) := a.OnData(n, data, o.expected); var (d, rb) := b.OnData(n, data, 0); var f := VpnFrame(n, data);
            && InsertPair(o, f, ra) == InsertPair(o, f, rb)
            && Once(c, d, InsertPair(o, f, ra).0, h.(used := h.used + {n}), sc, sd, bs)
  {
    hide Once, InsertPair, Decoder.AddMember, Decoder.WithGroup, Decoder.Retire, GroupStart;
    OnceSizes(a, b, o, h, sa, sb, bs);
    if data != [] && !a.staticSingle && !a.fence.Bypass(n) {
      sc, sd := DecodedOnce(a, b, o, n, data, h, sa, sb, bs);
    } else {
      var p := InsertPair(o, VpnFrame(n, data), None).0;
      RetiredGroups.PairMovesOn(o, VpnFrame(n, data), None);
      Forward(o, p);
      var g := h.(used := h.used + {n});
      OnceOnward(a, b, o, p, h, g, sa, sb, bs);
      OnceRetired(a, b, p, o.expected, g, sa, sb, bs);
      NoProgress(b);
      sc, sd := sa, sb;
    }
  }

  lemma ParityOnce(a: Decoder, b: Decoder, o: Order, body: Bytes, h: Seen, sa: set<nat>, sb: set<nat>, bs: set<nat>)
    returns (sc: set<nat>, sd: set<nat>)
    requires Once(a, b, o, h, sa, sb, bs) && GroupSize(a.k)
    requires InRange(ParityIn(body), a.k, bs) && Roomy(a, b) && Fresh(ParityIn(body), a.k, h)
    requires |a.done| == DONE_RING && |b.done| == DONE_RING && a.k == b.k && WindowSize(o.size)
    ensures var (c, ra) := a.OnParity(body, o.expected); var (d, rb) := b.OnParity(body, 0);
            InsertSome(o, ra) == InsertSome(o, rb) && Once(c, d, InsertSome(o, ra).0, Note(ParityIn(body), a.k, h), sc, sd, bs)
  {
    hide Once, Decoder.OnParityBody, Decoder.Retire, ParseHeader, InsertSome, Split;
    OnceSizes(a, b, o, h, sa, sb, bs);
    var header := ParseHeader(body, a.k);
    if a.staticSingle || header.None? {
      NothingInserted(o);
      OnceOnward(a, b, o, o, h, Note(ParityIn(body), a.k, h), sa, sb, bs);
      sc, sd := sa, sb;
    } else {
      var s := header.value;
      OnceRetired(a, b, o, o.expected, h, sa, sb, bs);
      var r := a.Retire(o.expected);
      NoProgress(b);
      OnceSizes(r, b, o, h, sa, sb, bs);
      sc, sd := BodyOnce(r, b, o, s, body, h, sa, sb, bs);
      var p := InsertSome(o, r.OnParityBody(s, body, 0).1).0;
      BodyRetires(r, s, body, o.expected);
      OnceRetired(r.OnParityBody(s, body, 0).0, b.OnParityBody(s, body, 0).0, p, o.expected, Note(ParityIn(body), a.k, h), sc, sd, bs);
    }
  }

  lemma StepOnce(r: Receiver, q: Receiver, ev: Event, h: Seen, sa: set<nat>, sb: set<nat>, bs: set<nat>)
    returns (sc: set<nat>, sd: set<nat>)
    requires Once(r.fec, q.fec, r.order, h, sa, sb, bs) && r.order == q.order && r.out == q.out
    requires r.Sane() && q.Sane() && r.fec.k == q.fec.k
    requires ev.Input? ==> InRange(ev.x, q.fec.k, bs) && Roomy(r.fec, q.fec) && Fresh(ev.x, q.fec.k, h)
    ensures var s, t := r.Next(ev, true), q.Next(ev, false);
            && s.order == t.order && s.out == t.out
            && Once(s.fec, t.fec, s.order, if ev.Input? then Note(ev.x, q.fec.k, h) else h, sc, sd, bs)
  {
    hide Once, InsertPair, Decoder.OnData, Decoder.OnParity, Decoder.OnMode, Reorder<VpnFrame>.Insert, Split, ParseHeader;
    var a, b, o := r.fec, q.fec, r.order;
    OnceSizes(a, b, o, h, sa, sb, bs);
    match ev {
      case Timeout =>
        ExpireOnward(o);
        OnceOnward(a, b, o, o.Expire().0, h, h, sa, sb, bs);
        sc, sd := sa, sb;
      case Input(x) =>
        match x {
          case DataIn(n, data) => sc, sd := DataOnce(a, b, o, n, data, h, sa, sb, bs);
          case ParityIn(body) => sc, sd := ParityOnce(a, b, o, body, h, sa, sb, bs);
          case ModeIn(c) =>
            ModeOnce(a, b, o, c, h, sa, sb, bs);
            sc, sd := sa, sb;
        }
    }
  }

  // ---- runs ----

  /** No data frame and no parity comes twice; controls may. */
  ghost predicate NoRepeats(evs: seq<Event>, k: nat)
    requires GroupSize(k)
  {
    forall i, j :: 0 <= i < j < |evs| && evs[i].Input? && evs[j].Input? ==> Different(evs[i].x, evs[j].x, k)
  }

  predicate Different(x: Input, y: Input, k: nat)
    requires GroupSize(k)
  {
    && (x.DataIn? && y.DataIn? ==> x.n != y.n)
    && (x.ParityIn? && y.ParityIn? && ParseHeader(x.b, k).Some? ==> ParseHeader(x.b, k) != ParseHeader(y.b, k))
  }

  ghost predicate AllFresh(evs: seq<Event>, k: nat, h: Seen)
    requires GroupSize(k)
  {
    forall i :: 0 <= i < |evs| && evs[i].Input? ==> Fresh(evs[i].x, k, h)
  }

  lemma StillFresh(evs: seq<Event>, k: nat, h: Seen)
    requires GroupSize(k) && evs != [] && NoRepeats(evs, k) && AllFresh(evs, k, h)
    ensures NoRepeats(evs[1..], k) && AllFresh(evs[1..], k, if evs[0].Input? then Note(evs[0].x, k, h) else h)
  {
    hide ParseHeader;
    forall i | 0 <= i < |evs[1..]| && evs[1..][i].Input?
      ensures Fresh(evs[1..][i].x, k, if evs[0].Input? then Note(evs[0].x, k, h) else h)
    {
      assert evs[1..][i] == evs[i + 1] && Fresh(evs[i + 1].x, k, h);
      assert evs[0].Input? ==> Different(evs[0].x, evs[i + 1].x, k);
    }
  }

  lemma {:induction false} RunOnce(r: Receiver, q: Receiver, evs: seq<Event>, h: Seen, sa: set<nat>, sb: set<nat>, bs: set<nat>)
    requires Once(r.fec, q.fec, r.order, h, sa, sb, bs) && r.order == q.order && r.out == q.out
    requires GroupSize(q.fec.k) && AllInRange(evs, q.fec.k, bs) && RunWith(r, q, evs, true, false)
    requires NoRepeats(evs, q.fec.k) && AllFresh(evs, q.fec.k, h)
    ensures After(r, evs, true).out == After(q, evs, false).out && After(r, evs, true).order == After(q, evs, false).order
    decreases |evs|
  {
    hide Once, Roomy, Near, InRange, Receiver.Next, Fresh, Note, NoRepeats;
    if evs != [] {
      OnceSizes(r.fec, q.fec, r.order, h, sa, sb, bs);
      var sc, sd := StepOnce(r, q, evs[0], h, sa, sb, bs);
      NextSize(q, evs[0], false);
      StillFresh(evs, q.fec.k, h);
      RunOnce(r.Next(evs[0], true), q.Next(evs[0], false), evs[1..],
              if evs[0].Input? then Note(evs[0].x, q.fec.k, h) else h, sc, sd, bs);
    }
  }

  lemma StartOnce(k: int, ic: Cipher, bs: set<nat>)
    ensures var d := NewDecoder(k, ic); Once(d, d, Empty(), Seen({}, {}), {}, {}, bs)
  {
    var d := NewDecoder(k, ic);
    forall s: nat | Aligned(s, d.k) ensures !d.IsDone(s) {
      assert d.done[s % DONE_RING] == 0;
    }
  }

  /**
   Over every run in which both decoders have room and nothing comes twice, however far ahead it is, a
   decoder that retires groups and one that never does deliver the same frames in the same order.
   */
  lemma InvisibleWithoutRepeats(k: int, ic: Cipher, evs: seq<Event>, bs: set<nat>)
    requires AllInRange(evs, ClampGroup(k), bs) && NoRepeats(evs, ClampGroup(k))
    requires RunWith(NewReceiver(k, ic), NewReceiver(k, ic), evs, true, false)
    ensures After(NewReceiver(k, ic), evs, true).out == After(NewReceiver(k, ic), evs, false).out
    ensures After(NewReceiver(k, ic), evs, true).order == After(NewReceiver(k, ic), evs, false).order
  {
    hide Once, RunWith, After, NoRepeats, AllInRange;
    StartOnce(k, ic, bs);
    RunOnce(NewReceiver(k, ic), NewReceiver(k, ic), evs, Seen({}, {}), {}, {}, bs);
  }
}
