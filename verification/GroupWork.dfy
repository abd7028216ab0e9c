/**
 What one input does to the groups of a decoder with room: it touches one group, a
 group that finishes had or got all its members, and equal groups act alike.
 */
module GroupWork {
  import opened Xor
  import opened Wire
  import opened FecControl
  import opened FecParity
  import opened FecEncoder
  import opened GroupDecoder

  /** Only the group at s is touched; a group that finishes had or got all its members. */
  ghost predicate Touches(d: Decoder, e: Decoder, s: nat, fed: set<nat>, rec: Option<VpnFrame>) {
    && e.k == d.k && e.ic == d.ic && e.fence == d.fence && e.staticSingle == d.staticSingle
    && e.cleanupBefore == d.cleanupBefore && e.retiredBefore == d.retiredBefore
    && (forall t :: t != s ==> SameGroup(d, e, t))
    && (s in e.groups ==> e.groups[s].members.Keys <= Had(d, s) + fed)
    && |d.done| == DONE_RING && (e.done == d.done || e.done == d.done[s % DONE_RING := s])
    && (rec.Some? ==> s <= rec.value.n < s + d.k)
    && (rec.Some? || e.done != d.done ==> s !in e.groups && forall j :: 0 <= j < d.k ==> Supplied(d, s, fed, rec, j))
  }

  predicate Supplied(d: Decoder, s: nat, fed: set<nat>, rec: Option<VpnFrame>, j: nat) {
    j in Had(d, s) + fed || (rec.Some? && rec.value.n == s + j)
  }

  function Had(d: Decoder, s: nat): set<nat> {
    if s in d.groups then d.groups[s].members.Keys else {}
  }

  ghost predicate SameGroup(d: Decoder, e: Decoder, s: nat) {
    (s in d.groups <==> s in e.groups) && (s in d.groups ==> d.groups[s] == e.groups[s])
  }

  lemma WithGroupTouches(d: Decoder, s: nat)
    requires d.Valid() && |d.groups| < MAX_PENDING && Aligned(s, d.k) && s < U32
    ensures var e := d.WithGroup(s);
            && e.Valid() && s in e.groups && e == d.(groups := e.groups, order := e.order)
            && e.groups[s] == (if s in d.groups then d.groups[s] else EmptyGroup)
            && forall t :: t != s ==> SameGroup(d, e, t)
  {
    WithGroupFrame(d, s);
    WithGroupValid(d, s);
    MakeRoomValid(d);
  }

  /** A group with all its members ends. */
  lemma FinishTouches(m: Decoder, s: nat)
    requires |m.done| == DONE_RING && s in m.groups && forall j :: 0 <= j < m.k ==> j in m.groups[s].members
    ensures Touches(m, m.Finish(s), s, {}, None)
  {
  }

  /** A group with one member rebuilt ends. */
  lemma RebuiltTouches(d: Decoder, s: nat, j: nat, data: Bytes, r: nat)
    requires |d.done| == DONE_RING && s in d.groups && j < d.k
    requires forall i :: 0 <= i < d.k && i != j ==> i in d.groups[s].members
    ensures var m := d.Put(s, d.groups[s].(members := d.groups[s].members[j := data]));
            Touches(d, m.Finish(s).(recovered := r), s, {}, Some(VpnFrame(s + j, data)))
  {
    var m := d.Put(s, d.groups[s].(members := d.groups[s].members[j := data]));
    var rec := Some(VpnFrame(s + j, data));
    var e := m.Finish(s).(recovered := r);
    assert forall t :: t != s ==> SameGroup(d, e, t);
    assert forall i :: 0 <= i < d.k ==> Supplied(d, s, {}, rec, i);
  }

  /** Recovery finishes a group only when every member is there or rebuilt. */
  lemma RecoverTouches(d: Decoder, s: nat)
    requires d.ValidBut(s) && MissingCount(d.groups[s].members, d.k) >= 1 && s + d.k < U32
    ensures Touches(d, d.TryRecover(s).0, s, {}, d.TryRecover(s).1)
  {
    hide Decoder.TryRecover, Decoder.Finish, Aligned, Decoder.GroupValid, Touches, MissingCount;
    if d.groups[s].parity.Some? && MissingCount(d.groups[s].members, d.k) == 1 {
      var j, data := Rebuilds(d, s);
      RebuiltTouches(d, s, j, data, d.recovered + 1);
    } else {
      Waits(d, s);
      Untouched(d, s, {});
    }
  }

  lemma Rebuilds(d: Decoder, s: nat) returns (j: nat, data: Bytes)
    requires s in d.groups && |d.done| == DONE_RING && MissingCount(d.groups[s].members, d.k) == 1 && s + d.k < U32
    requires var p := d.groups[s].parity; p.Some? && |p.value.lens| == d.k && |p.value.body| == Max(p.value.lens)
    ensures j < d.k && forall i :: 0 <= i < d.k && i != j ==> i in d.groups[s].members
    ensures var m := d.Put(s, d.groups[s].(members := d.groups[s].members[j := data]));
            d.TryRecover(s) == (m.Finish(s).(recovered := d.recovered + 1), Some(VpnFrame(s + j, data)))
  {
    hide Rebuild, MissingCount, Verdict, LastMissing, Max;
    RecoverOne(d.groups[s], d.k);
    OneMissing(d.groups[s].members, d.k);
    j, data := Verdict(d.groups[s], d.k).j, Verdict(d.groups[s], d.k).data;
  }

  lemma Waits(d: Decoder, s: nat)
    requires s in d.groups && |d.done| == DONE_RING && MissingCount(d.groups[s].members, d.k) >= 1
    requires d.groups[s].parity.None? || MissingCount(d.groups[s].members, d.k) >= 2
    ensures d.TryRecover(s) == (d, None)
  {
    hide MissingCount, Rebuild;
  }

  lemma Untouched(d: Decoder, s: nat, fed: set<nat>)
    requires |d.done| == DONE_RING
    ensures Touches(d, d, s, fed, None)
  {
  }

  /** Putting a changed group back and working on it. */
  lemma TouchesThrough(d: Decoder, m: Decoder, e: Decoder, s: nat, fed: set<nat>, rec: Option<VpnFrame>)
    requires Touches(m, e, s, {}, rec) && Had(m, s) <= Had(d, s) + fed
    requires m.k == d.k && m.ic == d.ic && m.fence == d.fence && m.staticSingle == d.staticSingle && m.done == d.done
    requires m.cleanupBefore == d.cleanupBefore && m.retiredBefore == d.retiredBefore
    requires forall t :: t != s ==> SameGroup(d, m, t)
    ensures Touches(d, e, s, fed, rec)
  {
    forall t | t != s ensures SameGroup(d, e, t) {
      assert SameGroup(d, m, t) && SameGroup(m, e, t);
    }
    if rec.Some? || e.done != d.done {
      forall j | 0 <= j < d.k ensures Supplied(d, s, fed, rec, j) {
        assert Supplied(m, s, {}, rec, j);
      }
    }
  }

  lemma AddMemberTouches(d: Decoder, s: nat, j: nat, data: Bytes)
    requires d.Valid() && s in d.groups && j < d.k && s + d.k < U32
    ensures Touches(d, d.AddMember(s, j, data).0, s, {j}, d.AddMember(s, j, data).1)
  {
    hide Decoder.TryRecover, Decoder.GroupValid, Aligned, Decoder.Finish;
    var g := d.groups[s];
    if j !in g.members {
      var h := g.(members := g.members[j := data]);
      var m := d.Put(s, h);
      assert d.GroupShape(s, h) by { ShapeOf(d, s); }
      PutValid(d, s, h);
      if MissingCount(h.members, d.k) == 0 {
        NoneMissing(h.members, d.k);
        FinishTouches(m, s);
        TouchesThrough(d, m, m.Finish(s), s, {j}, None);
      } else {
        RecoverTouches(m, s);
        TouchesThrough(d, m, m.TryRecover(s).0, s, {j}, m.TryRecover(s).1);
      }
    }
  }

  lemma ShapeOf(d: Decoder, s: nat)
    requires d.Valid() && s in d.groups
    ensures d.GroupShape(s, d.groups[s])
  {
  }

  /** A data frame the decoder works on. */
  lemma DataTouches(d: Decoder, s: nat, j: nat, data: Bytes)
    requires d.Valid() && |d.groups| < MAX_PENDING && Aligned(s, d.k) && j < d.k && s + d.k < U32
    ensures var (e, rec) := d.WithGroup(s).AddMember(s, j, data); Touches(d, e, s, {j}, rec) && e.Valid()
  {
    hide Decoder.WithGroup, Decoder.AddMember, Aligned, Decoder.Valid;
    WithGroupTouches(d, s);
    var m := d.WithGroup(s);
    AddMemberTouches(m, s, j, data);
    AddMemberValid(m, s, j, data);
    TouchesAfterCreate(d, m, m.AddMember(s, j, data).0, s, {j}, m.AddMember(s, j, data).1);
  }

  /** Creating the group first makes no difference. */
  lemma TouchesAfterCreate(d: Decoder, m: Decoder, e: Decoder, s: nat, fed: set<nat>, rec: Option<VpnFrame>)
    requires m == d.(groups := m.groups, order := m.order) && s in m.groups
    requires m.groups[s] == (if s in d.groups then d.groups[s] else EmptyGroup) && forall t :: t != s ==> SameGroup(d, m, t)
    requires Touches(m, e, s, fed, rec)
    ensures Touches(d, e, s, fed, rec)
  {
    assert Had(m, s) == Had(d, s);
    forall t | t != s ensures SameGroup(d, e, t) {
      assert SameGroup(d, m, t) && SameGroup(m, e, t);
    }
    if rec.Some? || e.done != d.done {
      forall j | 0 <= j < d.k ensures Supplied(d, s, fed, rec, j) {
        assert Supplied(m, s, fed, rec, j);
      }
    }
  }

  lemma ParityTouches(d: Decoder, s: nat, b: Bytes)
    requires d.Valid() && |d.groups| < MAX_PENDING && Aligned(s, d.k) && s + d.k < U32
    ensures var (e, rec) := d.OnParityBody(s, b, 0); Touches(d, e, s, {}, rec) && e.Valid()
  {
    hide Decoder.WithGroup, Decoder.TryRecover, Aligned, Decoder.GroupValid, ParseLengths;
    OnParityBodyValid(d, s, b, 0);
    var lens := ParseLengths(b, d.k, TagLen(d.ic));
    if !(d.Retired(s) || lens.None? || d.IsDone(s)) && !(s in d.groups && d.groups[s].parity.Some?) {
      WithGroupTouches(d, s);
      var m := d.WithGroup(s);
      var body := Open(d.ic, s, SealedBody(b, d.k, lens.value, TagLen(d.ic)));
      if body.Some? {
        StoredTouches(m, s, Parity(lens.value, body.value));
        var q := m.Put(s, m.groups[s].(parity := Some(Parity(lens.value, body.value))));
        TouchesAfterCreate(d, m, q.TryRecover(s).0, s, {}, q.TryRecover(s).1);
      } else {
        TouchesAfterCreate(d, m, m, s, {}, None);
      }
    }
  }

  lemma StoredTouches(m: Decoder, s: nat, p: Parity)
    requires m.Valid() && s in m.groups && |p.lens| == m.k && |p.body| == Max(p.lens) && s + m.k < U32
    ensures var q := m.Put(s, m.groups[s].(parity := Some(p)));
            |q.done| == DONE_RING && s in q.groups && Touches(m, q.TryRecover(s).0, s, {}, q.TryRecover(s).1)
  {
    hide Decoder.TryRecover, Aligned;
    var g := m.groups[s].(parity := Some(p));
    PutValid(m, s, g);
    var q := m.Put(s, g);
    RecoverTouches(q, s);
    TouchesThrough(m, q, q.TryRecover(s).0, s, {}, q.TryRecover(s).1);
  }

  lemma DataWork(d: Decoder, n: nat, data: Bytes, progress: nat)
    requires GroupSize(d.k) && |d.done| == DONE_RING && n > 0 && data != [] && !d.staticSingle && !d.fence.Bypass(n)
    ensures var s := GroupStart(n, d.k);
            d.OnData(n, data, progress) ==
            if d.Retired(n) || d.IsDone(s) then (d, None) else d.WithGroup(s).AddMember(s, n - s, data)
  {
    hide Decoder.WithGroup, Decoder.AddMember, GroupStart, Aligned, Decoder.IsDone;
  }

  /** A data frame outside the bypass window touches its own group at most. */
  lemma OnDataTouches(d: Decoder, n: nat, data: Bytes, progress: nat)
    requires d.Valid() && |d.groups| < MAX_PENDING && n > 0 && GroupStart(n, d.k) + d.k < U32
    requires data != [] && !d.staticSingle && !d.fence.Bypass(n)
    ensures var s := GroupStart(n, d.k); var (e, rec) := d.OnData(n, data, progress);
            Touches(d, e, s, {n - s}, rec) && e.Valid()
    ensures var s := GroupStart(n, d.k);
            !d.Retired(n) && !d.IsDone(s) ==> d.OnData(n, data, progress) == d.WithGroup(s).AddMember(s, n - s, data)
  {
    hide *;
    ValidSizes(d);
    DataWork(d, n, data, progress);
    var s := GroupStart(n, d.k);
    if d.Retired(n) || d.IsDone(s) {
      Untouched(d, s, {n - s});
    } else {
      DataTouches(d, s, n - s, data);
    }
  }

  lemma TouchesSize(d: Decoder, e: Decoder, s: nat, fed: set<nat>, rec: Option<VpnFrame>)
    requires Touches(d, e, s, fed, rec)
    ensures e.k == d.k && (rec.Some? ==> s <= rec.value.n < s + d.k)
  {
  }

  // ---- groups without a parity ----

  /** The group, if pending, has no parity yet. */
  predicate Bare(d: Decoder, s: nat) {
    s in d.groups ==> d.groups[s].parity.None?
  }

  /** A data frame leaves the parity of its group alone, and rebuilds something only if there is one. */
  lemma MemberKeepsParity(d: Decoder, s: nat, j: nat, data: Bytes)
    requires s in d.groups && |d.done| == DONE_RING
    ensures var (e, rec) := d.AddMember(s, j, data);
            && (s in e.groups ==> e.groups[s].parity == d.groups[s].parity)
            && (rec.Some? ==> d.groups[s].parity.Some?)
  {
    hide MissingCount;
  }

  lemma DataKeepsParity(d: Decoder, n: nat, data: Bytes, progress: nat)
    requires d.Valid() && |d.groups| < MAX_PENDING && n > 0 && GroupStart(n, d.k) + d.k < U32
    requires data != [] && !d.staticSingle && !d.fence.Bypass(n)
    ensures var s := GroupStart(n, d.k); var (e, rec) := d.OnData(n, data, progress);
            && (!Bare(e, s) ==> !Bare(d, s))
            && (rec.Some? ==> !Bare(d, s))
  {
    hide Touches, Decoder.OnData, Decoder.AddMember, Decoder.WithGroup, Decoder.Valid, Aligned, GroupStart;
    ValidSizes(d);
    DataWork(d, n, data, progress);
    var s := GroupStart(n, d.k);
    if !(d.Retired(n) || d.IsDone(s)) {
      WithGroupTouches(d, s);
      MemberKeepsParity(d.WithGroup(s), s, n - s, data);
    }
  }

  /** Data frames alone rebuild nothing, and leave the group without a parity. */
  lemma BareData(d: Decoder, n: nat, data: Bytes, progress: nat)
    requires d.Valid() && |d.groups| < MAX_PENDING && n > 0 && GroupStart(n, d.k) + d.k < U32
    requires data != [] && !d.staticSingle && !d.fence.Bypass(n) && Bare(d, GroupStart(n, d.k))
    ensures var (e, rec) := d.OnData(n, data, progress); rec == None && Bare(e, GroupStart(n, d.k))
  {
    hide Decoder.OnData, Bare, Decoder.Valid;
    DataKeepsParity(d, n, data, progress);
  }

  // ---- equal groups act alike ----

  lemma SameRecover(a: Decoder, b: Decoder, s: nat)
    requires a.k == b.k && s in a.groups && SameGroup(a, b, s) && |a.done| == DONE_RING && |b.done| == DONE_RING
    ensures a.TryRecover(s).1 == b.TryRecover(s).1 && SameGroup(a.TryRecover(s).0, b.TryRecover(s).0, s)
  {
    hide Verdict;
  }

  lemma SameAdd(a: Decoder, b: Decoder, s: nat, j: nat, data: Bytes)
    requires a.k == b.k && s in a.groups && SameGroup(a, b, s) && |a.done| == DONE_RING && |b.done| == DONE_RING
    ensures a.AddMember(s, j, data).1 == b.AddMember(s, j, data).1
    ensures SameGroup(a.AddMember(s, j, data).0, b.AddMember(s, j, data).0, s)
  {
    hide Decoder.TryRecover, MissingCount;
    var g := a.groups[s];
    if j !in g.members {
      var h := g.(members := g.members[j := data]);
      SameRecover(a.Put(s, h), b.Put(s, h), s);
    }
  }

  lemma SameData(a: Decoder, b: Decoder, s: nat, j: nat, data: Bytes)
    requires a.Valid() && b.Valid() && |a.groups| < MAX_PENDING && |b.groups| < MAX_PENDING
    requires a.k == b.k && SameGroup(a, b, s) && Aligned(s, a.k) && s < U32
    ensures var (ea, ra) := a.WithGroup(s).AddMember(s, j, data); var (eb, rb) := b.WithGroup(s).AddMember(s, j, data);
            ra == rb && SameGroup(ea, eb, s)
  {
    hide Decoder.WithGroup, Decoder.AddMember, Aligned, Decoder.GroupValid;
    WithGroupTouches(a, s);
    WithGroupTouches(b, s);
    SameAdd(a.WithGroup(s), b.WithGroup(s), s, j, data);
  }

  lemma SameParity(a: Decoder, b: Decoder, s: nat, body: Bytes)
    requires a.Valid() && b.Valid() && |a.groups| < MAX_PENDING && |b.groups| < MAX_PENDING
    requires a.k == b.k && a.ic == b.ic && SameGroup(a, b, s) && Aligned(s, a.k) && s < U32
    requires !a.Retired(s) && !b.Retired(s) && !a.IsDone(s) && !b.IsDone(s)
    ensures a.OnParityBody(s, body, 0).1 == b.OnParityBody(s, body, 0).1
    ensures SameGroup(a.OnParityBody(s, body, 0).0, b.OnParityBody(s, body, 0).0, s)
  {
    hide Decoder.WithGroup, Decoder.TryRecover, Aligned, ParseLengths, Decoder.GroupValid, FecParity.Open, SealedBody, Decoder.DropRange;
    var lens := ParseLengths(body, a.k, TagLen(a.ic));
    if lens.Some? && !(s in a.groups && a.groups[s].parity.Some?) {
      WithGroupTouches(a, s);
      WithGroupTouches(b, s);
      var c, d := a.WithGroup(s), b.WithGroup(s);
      var text := Open(a.ic, s, SealedBody(body, a.k, lens.value, TagLen(a.ic)));
      if text.Some? {
        var g := c.groups[s].(parity := Some(Parity(lens.value, text.value)));
        SameRecover(c.Put(s, g), d.Put(s, g), s);
      }
    }
  }

  // ---- when a group finishes ----

  /** A group that got a member is still pending or remembered as finished. */
  lemma PendingOrDone(d: Decoder, s: nat, j: nat, data: Bytes)
    requires s in d.groups && |d.done| == DONE_RING
    ensures var e := d.AddMember(s, j, data).0; |e.done| == DONE_RING && (s in e.groups || e.IsDone(s))
  {
    hide MissingCount;
  }

  /** A parity finishes a group exactly when it rebuilds a member. */
  lemma ParityFinishes(d: Decoder, s: nat, b: Bytes)
    requires d.Valid() && |d.groups| < MAX_PENDING && Aligned(s, d.k) && s + d.k < U32 && !d.IsDone(s)
    ensures var (e, rec) := d.OnParityBody(s, b, 0); rec.Some? <==> e.done != d.done
  {
    hide Decoder.WithGroup, Decoder.TryRecover, Aligned, Decoder.GroupValid, ParseLengths;
    var lens := ParseLengths(b, d.k, TagLen(d.ic));
    if !(d.Retired(s) || lens.None?) && !(s in d.groups && d.groups[s].parity.Some?) {
      WithGroupTouches(d, s);
      var m := d.WithGroup(s);
      var body := Open(d.ic, s, SealedBody(b, d.k, lens.value, TagLen(d.ic)));
      if body.Some? {
        StoredFinishes(m, s, Parity(lens.value, body.value));
      }
    }
  }

  lemma StoredFinishes(m: Decoder, s: nat, p: Parity)
    requires m.Valid() && s in m.groups && |p.lens| == m.k && |p.body| == Max(p.lens) && !m.IsDone(s)
    ensures var q := m.Put(s, m.groups[s].(parity := Some(p)));
            |q.done| == DONE_RING && s in q.groups
            && (q.TryRecover(s).1.Some? <==> q.TryRecover(s).0.Retire(0).done != m.done)
  {
    hide Rebuild, Aligned, MissingCount;
    var g := m.groups[s].(parity := Some(p));
    if MissingCount(g.members, m.k) == 1 {
      RecoverOne(g, m.k);
    }
  }
}
