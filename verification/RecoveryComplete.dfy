/**
 K-1 distinct members and the parity of a group, in any order, with duplicates
 and with other groups' traffic in between, always reconstruct the missing
 member, as long as the group is kept: not evicted, bypassed, dropped or retired.
 */
module RecoveryComplete {
  import opened Xor
  import opened Wire
  import opened FecControl
  import opened FecParity
  import opened FecEncoder
  import opened GroupDecoder
  import opened DecoderSoundness

  /** The offset in group s that a data input fills. */
  function DataOffset(x: Input, k: nat, s: nat): Option<nat>
    requires GroupSize(k)
  {
    if x.DataIn? && x.n > 0 && GroupStart(x.n, k) == s then Some(x.n - s) else None
  }

  predicate ParityFor(x: Input, k: nat, s: nat)
    requires GroupSize(k)
  {
    x.ParityIn? && ParseHeader(x.b, k) == Some(s)
  }

  /** The step does not take the group away: its own inputs are let in, others leave it pending. */
  predicate Keeps(d: Decoder, x: Input, expected: nat, s: nat)
    requires GroupSize(d.k) && |d.done| == DONE_RING
  {
    if DataOffset(x, d.k, s).Some? then
      !d.staticSingle && !d.fence.Bypass(x.n) && !d.Retired(x.n) && !d.IsDone(s)
    else if ParityFor(x, d.k, s) then
      var r := d.Retire(expected);
      && !d.staticSingle && !r.Retired(s) && !r.IsDone(s)
      && (s in d.groups ==> s in r.groups)
    else s in d.groups ==> s in Step(d, x, expected).0.groups
  }

  /** Kept at every step up to the one that reconstructs frame f. */
  ghost predicate KeptUntil(d: Decoder, xs: seq<(Input, nat)>, s: nat, f: VpnFrame)
    decreases |xs|
  {
    xs != [] && d.Valid() ==>
      && Keeps(d, xs[0].0, xs[0].1, s)
      && (Step(d, xs[0].0, xs[0].1).1 == Some(f) || KeptUntil(Step(d, xs[0].0, xs[0].1).0, xs[1..], s, f))
  }

  /** The offsets of group s among the inputs. */
  function Received(xs: seq<(Input, nat)>, k: nat, s: nat): set<nat>
    requires GroupSize(k)
  {
    if xs == [] then {}
    else NewOffset(xs[0].0, k, s) + Received(xs[1..], k, s)
  }

  predicate ParityReceived(xs: seq<(Input, nat)>, k: nat, s: nat)
    requires GroupSize(k)
  {
    exists i :: 0 <= i < |xs| && ParityFor(xs[i].0, k, s)
  }

  // ---- what the decoder knows about the group ----

  /** The group holds exactly the offsets r, and the parity if p. */
  predicate Holds(d: Decoder, s: nat, r: set<nat>, p: bool) {
    if r == {} && !p then s !in d.groups || d.groups[s] == EmptyGroup
    else s in d.groups && d.groups[s].members.Keys == r && d.groups[s].parity.Some? == p
  }

  function AllBut(k: nat, m: nat): set<nat> {
    Offsets(k) - {m}
  }

  lemma CountAllBut(g: Group, k: nat, m: nat)
    requires m < k && g.members.Keys <= AllBut(k, m)
    ensures MissingCount(g.members, k) >= 1
    ensures MissingCount(g.members, k) == 1 <==> g.members.Keys == AllBut(k, m)
    ensures MissingCount(g.members, k) == 1 ==> LastMissing(g.members, k) == m
  {
    SomeMissing(g.members, k, m);
    if MissingCount(g.members, k) == 1 {
      OneMissing(g.members, k);
    } else if g.members.Keys == AllBut(k, m) {
      OnlyOneMissing(g.members, k, m);
    }
  }

  lemma {:induction false} SomeMissing(g: map<nat, Bytes>, k: nat, m: nat)
    requires m < k && m !in g
    ensures MissingCount(g, k) >= 1
  {
    if m < k - 1 {
      SomeMissing(g, k - 1, m);
    }
  }

  lemma {:induction false} OnlyOneMissing(g: map<nat, Bytes>, k: nat, m: nat)
    requires forall j :: 0 <= j < k && j != m ==> j in g
    ensures MissingCount(g, k) <= 1
    ensures m >= k ==> MissingCount(g, k) == 0
  {
    if k > 0 {
      OnlyOneMissing(g, k - 1, m);
    }
  }

  /** A stored group with all members but m and the parity is rebuilt at once. */
  lemma RebuildsMissing(sent: seq<Bytes>, d: Decoder, s: nat, m: nat)
    requires Sendable(sent) && d.ValidBut(s) && GenuineGroups(sent, {}, d) && m < d.k
    requires d.groups[s].parity.Some? && d.groups[s].members.Keys == AllBut(d.k, m)
    ensures InRange(sent, d.k, s) && d.TryRecover(s).1 == Some(VpnFrame(s + m, sent[s + m - 1]))
  {
    hide Verdict, MissingCount, Decoder.Finish, Decoder.Put, Decoder.GroupValid, GenuineGroup, AllBut, Max, Aligned, Sendable;
    assert s >= 1 by { AlignedPositive(s, d.k); }
    VerdictAllBut(sent, d.k, s, d.groups[s], m);
    assert s + m < U32 by { LastOfRange(sent, d.k, s, m); }
  }

  lemma LastOfRange(sent: seq<Bytes>, k: nat, s: nat, m: nat)
    requires Sendable(sent) && InRange(sent, k, s) && m < k
    ensures s + m < U32
  {
  }

  lemma VerdictAllBut(sent: seq<Bytes>, k: nat, s: nat, g: Group, m: nat)
    requires s >= 1 && GenuineGroup(sent, {}, k, s, g) && m < k
    requires g.parity.Some? && g.members.Keys == AllBut(k, m)
    requires |g.parity.value.lens| == k && |g.parity.value.body| == Max(g.parity.value.lens)
    ensures InRange(sent, k, s) && Verdict(g, k) == Rebuilt(m, sent[s + m - 1])
  {
    hide MissingCount, LastMissing, Rebuild, Max;
    CountAllBut(g, k, m);
    RecoverOne(g, k);
    VerdictGenuine(sent, {}, k, s, g);
  }

  /** A stored group that lacks more than one member, or the parity, waits. */
  lemma WaitsForMore(d: Decoder, s: nat, m: nat)
    requires d.ValidBut(s) && m < d.k && d.groups[s].members.Keys <= AllBut(d.k, m)
    requires d.groups[s].parity.None? || d.groups[s].members.Keys != AllBut(d.k, m)
    ensures d.TryRecover(s) == (d, None)
  {
    CountAllBut(d.groups[s], d.k, m);
  }

  // ---- one step ----

  /** Steps on other groups change group s only by taking it away. */
  lemma OtherFrame(d: Decoder, x: Input, expected: nat, s: nat)
    requires d.Valid() && DataOffset(x, d.k, s).None? && !ParityFor(x, d.k, s)
    ensures var e := Step(d, x, expected).0; s in e.groups ==> s in d.groups && e.groups[s] == d.groups[s]
  {
    hide Decoder.AddMember, Decoder.WithGroup, Decoder.Retire, Decoder.DropRange, Decoder.GroupValid, Aligned, GroupStart, ParseHeader,
         Decoder.OnParityBody;
    match x
    case DataIn(n, data) =>
      if n != 0 {
        WithGroupFrame(d, GroupStart(n, d.k));
      }
    case ParityIn(b) =>
      var h := ParseHeader(b, d.k);
      if h.Some? {
        RetireValid(d, expected);
        OtherParity(d.Retire(expected), h.value, b, expected, s);
      }
    case ModeIn(c) =>
  }

  lemma OtherParity(d: Decoder, t: nat, b: Bytes, expected: nat, s: nat)
    requires d.Valid() && t != s
    ensures var e := d.OnParityBody(t, b, expected).0; s in e.groups ==> s in d.groups && e.groups[s] == d.groups[s]
  {
    hide Decoder.TryRecover, Decoder.WithGroup, Decoder.Retire, Decoder.GroupValid, Aligned, ParseLengths;
    WithGroupFrame(d, t);
  }

  /** Only the pending groups differ. */
  ghost predicate OnlyGroups(d: Decoder, e: Decoder) {
    e == d.(groups := e.groups, order := e.order)
  }

  /** A member of the group arrives. */
  lemma DataStep(sent: seq<Bytes>, d: Decoder, x: Input, expected: nat, s: nat, m: nat, r: set<nat>, p: bool)
    requires Sendable(sent) && d.Valid() && GenuineGroups(sent, {}, d) && GenuineInput(sent, {}, d.k, d.ic, x)
    requires DataOffset(x, d.k, s).Some? && Keeps(d, x, expected, s)
    requires m < d.k && x.n - s != m && Holds(d, s, r, p) && r <= AllBut(d.k, m) && (p ==> r != AllBut(d.k, m))
    ensures var res := Step(d, x, expected); var r' := r + {x.n - s};
            r' <= AllBut(d.k, m) &&
            if p && r' == AllBut(d.k, m) then InRange(sent, d.k, s) && res.1 == Some(VpnFrame(s + m, sent[s + m - 1]))
            else Holds(res.0, s, r', p) && OnlyGroups(d, res.0)
  {
    hide *;
    DataFacts(sent, d, x, s);
    var j := x.n - s;
    LetIn(d, x, expected, s);
    StaysBelow(d.k, m, r, j);
    HoldsFrom(d, s, r, p);
    WithGroupValid(d, s);
    WithGroupGenuine(sent, {}, d, s);
    var e := d.WithGroup(s);
    MemberStep(sent, e, s, j, x.data, m, r, p);
    OnlyThrough(d, e, e.AddMember(s, j, x.data).0);
  }

  lemma DataFacts(sent: seq<Bytes>, d: Decoder, x: Input, s: nat)
    requires Sendable(sent) && d.Valid() && GenuineInput(sent, {}, d.k, d.ic, x) && DataOffset(x, d.k, s).Some?
    ensures x.DataIn? && x.data != [] && s <= x.n && s < U32 && GenuineFrame(sent, VpnFrame(x.n, x.data))
    ensures GroupSize(d.k) && |d.done| == DONE_RING
  {
    hide Decoder.GroupValid, Aligned;
  }

  lemma OnlyThrough(d: Decoder, e: Decoder, f: Decoder)
    requires OnlyGroups(d, e)
    ensures OnlyGroups(e, f) ==> OnlyGroups(d, f)
  {
  }

  lemma HoldsFrom(d: Decoder, s: nat, r: set<nat>, p: bool)
    requires d.Valid() && Holds(d, s, r, p)
    ensures var e := d.WithGroup(s); s in e.groups && e.groups[s].members.Keys == r && e.groups[s].parity.Some? == p
    ensures var e := d.WithGroup(s); OnlyGroups(d, e) && e.k == d.k && |e.done| == |d.done|
  {
    hide Decoder.WithGroup, Decoder.Valid;
    WithGroupFrame(d, s);
  }

  lemma LetIn(d: Decoder, x: Input, expected: nat, s: nat)
    requires GroupSize(d.k) && |d.done| == DONE_RING && DataOffset(x, d.k, s).Some? && Keeps(d, x, expected, s) && x.data != []
    ensures Step(d, x, expected) == d.WithGroup(s).AddMember(s, x.n - s, x.data)
    ensures Aligned(s, d.k) && s <= x.n < s + d.k
  {
    hide Decoder.AddMember, Decoder.WithGroup;
  }

  lemma MemberStep(sent: seq<Bytes>, e: Decoder, s: nat, j: nat, data: Bytes, m: nat, r: set<nat>, p: bool)
    requires Sendable(sent) && e.Valid() && GenuineGroups(sent, {}, e) && GenuineFrame(sent, VpnFrame(s + j, data))
    requires s in e.groups && e.groups[s].members.Keys == r && e.groups[s].parity.Some? == p
    requires m < e.k && j < e.k && j != m && r <= AllBut(e.k, m) && (p ==> r != AllBut(e.k, m))
    ensures var res := e.AddMember(s, j, data); var r' := r + {j};
            if p && r' == AllBut(e.k, m) then InRange(sent, e.k, s) && res.1 == Some(VpnFrame(s + m, sent[s + m - 1]))
            else Holds(res.0, s, r', p) && OnlyGroups(e, res.0)
  {
    hide Decoder.TryRecover, MissingCount, Decoder.Valid, Decoder.ValidBut, GenuineGroups, AllBut;
    if j in e.groups[s].members {
      assert r + {j} == r;
    } else {
      var g' := e.groups[s].(members := e.groups[s].members[j := data]);
      var e' := e.Put(s, g');
      assert g'.members.Keys == r + {j};
      StaysBelow(e.k, m, r, j);
      MemberStored(sent, e, s, j, data);
      CountAllBut(g', e.k, m);
      if p && r + {j} == AllBut(e.k, m) {
        RebuildsMissing(sent, e', s, m);
      } else {
        WaitsForMore(e', s, m);
      }
    }
  }

  lemma StaysBelow(k: nat, m: nat, r: set<nat>, j: nat)
    requires r <= AllBut(k, m) && j < k && j != m
    ensures r + {j} <= AllBut(k, m)
  {
  }

  /** The group with one more member is sound and genuine. */
  lemma MemberStored(sent: seq<Bytes>, e: Decoder, s: nat, j: nat, data: Bytes)
    requires Sendable(sent) && e.Valid() && GenuineGroups(sent, {}, e) && GenuineFrame(sent, VpnFrame(s + j, data))
    requires s in e.groups && j < e.k
    ensures var e' := e.Put(s, e.groups[s].(members := e.groups[s].members[j := data]));
            e'.ValidBut(s) && GenuineGroups(sent, {}, e')
  {
    hide Aligned;
    var g' := e.groups[s].(members := e.groups[s].members[j := data]);
    PutValid(e, s, g');
    PutGenuine(sent, {}, e, s, g');
  }

  /** The parity of the group arrives. */
  lemma ParityStep(sent: seq<Bytes>, d: Decoder, x: Input, expected: nat, s: nat, m: nat, r: set<nat>, p: bool)
    requires Sendable(sent) && d.Valid() && GenuineGroups(sent, {}, d) && GenuineInput(sent, {}, d.k, d.ic, x)
    requires ParityFor(x, d.k, s) && Keeps(d, x, expected, s)
    requires m < d.k && Holds(d, s, r, p) && r <= AllBut(d.k, m) && (p ==> r != AllBut(d.k, m))
    ensures var res := Step(d, x, expected);
            if r == AllBut(d.k, m) then InRange(sent, d.k, s) && res.1 == Some(VpnFrame(s + m, sent[s + m - 1]))
            else Holds(res.0, s, r, true) && OnlyGroups(d.Retire(expected), res.0)
  {
    RetireValid(d, expected);
    RetireGenuine(sent, {}, d, expected);
    var e := d.Retire(expected);
    assert Holds(e, s, r, p);
    hide Decoder.Retire, Decoder.OnParityBody, Decoder.GroupValid, GenuineGroup;
    assert Step(d, x, expected) == e.OnParityBody(s, x.b, expected);
    RetireTwice(d, expected);
    ParityBodyStep(sent, e, s, expected, m, r, p);
  }

  lemma RetireTwice(d: Decoder, expected: nat)
    ensures RetireIsDone(d.Retire(expected), expected)
  {
  }

  ghost predicate RetireIsDone(e: Decoder, expected: nat) {
    forall f: Decoder ::
      f.cleanupBefore == e.cleanupBefore && f.retiredBefore == e.retiredBefore ==> f.Retire(expected) == f
  }

  lemma ParityBodyStep(sent: seq<Bytes>, e: Decoder, s: nat, expected: nat, m: nat, r: set<nat>, p: bool)
    requires Sendable(sent) && e.Valid() && GenuineGroups(sent, {}, e) && InRange(sent, e.k, s) && Aligned(s, e.k)
    requires !e.Retired(s) && !e.IsDone(s) && RetireIsDone(e, expected)
    requires m < e.k && Holds(e, s, r, p) && r <= AllBut(e.k, m) && (p ==> r != AllBut(e.k, m))
    ensures var res := e.OnParityBody(s, ParityOf(e.ic, s, Block(sent, e.k, s)), expected);
            if r == AllBut(e.k, m) then res.1 == Some(VpnFrame(s + m, sent[s + m - 1]))
            else Holds(res.0, s, r, true) && OnlyGroups(e, res.0)
  {
    hide Decoder.AcceptParity, Decoder.GroupValid, GenuineGroup, RetireIsDone, ParityOf, ParseLengths, SealedBody, Open;
    var block := Block(sent, e.k, s);
    var b := ParityOf(e.ic, s, block);
    ParityRoundTrip(e.ic, s, block);
    if !p {
      AcceptStep(sent, e, s, SealedBody(b, e.k, Lengths(block), TagLen(e.ic)), expected, m, r);
    }
  }

  lemma AcceptStep(sent: seq<Bytes>, e: Decoder, s: nat, sealed: Bytes, expected: nat, m: nat, r: set<nat>)
    requires Sendable(sent) && e.Valid() && GenuineGroups(sent, {}, e) && InRange(sent, e.k, s) && Aligned(s, e.k)
    requires RetireIsDone(e, expected)
    requires Open(e.ic, s, sealed) == Some(Body(Block(sent, e.k, s)))
    requires m < e.k && Holds(e, s, r, false) && r <= AllBut(e.k, m)
    ensures var res := e.AcceptParity(s, Lengths(Block(sent, e.k, s)), sealed, expected);
            if r == AllBut(e.k, m) then res.1 == Some(VpnFrame(s + m, sent[s + m - 1]))
            else Holds(res.0, s, r, true) && OnlyGroups(e, res.0)
  {
    hide Decoder.TryRecover, Decoder.WithGroup, Decoder.GroupValid, GenuineGroup, Decoder.Retire, Aligned;
    var block := Block(sent, e.k, s);
    WithGroupFrame(e, s);
    WithGroupValid(e, s);
    WithGroupGenuine(sent, {}, e, s);
    var f := e.WithGroup(s);
    var p := Parity(Lengths(block), Body(block));
    StoredStep(sent, f, s, p, m, r);
    assert f.groups[s].members.Keys == r;
  }

  lemma StoredGenuine(sent: seq<Bytes>, f: Decoder, s: nat, p: Parity)
    requires f.Valid() && GenuineGroups(sent, {}, f) && InRange(sent, f.k, s) && s in f.groups
    requires p == Parity(Lengths(Block(sent, f.k, s)), Body(Block(sent, f.k, s)))
    ensures var h := f.Put(s, f.groups[s].(parity := Some(p))); h.ValidBut(s) && |h.done| == DONE_RING && GenuineGroups(sent, {}, h)
  {
    hide MissingCount, Aligned;
    var g := f.groups[s].(parity := Some(p));
    BodyIsFold(Block(sent, f.k, s));
    PutGenuine(sent, {}, f, s, g);
    PutValid(f, s, g);
  }

  lemma KeepsBounds(d: Decoder, s: nat)
    requires s in d.groups && |d.done| == DONE_RING
    ensures var q := d.TryRecover(s).0; q.cleanupBefore == d.cleanupBefore && q.retiredBefore == d.retiredBefore
  {
    hide Verdict, MissingCount;
  }

  lemma StoredStep(sent: seq<Bytes>, f: Decoder, s: nat, p: Parity, m: nat, r: set<nat>)
    requires Sendable(sent) && f.Valid() && GenuineGroups(sent, {}, f) && InRange(sent, f.k, s)
    requires s in f.groups && f.groups[s].members.Keys == r
    requires p == Parity(Lengths(Block(sent, f.k, s)), Body(Block(sent, f.k, s)))
    requires m < f.k && r <= AllBut(f.k, m)
    ensures var h := f.Put(s, f.groups[s].(parity := Some(p)));
            if r == AllBut(f.k, m) then
              h.TryRecover(s).1 == Some(VpnFrame(s + m, sent[s + m - 1]))
            else h.TryRecover(s) == (h, None)
    ensures var h := f.Put(s, f.groups[s].(parity := Some(p))); var q := h.TryRecover(s).0;
            q.cleanupBefore == f.cleanupBefore && q.retiredBefore == f.retiredBefore
  {
    hide Decoder.TryRecover, Decoder.Valid, Decoder.ValidBut, GenuineGroups, Lengths, Body, AllBut;
    var g := f.groups[s].(parity := Some(p));
    StoredGenuine(sent, f, s, p);
    KeepsBounds(f.Put(s, g), s);
    if r == AllBut(f.k, m) {
      RebuildsMissing(sent, f.Put(s, g), s, m);
    } else {
      WaitsForMore(f.Put(s, g), s, m);
    }
  }

  // ---- every run ----

  /** A genuine decoder that holds offsets r of the group, and the parity if p, but not yet enough to rebuild f. */
  ghost predicate Ready(sent: seq<Bytes>, d: Decoder, s: nat, f: VpnFrame, r: set<nat>, p: bool) {
    && Sendable(sent) && d.Valid() && GenuineGroups(sent, {}, d)
    && InRange(sent, d.k, s) && s <= f.n < s + d.k && f.data == sent[f.n - 1]
    && Holds(d, s, r, p) && r <= AllBut(d.k, f.n - s) && (p ==> r != AllBut(d.k, f.n - s))
  }

  function NewOffset(x: Input, k: nat, s: nat): set<nat>
    requires GroupSize(k)
  {
    match DataOffset(x, k, s) case Some(j) => {j} case None => {}
  }

  /** Either the frame is rebuilt by this step or the bookkeeping advances. */
  ghost predicate Advanced(d: Decoder, x: Input, expected: nat, s: nat, f: VpnFrame, r: set<nat>, p: bool)
    requires d.Valid() && s <= f.n
  {
    && r <= AllBut(d.k, f.n - s)
    && if p && r == AllBut(d.k, f.n - s) then Step(d, x, expected).1 == Some(f)
       else Holds(Step(d, x, expected).0, s, r, p)
  }

  lemma AdvanceData(sent: seq<Bytes>, d: Decoder, x: Input, expected: nat, s: nat, f: VpnFrame, r: set<nat>, p: bool)
    requires Ready(sent, d, s, f, r, p) && GenuineInput(sent, {}, d.k, d.ic, x)
    requires DataOffset(x, d.k, s).Some? && x.n != f.n && Keeps(d, x, expected, s)
    ensures Advanced(d, x, expected, s, f, r + {x.n - s}, p)
  {
    hide Step, Decoder.GroupValid, GenuineGroups, Holds, AllBut, Keeps, Offsets, GenuineInput;
    DataStep(sent, d, x, expected, s, f.n - s, r, p);
  }

  lemma AdvanceParity(sent: seq<Bytes>, d: Decoder, x: Input, expected: nat, s: nat, f: VpnFrame, r: set<nat>, p: bool)
    requires Ready(sent, d, s, f, r, p) && GenuineInput(sent, {}, d.k, d.ic, x)
    requires ParityFor(x, d.k, s) && Keeps(d, x, expected, s)
    ensures Advanced(d, x, expected, s, f, r, true)
  {
    hide Step, Decoder.GroupValid, GenuineGroups, Holds, AllBut, Keeps, Offsets, GenuineInput, ParityFor;
    ParityStep(sent, d, x, expected, s, f.n - s, r, p);
  }

  /** One step towards the reconstruction. */
  lemma Advance(sent: seq<Bytes>, d: Decoder, x: Input, expected: nat, s: nat, f: VpnFrame, r: set<nat>, p: bool)
    requires Ready(sent, d, s, f, r, p) && GenuineInput(sent, {}, d.k, d.ic, x)
    requires f.n - s !in NewOffset(x, d.k, s) && Keeps(d, x, expected, s)
    ensures Advanced(d, x, expected, s, f, r + NewOffset(x, d.k, s), p || ParityFor(x, d.k, s))
  {
    hide Step, Decoder.GroupValid, GenuineGroups, Holds, AllBut, Keeps, Offsets, GenuineInput;
    if DataOffset(x, d.k, s).Some? {
      AdvanceData(sent, d, x, expected, s, f, r, p);
    } else {
      assert r + {} == r;
      if ParityFor(x, d.k, s) {
        AdvanceParity(sent, d, x, expected, s, f, r, p);
      } else {
        OtherStep(d, x, expected, s, r, p);
      }
    }
  }

  lemma OtherStep(d: Decoder, x: Input, expected: nat, s: nat, r: set<nat>, p: bool)
    requires d.Valid() && DataOffset(x, d.k, s).None? && !ParityFor(x, d.k, s)
    requires Keeps(d, x, expected, s) && Holds(d, s, r, p)
    ensures Holds(Step(d, x, expected).0, s, r, p)
  {
    OtherFrame(d, x, expected, s);
    hide Step, Decoder.Valid, DataOffset, ParityFor;
  }

  lemma StaysReady(sent: seq<Bytes>, d: Decoder, x: Input, expected: nat, s: nat, f: VpnFrame, r: set<nat>, p: bool)
    requires Ready(sent, d, s, f, r, p) && GenuineInput(sent, {}, d.k, d.ic, x)
    requires f.n - s !in NewOffset(x, d.k, s) && Keeps(d, x, expected, s)
    ensures Step(d, x, expected).1 == Some(f) ||
            Ready(sent, Step(d, x, expected).0, s, f, r + NewOffset(x, d.k, s), p || ParityFor(x, d.k, s))
  {
    hide Step, Decoder.Valid, GenuineGroups, Holds, Keeps, AllBut, GenuineInput, Sendable, ParityFor, NewOffset;
    assert GroupSize(d.k) && |d.done| == DONE_RING by { ReadyFacts(sent, d, s, f, r, p); }
    Advance(sent, d, x, expected, s, f, r, p);
    var e := Step(d, x, expected).0;
    assert e.Valid() && GenuineGroups(sent, {}, e) by { StepSound(sent, d, x, expected); }
  }

  /** One step keeps both invariants of the decoder. */
  lemma StepSound(sent: seq<Bytes>, d: Decoder, x: Input, expected: nat)
    requires Sendable(sent) && d.Valid() && GenuineGroups(sent, {}, d) && GenuineInput(sent, {}, d.k, d.ic, x)
    ensures GroupSize(d.k) && |d.done| == DONE_RING
    ensures var e := Step(d, x, expected).0; e.Valid() && GenuineGroups(sent, {}, e)
  {
    hide Step, Decoder.GroupValid, GenuineGroups;
    StepValid(d, x, expected);
    StepGenuine(sent, {}, d, x, expected);
  }

  lemma ParityInRest(xs: seq<(Input, nat)>, k: nat, s: nat)
    requires GroupSize(k) && xs != [] && ParityReceived(xs, k, s) && !ParityFor(xs[0].0, k, s)
    ensures ParityReceived(xs[1..], k, s)
  {
    var i :| 0 <= i < |xs| && ParityFor(xs[i].0, k, s);
    assert xs[1..][i - 1] == xs[i];
  }

  lemma ReadyFacts(sent: seq<Bytes>, d: Decoder, s: nat, f: VpnFrame, r: set<nat>, p: bool)
    requires Ready(sent, d, s, f, r, p)
    ensures d.Valid() && GroupSize(d.k) && |d.done| == DONE_RING && s <= f.n
    ensures f.n - s !in AllBut(d.k, f.n - s) && (p ==> r != AllBut(d.k, f.n - s))
  {
    hide Decoder.GroupValid, GenuineGroups, Holds;
  }

  ghost predicate GenuineInputs(sent: seq<Bytes>, k: nat, ic: Cipher, xs: seq<(Input, nat)>)
    requires GroupSize(k)
  {
    forall i :: 0 <= i < |xs| ==> GenuineInput(sent, {}, k, ic, xs[i].0)
  }

  lemma {:induction false} EventuallyRebuilt(
    sent: seq<Bytes>, d: Decoder, xs: seq<(Input, nat)>, e: Decoder, out: seq<VpnFrame>, s: nat, f: VpnFrame, r: set<nat>, p: bool)
    requires Ready(sent, d, s, f, r, p) && GenuineInputs(sent, d.k, d.ic, xs)
    requires Reaches(d, xs, e, out) && KeptUntil(d, xs, s, f)
    requires r + Received(xs, d.k, s) == AllBut(d.k, f.n - s) && (p || ParityReceived(xs, d.k, s))
    ensures f in out
    decreases |xs|
  {
    hide Step, Keeps, GenuineInput, Decoder.Valid, Ready, AllBut, DataOffset, ParityFor;
    ReadyFacts(sent, d, s, f, r, p);
    assert xs == [] ==> r + {} == r;
    if xs != [] {
      var x, expected := xs[0].0, xs[0].1;
      var res := Step(d, x, expected);
      StaysReady(sent, d, x, expected, s, f, r, p);
      if res.1 != Some(f) {
        assert r + Received(xs, d.k, s) == (r + NewOffset(x, d.k, s)) + Received(xs[1..], d.k, s);
        var p' := p || ParityFor(x, d.k, s);
        if !p' { ParityInRest(xs, d.k, s); }
        EventuallyRebuilt(sent, res.0, xs[1..], e, if res.1.Some? then out[1..] else out, s, f,
                          r + NewOffset(x, d.k, s), p');
      }
    }
  }

  lemma NothingYet(sent: seq<Bytes>, d: Decoder, s: nat, f: VpnFrame)
    requires Sendable(sent) && d.Valid() && GenuineGroups(sent, {}, d) && InRange(sent, d.k, s) && s !in d.groups
    requires s <= f.n < s + d.k && f.data == sent[f.n - 1]
    ensures Ready(sent, d, s, f, {}, false)
  {
    hide GenuineGroups, Sendable, Decoder.Valid;
  }

  /**
   From any state that knows nothing of the group: all members but one and the
   parity, however interleaved and repeated, reconstruct the missing payload with
   its exact bytes and length.
   */
  lemma RecoveryIsComplete(
    sent: seq<Bytes>, d: Decoder, xs: seq<(Input, nat)>, e: Decoder, out: seq<VpnFrame>, s: nat, m: nat)
    requires Sendable(sent) && d.Valid() && GenuineGroups(sent, {}, d) && GenuineInputs(sent, d.k, d.ic, xs)
    requires Reaches(d, xs, e, out)
    requires InRange(sent, d.k, s) && m < d.k && s !in d.groups
    requires KeptUntil(d, xs, s, VpnFrame(s + m, sent[s + m - 1]))
    requires Received(xs, d.k, s) == AllBut(d.k, m) && ParityReceived(xs, d.k, s)
    ensures VpnFrame(s + m, sent[s + m - 1]) in out
  {
    hide Ready, Step, Keeps, GenuineInputs, Decoder.GroupValid, AllBut, KeptUntil, Reaches, GenuineGroups, Received,
         ParityReceived, Sendable;
    var f := VpnFrame(s + m, sent[s + m - 1]);
    NothingYet(sent, d, s, f);
    assert {} + Received(xs, d.k, s) == Received(xs, d.k, s);
    EventuallyRebuilt(sent, d, xs, e, out, s, f, {}, false);
  }

  // ---- the group's own traffic never takes it away ----

  /** No control has arrived and the group is not remembered as finished. */
  predicate Quiet(d: Decoder, s: nat) {
    && |d.done| == DONE_RING && !d.IsDone(s)
    && d.fence == ActiveFence && d.cleanupBefore == 0 && d.retiredBefore == 0 && !d.staticSingle
  }

  /** The input belongs to the group and is not frame number n. */
  predicate Own(x: Input, k: nat, s: nat, n: nat)
    requires GroupSize(k)
  {
    (DataOffset(x, k, s).Some? && x.n != n) || ParityFor(x, k, s)
  }

  lemma QuietKeeps(d: Decoder, x: Input, expected: nat, s: nat, n: nat)
    requires d.Valid() && Quiet(d, s) && Own(x, d.k, s, n)
    ensures Keeps(d, x, expected, s)
  {
  }

  lemma QuietStays(d: Decoder, e: Decoder, s: nat, expected: nat)
    requires Quiet(d, s)
    ensures d.Retire(expected) == d
    ensures OnlyGroups(d, e) ==> Quiet(e, s)
  {
  }

  lemma QuietStep(sent: seq<Bytes>, d: Decoder, x: Input, expected: nat, s: nat, f: VpnFrame, r: set<nat>, p: bool)
    requires Ready(sent, d, s, f, r, p) && GenuineInput(sent, {}, d.k, d.ic, x)
    requires Quiet(d, s) && Own(x, d.k, s, f.n)
    ensures Step(d, x, expected).1 == Some(f) || Quiet(Step(d, x, expected).0, s)
  {
    hide Step, Quiet, Decoder.GroupValid, GenuineGroups, Holds, AllBut, Keeps, Offsets, GenuineInput, Decoder.Retire, OnlyGroups;
    QuietKeeps(d, x, expected, s, f.n);
    QuietStays(d, Step(d, x, expected).0, s, expected);
    if DataOffset(x, d.k, s).Some? {
      DataStep(sent, d, x, expected, s, f.n - s, r, p);
    } else {
      ParityStep(sent, d, x, expected, s, f.n - s, r, p);
    }
  }

  lemma {:induction false} OwnTrafficIsKept(
    sent: seq<Bytes>, d: Decoder, xs: seq<(Input, nat)>, s: nat, f: VpnFrame, r: set<nat>, p: bool)
    requires Ready(sent, d, s, f, r, p) && GenuineInputs(sent, d.k, d.ic, xs)
    requires Quiet(d, s) && forall i :: 0 <= i < |xs| ==> Own(xs[i].0, d.k, s, f.n)
    ensures KeptUntil(d, xs, s, f)
    decreases |xs|
  {
    hide Step, Keeps, Quiet, Decoder.GroupValid, GenuineGroups, Holds, AllBut, Offsets, GenuineInput;
    if xs != [] {
      var x, expected := xs[0].0, xs[0].1;
      QuietKeeps(d, x, expected, s, f.n);
      QuietStep(sent, d, x, expected, s, f, r, p);
      StaysReady(sent, d, x, expected, s, f, r, p);
      var res := Step(d, x, expected);
      hide Ready, Own, DataOffset, ParityFor;
      if res.1 != Some(f) {
        OwnTrafficIsKept(sent, res.0, xs[1..], s, f, r + NewOffset(x, d.k, s), p || ParityFor(x, d.k, s));
      }
    }
  }

  /**
   With no control in force, one group's frames alone, in any order and with any
   repetition, rebuild the missing one: nothing else is assumed.
   */
  lemma OwnTrafficRecovers(
    sent: seq<Bytes>, d: Decoder, xs: seq<(Input, nat)>, e: Decoder, out: seq<VpnFrame>, s: nat, m: nat)
    requires Sendable(sent) && d.Valid() && GenuineGroups(sent, {}, d) && GenuineInputs(sent, d.k, d.ic, xs)
    requires Reaches(d, xs, e, out)
    requires InRange(sent, d.k, s) && m < d.k && s !in d.groups && Quiet(d, s)
    requires forall i :: 0 <= i < |xs| ==> Own(xs[i].0, d.k, s, s + m)
    requires Received(xs, d.k, s) == AllBut(d.k, m) && ParityReceived(xs, d.k, s)
    ensures VpnFrame(s + m, sent[s + m - 1]) in out
  {
    hide Step, Keeps, GenuineInput, Decoder.GroupValid, Offsets, KeptUntil, Reaches, Received, Own, Quiet,
         Sendable, GenuineGroups, ParityReceived;
    OwnTrafficIsKept(sent, d, xs, s, VpnFrame(s + m, sent[s + m - 1]), {}, false);
    RecoveryIsComplete(sent, d, xs, e, out, s, m);
  }

  // ---- other groups' traffic, while there is room for all ----

  /** The group an input is about. */
  function About(x: Input, k: nat): Option<nat>
    requires GroupSize(k)
  {
    match x
    case DataIn(n, data) => if n > 0 then Some(GroupStart(n, k)) else None
    case ParityIn(b) => ParseHeader(b, k)
    case ModeIn(c) => None
  }

  /** Work on group t: group s stays, and only t may be new or finished. */
  ghost predicate Beside(d: Decoder, e: Decoder, t: nat, s: nat) {
    && e.fence == d.fence && e.cleanupBefore == d.cleanupBefore && e.retiredBefore == d.retiredBefore && e.staticSingle == d.staticSingle
    && |d.done| == DONE_RING && (e.done == d.done || e.done == d.done[t % DONE_RING := t])
    && (s != t && s in d.groups ==> s in e.groups)
    && e.groups.Keys <= d.groups.Keys + {t}
  }

  lemma RecoverBeside(d: Decoder, t: nat, s: nat)
    requires t in d.groups && |d.done| == DONE_RING
    ensures Beside(d, d.TryRecover(t).0, t, s)
  {
    hide Rebuild, MissingCount, Verdict;
  }

  lemma MemberBeside(d: Decoder, t: nat, j: nat, data: Bytes, s: nat)
    requires t in d.groups && |d.done| == DONE_RING
    ensures Beside(d, d.AddMember(t, j, data).0, t, s)
  {
    hide Decoder.TryRecover, MissingCount;
    if j !in d.groups[t].members {
      RecoverBeside(d.Put(t, d.groups[t].(members := d.groups[t].members[j := data])), t, s);
    }
  }

  /** There is a place for t among the groups it may share the decoder with. */
  ghost predicate Within(d: Decoder, all: set<nat>) {
    d.groups.Keys <= all && |all| <= MAX_PENDING
  }

  lemma CreateBeside(d: Decoder, t: nat, s: nat, all: set<nat>)
    requires d.Valid() && Within(d, all) && t in all
    ensures var e := d.WithGroup(t); Beside(d, e, t, s) && e.done == d.done
  {
    hide Decoder.GroupValid;
    WithGroupFrame(d, t);
    if t !in d.groups {
      SubsetSize(d.groups.Keys, all - {t});
      assert |d.groups| == |d.groups.Keys|;
      MakeRoomValid(d);
    }
  }

  lemma BesideThrough(d: Decoder, m: Decoder, e: Decoder, t: nat, s: nat)
    requires Beside(d, m, t, s) && Beside(m, e, t, s) && m.done == d.done
    ensures Beside(d, e, t, s)
  {
  }

  lemma AcceptBeside(d: Decoder, t: nat, lens: seq<nat>, sealed: Bytes, expected: nat, s: nat, all: set<nat>)
    requires d.Valid() && Within(d, all) && t in all && d.cleanupBefore == 0
    ensures Beside(d, d.AcceptParity(t, lens, sealed, expected).0, t, s)
  {
    hide Decoder.WithGroup, Decoder.TryRecover, Decoder.GroupValid, Within, Open;
    CreateBeside(d, t, s, all);
    var m := d.WithGroup(t);
    var body := Open(d.ic, t, sealed);
    if body.Some? {
      var q := m.Put(t, m.groups[t].(parity := Some(Parity(lens, body.value))));
      RecoverBeside(q, t, s);
      BesideThrough(d, q, q.TryRecover(t).0, t, s);
    }
  }

  lemma DataBeside(d: Decoder, n: nat, data: Bytes, expected: nat, s: nat, all: set<nat>)
    requires d.Valid() && Quiet(d, s) && Within(d, all) && n > 0 && GroupStart(n, d.k) in all
    ensures Beside(d, d.OnData(n, data, expected).0, GroupStart(n, d.k), s)
  {
    hide Decoder.WithGroup, Decoder.AddMember, Decoder.GroupValid, Within, Beside, GroupStart;
    var t := GroupStart(n, d.k);
    CreateBeside(d, t, s, all);
    MemberBeside(d.WithGroup(t), t, n - t, data, s);
    BesideThrough(d, d.WithGroup(t), d.WithGroup(t).AddMember(t, n - t, data).0, t, s);
    NothingBeside(d, t, s);
  }

  lemma NothingBeside(d: Decoder, t: nat, s: nat)
    requires |d.done| == DONE_RING
    ensures Beside(d, d, t, s)
  {
  }

  lemma ParityBeside(d: Decoder, b: Bytes, expected: nat, s: nat, all: set<nat>)
    requires d.Valid() && Quiet(d, s) && Within(d, all)
    requires var h := ParseHeader(b, d.k); h.Some? && h.value in all
    ensures Beside(d, d.OnParity(b, expected).0, ParseHeader(b, d.k).value, s)
  {
    hide Decoder.AcceptParity, Decoder.GroupValid, Within, Beside, ParseHeader, ParseLengths, SealedBody;
    var t := ParseHeader(b, d.k).value;
    var lens := ParseLengths(b, d.k, TagLen(d.ic));
    NothingBeside(d, t, s);
    if lens.Some? {
      AcceptBeside(d, t, lens.value, SealedBody(b, d.k, lens.value, TagLen(d.ic)), expected, s, all);
    }
  }

  /** With no control in force any input leaves the other groups alone. */
  lemma StepBeside(d: Decoder, x: Input, expected: nat, s: nat, all: set<nat>)
    requires d.Valid() && Quiet(d, s) && Within(d, all) && !x.ModeIn?
    requires var t := About(x, d.k); t.Some? ==> t.value in all
    ensures var t := About(x, d.k); var e := Step(d, x, expected).0;
            if t.None? then e == d else Beside(d, e, t.value, s)
  {
    hide Decoder.OnData, Decoder.OnParityBody, Decoder.GroupValid, Within, Beside, ParseHeader;
    match x
    case DataIn(n, data) =>
      if n > 0 {
        DataBeside(d, n, data, expected, s, all);
      } else {
        assert d.OnData(n, data, expected) == (d, None) by { NumberZero(d, data, expected); }
      }
    case ParityIn(b) =>
      if ParseHeader(b, d.k).Some? {
        ParityBeside(d, b, expected, s, all);
      }
  }

  lemma NumberZero(d: Decoder, data: Bytes, expected: nat)
    requires GroupSize(d.k) && |d.done| == DONE_RING
    ensures d.OnData(0, data, expected) == (d, None)
  {
  }

  /** No control, not the missing frame, and every group is one of all. */
  ghost predicate Plain(x: Input, k: nat, n: nat, all: set<nat>)
    requires GroupSize(k)
  {
    !x.ModeIn? && !(x.DataIn? && x.n == n) && (About(x, k).Some? ==> About(x, k).value in all)
  }

  lemma PlainStep(sent: seq<Bytes>, d: Decoder, x: Input, expected: nat, s: nat, f: VpnFrame, r: set<nat>, p: bool, all: set<nat>)
    requires Ready(sent, d, s, f, r, p) && GenuineInput(sent, {}, d.k, d.ic, x)
    requires Quiet(d, s) && Within(d, all) && Plain(x, d.k, f.n, all)
    ensures Keeps(d, x, expected, s)
    ensures Step(d, x, expected).1 == Some(f) || (Quiet(Step(d, x, expected).0, s) && Within(Step(d, x, expected).0, all))
  {
    hide Step, Decoder.GroupValid, GenuineGroups, Holds, AllBut, Offsets, GenuineInput, Decoder.Retire;
    StepBeside(d, x, expected, s, all);
    if Own(x, d.k, s, f.n) {
      QuietKeeps(d, x, expected, s, f.n);
      QuietStep(sent, d, x, expected, s, f, r, p);
    }
  }

  lemma {:induction false} PlainTrafficIsKept(
    sent: seq<Bytes>, d: Decoder, xs: seq<(Input, nat)>, s: nat, f: VpnFrame, r: set<nat>, p: bool, all: set<nat>)
    requires Ready(sent, d, s, f, r, p) && GenuineInputs(sent, d.k, d.ic, xs)
    requires Quiet(d, s) && Within(d, all) && forall i :: 0 <= i < |xs| ==> Plain(xs[i].0, d.k, f.n, all)
    ensures KeptUntil(d, xs, s, f)
    decreases |xs|
  {
    hide Step, Keeps, Quiet, Decoder.GroupValid, GenuineGroups, Holds, AllBut, Offsets, GenuineInput, Within, Plain;
    if xs != [] {
      var x, expected := xs[0].0, xs[0].1;
      PlainStep(sent, d, x, expected, s, f, r, p, all);
      assert f.n - s !in NewOffset(x, d.k, s) by { PlainOffset(x, d.k, s, f.n, all); }
      StaysReady(sent, d, x, expected, s, f, r, p);
      var res := Step(d, x, expected);
      hide Ready, DataOffset, ParityFor;
      if res.1 != Some(f) {
        PlainTrafficIsKept(sent, res.0, xs[1..], s, f, r + NewOffset(x, d.k, s), p || ParityFor(x, d.k, s), all);
      }
    }
  }

  lemma PlainOffset(x: Input, k: nat, s: nat, n: nat, all: set<nat>)
    requires GroupSize(k) && Plain(x, k, n, all) && s <= n
    ensures n - s !in NewOffset(x, k, s)
  {
  }

  /**
   With no control in force and at most 512 groups in play, those pending already and
   those the inputs are about, all members but one and the parity rebuild the missing
   one, whatever other groups' traffic comes in between.
   */
  lemma MixedTrafficRecovers(
    sent: seq<Bytes>, d: Decoder, xs: seq<(Input, nat)>, e: Decoder, out: seq<VpnFrame>, s: nat, m: nat, all: set<nat>)
    requires Sendable(sent) && d.Valid() && GenuineGroups(sent, {}, d) && GenuineInputs(sent, d.k, d.ic, xs)
    requires Reaches(d, xs, e, out)
    requires InRange(sent, d.k, s) && m < d.k && s !in d.groups && Quiet(d, s)
    requires d.groups.Keys <= all && |all| <= MAX_PENDING
    requires forall i :: 0 <= i < |xs| ==> Plain(xs[i].0, d.k, s + m, all)
    requires Received(xs, d.k, s) == AllBut(d.k, m) && ParityReceived(xs, d.k, s)
    ensures VpnFrame(s + m, sent[s + m - 1]) in out
  {
    hide Step, Keeps, GenuineInput, Decoder.GroupValid, Offsets, KeptUntil, Reaches, Received, Plain, Quiet,
         Sendable, GenuineGroups, ParityReceived;
    PlainTrafficIsKept(sent, d, xs, s, VpnFrame(s + m, sent[s + m - 1]), {}, false, all);
    RecoveryIsComplete(sent, d, xs, e, out, s, m);
  }

  /** A new decoder is such a state for every group. */
  lemma NewDecoderIsQuiet(sent: seq<Bytes>, k: int, ic: Cipher, s: nat)
    requires s >= 1
    ensures var d := NewDecoder(k, ic); d.Valid() && GenuineGroups(sent, {}, d) && Quiet(d, s) && s !in d.groups
  {
  }
}
