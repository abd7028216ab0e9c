/**
 The exact condition of end-to-end safety, at any moment of a run.

 While the open group, if it starts at 1 modulo K, has exactly one number dropped, the
 run can be continued to one in which the receiver hands a frame with a wrong payload
 to the interface: it gets every other number of the group and takes the parity for
 theirs.  At any other moment it cannot.

 The receiver of that run gets the frames of the group and its parity alone, without
 the controls that go ahead of data on a stream.  They would not save it: while a group
 is open the current control is a RESUME that lets every number of the group through,
 whatever came before (FenceProtocol.ControlSparesOpen), and SUSPEND boundaries, below
 which numbers are retired, do not lie above the group's start (Boundaries.Apart).
 */
module CorruptingLoss {
  import opened Xor
  import opened Wire
  import opened FecControl
  import opened FecParity
  import opened FecEncoder
  import Modes = SenderModes
  import opened ParityGenuine
  import opened AcceptedParities
  import opened GroupDecoder
  import opened GroupWork
  import opened DecoderSoundness
  import opened RecoveryComplete
  import opened Reorder
  import opened RxPath
  import opened EndToEnd

  function Receiver(t: Modes.Sender): Rx {
    NewRx(Some(NewDecoder(t.enc.k, t.enc.ic)))
  }

  /** Whatever arrives of the sender's run, in whatever way, only genuine frames come out. */
  ghost predicate OutputsGenuine(t: Modes.Sender) {
    forall rx, taken :: AllEmitted(t, rx) && Receiver(t).Sane() && |taken| == |RxRun(Receiver(t), rx).handed| ==>
      var out := Output(RxRun(Receiver(t), rx).handed, taken);
      forall i :: 0 <= i < |out| ==> GenuineFrame(t.sent, out[i])
  }

  lemma SafeOutputs(t: Modes.Sender)
    requires SealInv(t) && SafeLog(t) && Sendable(t.sent) && |t.sent| <= LAST_ORDERED
    ensures OutputsGenuine(t)
  {
    hide RxRun, Output, SealInv, SafeLog, AllEmitted, Inv;
    assert GroupSize(t.enc.k) by { SealedReady(t); }
    NewRxInv(t.sent, t.lost, Some(NewDecoder(t.enc.k, t.enc.ic)), t.enc.k, t.enc.ic);
    forall rx, taken | AllEmitted(t, rx) && |taken| == |RxRun(Receiver(t), rx).handed|
      ensures var out := Output(RxRun(Receiver(t), rx).handed, taken);
              forall i :: 0 <= i < |out| ==> GenuineFrame(t.sent, out[i])
    {
      RxRunInv(t, Receiver(t), rx);
      HandedGood(t.sent, t.lost, RxRun(Receiver(t), rx), taken);
    }
  }

  lemma SealedReady(s: Modes.Sender)
    requires SealInv(s)
    ensures GroupSize(s.enc.k) && s.enc.lastSeq < U32
  {
  }

  // ---- one group at the receiver ----

  lemma JoinMember(m: Decoder, p: nat, i: nat, j: nat, data: Bytes)
    requires p in m.groups && Bare(m, p) && |m.done| == DONE_RING && j < m.k && i != j
    requires i !in m.groups[p].members && j !in m.groups[p].members
    ensures m.AddMember(p, i, data) == (m.Put(p, m.groups[p].(members := m.groups[p].members[i := data])), None)
  {
    hide MissingCount;
    SomeMissing(m.groups[p].members[i := data], m.k, j);
  }

  /** What the decoder holds of group p. */
  function Kept(d: Decoder, p: nat): map<nat, Bytes> {
    if p in d.groups then d.groups[p].members else map[]
  }

  /** The decoder knows of group p only, and holds these members of it. */
  ghost predicate Holding(d: Decoder, p: nat, m: map<nat, Bytes>) {
    d.Valid() && d.groups.Keys <= {p} && Bare(d, p) && Quiet(d, p) && Kept(d, p) == m
  }

  /** A member that leaves another one absent joins its group, and nothing else happens. */
  lemma FeedMember(d: Decoder, p: nat, i: nat, j: nat, data: Bytes, expected: nat, m: map<nat, Bytes>)
    requires Holding(d, p, m) && Aligned(p, d.k) && p + d.k < U32
    requires i < d.k && j < d.k && i != j && j !in m && i !in m && data != []
    ensures var (e, rec) := d.OnData(p + i, data, expected);
            rec == None && e.k == d.k && e.ic == d.ic && Holding(e, p, m[i := data])
  {
    hide *;
    HoldingFacts(d, p, m, p + i);
    GroupStartUnique(p + i, d.k, p);
    AlignedPositive(p, d.k);
    OnDataTouches(d, p + i, data, expected);
    WithGroupTouches(d, p);
    var c := d.WithGroup(p);
    CreatedFacts(d, c, p, m);
    JoinMember(c, p, i, j, data);
    Stored(d, c, p, i, data, m);
  }

  lemma HoldingFacts(d: Decoder, p: nat, m: map<nat, Bytes>, n: nat)
    requires Holding(d, p, m)
    ensures d.Valid() && |d.groups| < MAX_PENDING && GroupSize(d.k) && |d.done| == DONE_RING && Bare(d, p)
    ensures !d.staticSingle && !d.fence.Bypass(n) && !d.Retired(n) && !d.IsDone(p)
  {
    hide Decoder.GroupValid;
    FewGroups(d, p);
  }

  lemma CreatedFacts(d: Decoder, c: Decoder, p: nat, m: map<nat, Bytes>)
    requires Holding(d, p, m) && p in c.groups && c.groups[p] == (if p in d.groups then d.groups[p] else EmptyGroup)
    requires c == d.(groups := c.groups, order := c.order)
    ensures c.groups[p].members == m && Bare(c, p) && |c.done| == DONE_RING && c.k == d.k
  {
    hide Decoder.GroupValid;
  }

  lemma FewGroups(d: Decoder, p: nat)
    requires d.groups.Keys <= {p}
    ensures |d.groups| < MAX_PENDING
  {
    SubsetSize(d.groups.Keys, {p});
    assert |d.groups| == |d.groups.Keys|;
  }

  lemma Stored(d: Decoder, c: Decoder, p: nat, i: nat, data: Bytes, m: map<nat, Bytes>)
    requires Holding(d, p, m) && c == d.(groups := c.groups, order := c.order) && p in c.groups
    requires c.groups[p] == (if p in d.groups then d.groups[p] else EmptyGroup)
    requires forall t :: t != p ==> SameGroup(d, c, t)
    requires c.Put(p, c.groups[p].(members := c.groups[p].members[i := data])).Valid()
    ensures var e := c.Put(p, c.groups[p].(members := c.groups[p].members[i := data]));
            e.k == d.k && e.ic == d.ic && Holding(e, p, m[i := data])
  {
    hide Decoder.Valid;
    forall t | t in c.groups ensures t == p {
      assert t != p ==> SameGroup(d, c, t);
    }
  }

  /** What the receiver makes of offset j from all other members and the parity over datas. */
  function Misread(p: nat, j: nat, m: map<nat, Bytes>, datas: seq<Bytes>): VpnFrame
    requires j < |datas|
  {
    VpnFrame(p + j, Rebuild(Group(m, Some(Parity(Lengths(datas), Body(datas)))), |datas|, |datas[j]|))
  }

  /** The parity of a group with all members but j rebuilds number p + j. */
  lemma FeedParity(d: Decoder, p: nat, j: nat, m: map<nat, Bytes>, datas: seq<Bytes>, expected: nat)
    requires GroupSize(d.k) && j < d.k && Holding(d, p, m) && m.Keys == AllBut(d.k, j) && Aligned(p, d.k) && p + d.k < U32
    requires |datas| == d.k && forall i :: 0 <= i < |datas| ==> 0 < |datas[i]| < U32
    ensures var b := ParityOf(d.ic, p, datas);
            ParseHeader(b, d.k) == Some(p) && |d.done| == DONE_RING && d.OnParity(b, expected).1 == Some(Misread(p, j, m, datas))
  {
    hide *;
    HoldingFacts(d, p, m, p);
    ParityRoundTrip(d.ic, p, datas);
    var b := ParityOf(d.ic, p, datas);
    PendingAll(d, p, j, m);
    ParityReaches(d, p, b, Lengths(datas), SealedBody(b, d.k, Lengths(datas), TagLen(d.ic)), Body(datas), expected);
    RebuildsOne(d, p, j, m, datas);
  }

  lemma PendingAll(d: Decoder, p: nat, j: nat, m: map<nat, Bytes>)
    requires GroupSize(d.k) && j < d.k && Holding(d, p, m) && m.Keys == AllBut(d.k, j)
    ensures p in d.groups && d.groups[p] == Group(m, None) && d.cleanupBefore == 0
  {
    hide Decoder.GroupValid, Offsets;
    var i: nat := if j == 0 then 1 else 0;
    assert i in AllBut(d.k, j);
  }

  /** Nothing stands between the parity and its group. */
  lemma ParityReaches(d: Decoder, p: nat, b: Bytes, lens: seq<nat>, sealed: Bytes, body: Bytes, expected: nat)
    requires GroupSize(d.k) && |d.done| == DONE_RING && p in d.groups && d.groups[p].parity.None? && d.cleanupBefore == 0
    requires !d.staticSingle && !d.Retired(p) && !d.IsDone(p) && ParseHeader(b, d.k) == Some(p)
    requires ParseLengths(b, d.k, TagLen(d.ic)) == Some(lens)
    requires sealed == SealedBody(b, d.k, lens, TagLen(d.ic)) && Open(d.ic, p, sealed) == Some(body)
    ensures d.OnParity(b, expected).1 == d.Put(p, d.groups[p].(parity := Some(Parity(lens, body)))).TryRecover(p).1
  {
    hide ParseHeader, ParseLengths, SealedBody, Open, Decoder.TryRecover;
  }

  lemma RebuildsOne(d: Decoder, p: nat, j: nat, m: map<nat, Bytes>, datas: seq<Bytes>)
    requires p in d.groups && d.groups[p] == Group(m, None) && |d.done| == DONE_RING && p + d.k < U32
    requires j < d.k == |datas| && m.Keys == AllBut(d.k, j)
    ensures var y := Parity(Lengths(datas), Body(datas));
            d.Put(p, d.groups[p].(parity := Some(y))).TryRecover(p).1 == Some(Misread(p, j, m, datas))
  {
    hide MissingCount, LastMissing, AllBut, Rebuild, Decoder.Finish, Lengths, Body, Max;
    var g := Group(m, Some(Parity(Lengths(datas), Body(datas))));
    CountAllBut(g, d.k, j);
    RecoverOne(g, d.k);
  }

  // ---- the payload it comes to ----

  /** The datas of the parity are the members, in order, and one frame more. */
  ghost predicate Shifted(m: map<nat, Bytes>, datas: seq<Bytes>, j: nat) {
    && j < |datas| && (forall i :: i in m <==> 0 <= i < |datas| && i != j)
    && forall i :: 0 <= i < |datas| - 1 ==> datas[i] == m[if i < j then i else i + 1]
  }

  lemma {:induction false} FoldShifted(m: map<nat, Bytes>, datas: seq<Bytes>, j: nat, n: nat, b: nat)
    requires Shifted(m, datas, j) && n < |datas|
    ensures Fold(Members(datas), n, b) == Fold(m, if n < j then n else n + 1, b)
    decreases n
  {
    if n > 0 {
      FoldShifted(m, datas, j, n - 1, b);
    }
  }

  /** The rebuilt payload starts with the first byte of that one frame. */
  lemma MisreadByte(p: nat, j: nat, m: map<nat, Bytes>, datas: seq<Bytes>)
    requires Shifted(m, datas, j) && |datas[j]| > 0
    ensures var r := Misread(p, j, m, datas).data; |r| == |datas[j]| && r[0] == At(datas[|datas| - 1], 0)
  {
    var k := |datas|;
    BodyIsFold(datas);
    assert At(Body(datas), 0) == Fold(Members(datas), k, 0);
    FoldShifted(m, datas, j, k - 1, 0);
    XorLaws(Fold(m, k, 0), At(datas[k - 1], 0), 0);
  }

  // ---- the reorder buffer meanwhile ----

  /** Numbers below p + j were delivered in order; what came after p + j waits. */
  ghost predicate Ordered(o: Reorder<VpnFrame>, p: nat, j: nat, i: nat) {
    && o.Valid()
    && o.expected == (if i == 0 then 0 else if i <= j then p + i else p + j)
    && forall n :: n in o.buffered ==> p + j < n < p + i
  }

  lemma InOrder(o: Reorder<VpnFrame>, p: nat, j: nat, i: nat, f: VpnFrame)
    requires Ordered(o, p, j, i) && 0 < p && i < MAX_GROUP && 0 < j < MAX_GROUP && i != j && p + MAX_GROUP <= LAST_ORDERED && f.n == p + i
    ensures Ordered(o.Insert(f.n, f).0, p, j, i + 1)
  {
    hide Reorder<VpnFrame>.Insert;
    InsertValid(o, f.n, f);
    InsertEffect(o, f.n, f);
    var q := o.Insert(f.n, f).0;
    if i < j {
      var out := o.Insert(f.n, f).1;
      assert o.buffered == map[];
      assert FateOf(o, f.n) == Due;
      assert 1 < |out| ==> FrameAt(o.buffered[f.n := f], f.n, out, 1);
    } else {
      assert FateOf(o, f.n) == Held;
    }
  }

  lemma DueNow(o: Reorder<VpnFrame>, p: nat, j: nat, i: nat, f: VpnFrame)
    requires Ordered(o, p, j, i) && 0 < p && 0 < j < i && p + j <= LAST_ORDERED && f.n == p + j
    ensures f in o.Insert(f.n, f).1
  {
    hide Reorder<VpnFrame>.Insert;
    InsertValid(o, f.n, f);
    InsertEffect(o, f.n, f);
    var out := o.Insert(f.n, f).1;
    assert FateOf(o, f.n) == Due;
    assert FrameAt(o.buffered[f.n := f], f.n, out, 0);
    assert out[0] == f;
  }

  // ---- the receiver's run ----

  /** The payloads of group p below offset i, all but that of p + j. */
  function Heard(sent: seq<Bytes>, p: nat, j: nat, i: nat): map<nat, Bytes>
    requires 1 <= p && p + i <= |sent| + 1
  {
    map x | x in AllBut(i, j) :: sent[p + x - 1]
  }

  /** They have arrived. */
  ghost predicate Fed(t: Modes.Sender, s: Rx, p: nat, j: nat, i: nat)
    requires 1 <= p && p + i <= |t.sent| + 1
  {
    && s.Sane() && s.fec.Some? && s.fec.value.k == t.enc.k && s.fec.value.ic == t.enc.ic
    && Holding(s.fec.value, p, Heard(t.sent, p, j, i))
    && Ordered(s.order, p, j, i)
  }

  /** The group can be told apart at the receiver, and its numbers have been given out. */
  ghost predicate Usable(t: Modes.Sender, p: nat, j: nat) {
    && GroupSize(t.enc.k) && Aligned(p, t.enc.k) && 0 < j < t.enc.k && p + MAX_GROUP <= LAST_ORDERED
    && 1 <= p && p + t.enc.k <= |t.sent| + 1 && Sendable(t.sent)
  }

  lemma OneFrame(s: Rx, f: VpnFrame)
    requires s.Sane() && f.n != 0
    ensures RxStep(s, Batch([f])) == s.OnDataFrame(f).Flush()
  {
    hide Rx.OnDataFrame, Rx.Flush;
    assert [f][1..] == [];
    var u := s.OnDataFrame(f).Flush();
    assert s.First([f]) == Some(u);
    assert u.Process([]) == (u, true);
  }

  lemma OneControl(s: Rx, f: VpnFrame)
    requires s.Sane() && f.n == 0 && s.OnControlFrame(f).Some?
    ensures RxStep(s, Batch([f])) == s.OnControlFrame(f).value
  {
    hide Rx.OnControlFrame;
    assert [f][1..] == [];
    var u := s.OnControlFrame(f).value;
    assert s.First([f]) == Some(u);
    assert u.Process([]) == (u, true);
  }

  lemma FeedFrame(t: Modes.Sender, s: Rx, p: nat, j: nat, i: nat)
    requires Usable(t, p, j) && i < t.enc.k && i != j && Fed(t, s, p, j, i)
    ensures Fed(t, RxStep(s, Batch([VpnFrame(p + i, t.sent[p + i - 1])])), p, j, i + 1)
  {
    hide Holding, Ordered, Decoder.OnData, Reorder<VpnFrame>.Insert, Aligned, Heard, Rx.Flush;
    var f := VpnFrame(p + i, t.sent[p + i - 1]);
    OneFrame(s, f);
    HeardNext(t.sent, p, j, i);
    FeedMember(s.fec.value, p, i, j, f.data, s.order.expected, Heard(t.sent, p, j, i));
    InOrder(s.order, p, j, i, f);
    FlushKeeps(s.OnDataFrame(f));
  }

  lemma HeardNext(sent: seq<Bytes>, p: nat, j: nat, i: nat)
    requires 1 <= p && p + i <= |sent| && i != j
    ensures var m := Heard(sent, p, j, i);
            i !in m && j !in m && m[i := sent[p + i - 1]] == Heard(sent, p, j, i + 1)
  {
  }

  lemma FlushKeeps(s: Rx)
    ensures s.Flush().fec == s.fec && s.Flush().order == s.order
  {
  }

  /** The absent one is passed over. */
  lemma PassOver(t: Modes.Sender, s: Rx, p: nat, j: nat)
    requires Usable(t, p, j) && Fed(t, s, p, j, j)
    ensures Fed(t, s, p, j, j + 1)
  {
    hide Holding;
    assert Heard(t.sent, p, j, j) == Heard(t.sent, p, j, j + 1);
  }

  lemma HeaderIsParity(b: Bytes, k: nat)
    requires GroupSize(k) && ParseHeader(b, k).Some?
    ensures ParseControl(b).ParityFrame?
  {
  }

  /** The parity makes the receiver hand over what it takes for p + j. */
  lemma FeedLast(t: Modes.Sender, s: Rx, p: nat, j: nat, datas: seq<Bytes>)
    requires Usable(t, p, j) && Fed(t, s, p, j, t.enc.k)
    requires |datas| == t.enc.k && forall i :: 0 <= i < |datas| ==> 0 < |datas[i]| < U32
    ensures var u := RxStep(s, Batch([VpnFrame(0, ParityOf(t.enc.ic, p, datas))]));
            Misread(p, j, Heard(t.sent, p, j, t.enc.k), datas) in Concat(u.handed)
  {
    hide Holding, Ordered, Decoder.OnParity, Reorder<VpnFrame>.Insert, Aligned, ParityOf, ParseHeader, ParseControl, Concat, Misread;
    var d, b, m := s.fec.value, ParityOf(t.enc.ic, p, datas), Heard(t.sent, p, j, t.enc.k);
    assert m.Keys == AllBut(t.enc.k, j);
    FeedParity(d, p, j, m, datas, s.order.expected);
    HeaderIsParity(b, t.enc.k);
    var g := Misread(p, j, m, datas);
    assert g.n == p + j by { MisreadNumber(p, j, m, datas); }
    DueNow(s.order, p, j, t.enc.k, g);
    OneControl(s, VpnFrame(0, b));
    var u := s.(fec := Some(d.OnParity(b, s.order.expected).0)).Release([VpnFrame(0, b)]).Insert(g);
    assert g in u.ready;
    Handed(u, g);
  }

  lemma MisreadNumber(p: nat, j: nat, m: map<nat, Bytes>, datas: seq<Bytes>)
    requires j < |datas|
    ensures Misread(p, j, m, datas).n == p + j
  {
  }

  lemma Handed(u: Rx, g: VpnFrame)
    requires g in u.ready
    ensures g in Concat(u.Flush().handed)
  {
    var chunks := u.handed + [u.ready];
    assert chunks[..|chunks| - 1] == u.handed;
  }

  // ---- what the sender emitted, fed to the receiver ----

  /** Frame by frame, as far as they were sent, then the parity. */
  lemma {:induction false} FeedFrom(t: Modes.Sender, s: Rx, p: nat, j: nat, i: nat, l: nat) returns (rx: seq<RxEvent>)
    requires Usable(t, p, j) && i <= t.enc.k && Fed(t, s, p, j, i) && OnlyLost(t.lost, p, t.enc.k, p + j)
    requires l < |t.log| && t.log[l].Par? && t.log[l].start == p && |t.log[l].datas| == t.enc.k
    requires forall m :: 0 <= m < t.enc.k ==> 0 < |t.log[l].datas[m]| < U32
    ensures AllEmitted(t, rx) && s.Sane()
    ensures Misread(p, j, Heard(t.sent, p, j, t.enc.k), t.log[l].datas) in Concat(RxRun(s, rx).handed)
    decreases t.enc.k - i
  {
    hide Fed, RxStep, ParityOf, Sendable, Misread, Heard, Concat, Aligned;
    assert s.Sane() by { FedSane(t, s, p, j, i); }
    if i == t.enc.k {
      var f := VpnFrame(0, ParityOf(t.enc.ic, p, t.log[l].datas));
      FeedLast(t, s, p, j, t.log[l].datas);
      rx := [Batch([f])];
      assert Emitted(t, f) by { assert f.data == WireOf(t.enc.ic, t.log[l]); }
      RunOne(s, rx);
    } else if i == j {
      PassOver(t, s, p, j);
      rx := FeedFrom(t, s, p, j, i + 1, l);
    } else {
      var f := VpnFrame(p + i, t.sent[p + i - 1]);
      FeedFrame(t, s, p, j, i);
      var rest := FeedFrom(t, RxStep(s, Batch([f])), p, j, i + 1, l);
      rx := [Batch([f])] + rest;
      assert rx[1..] == rest;
      assert Emitted(t, f);
      AddEvent(t, Batch([f]), rest);
    }
  }

  lemma FedSane(t: Modes.Sender, s: Rx, p: nat, j: nat, i: nat)
    requires 1 <= p && p + i <= |t.sent| + 1 && Fed(t, s, p, j, i)
    ensures s.Sane()
  {
  }

  lemma RunOne(s: Rx, rx: seq<RxEvent>)
    requires s.Sane() && |rx| == 1
    ensures RxRun(s, rx) == RxStep(s, rx[0])
  {
    hide RxStep;
    assert rx[1..] == [];
  }

  lemma AddEvent(t: Modes.Sender, ev: RxEvent, rest: seq<RxEvent>)
    requires AllEmitted(t, rest) && ev.Batch? && |ev.fs| == 1 && Emitted(t, ev.fs[0])
    ensures AllEmitted(t, [ev] + rest)
  {
    hide Emitted;
  }

  lemma {:induction false} OutputAll(handed: seq<seq<VpnFrame>>)
    ensures Output(handed, seq(|handed|, _ => true)) == Concat(handed)
  {
    if handed != [] {
      var n := |handed| - 1;
      assert seq(|handed|, _ => true)[..n] == seq(n, _ => true);
      OutputAll(handed[..n]);
    }
  }

  lemma NewIsFed(t: Modes.Sender, p: nat, j: nat)
    requires Usable(t, p, j)
    ensures Fed(t, Receiver(t), p, j, 0)
  {
    NewDecoderIsQuiet([], t.enc.k, t.enc.ic, p);
    assert Heard(t.sent, p, j, 0) == map[];
  }

  /** With one number dropped the parity holds the others, moved up, and one frame more. */
  lemma SpoiledShifts(x: Modes.Item, sent: seq<Bytes>, lost: set<nat>, k: nat, j: nat)
    requires x.Par? && Sealed(x, sent, lost, k) && OnlyLost(lost, x.start, k, x.start + j)
    ensures 0 < j < k && 1 <= x.start && x.start + k <= |sent| + 1
    ensures Shifted(Heard(sent, x.start, j, k), x.datas, j)
  {
    hide Unlost;
    var end :| Seals(x, sent, lost, end);
    UnlostButOne(sent, lost, x.start, x.start + k - 1, x.start + j);
    UnlostPrefix(sent, lost, x.start, x.start + k - 1, end);
  }

  /** The payloads in a parity were sent. */
  lemma SealedPayloads(x: Modes.Item, sent: seq<Bytes>, lost: set<nat>, k: nat)
    requires x.Par? && Sealed(x, sent, lost, k) && Sendable(sent)
    ensures forall i :: 0 <= i < |x.datas| ==> 0 < |x.datas[i]| < U32
  {
    hide Unlost;
    var end :| Seals(x, sent, lost, end);
    var fs := Unlost(sent, lost, x.start, end);
    UnlostAre(sent, lost, x.start, end);
    forall i | 0 <= i < |x.datas| ensures 0 < |x.datas[i]| < U32 {
      assert fs[i] in fs;
    }
  }

  /** A parity that is taken, with one number of its group dropped and another first byte in its last payload, brings a wrong frame out. */
  lemma WrongByteComesOut(t: Modes.Sender, l: nat, n: nat)
    requires SealInv(t) && Sendable(t.sent) && l < |t.log| && Taken(t.log[l], t.enc.k) && OnlyLost(t.lost, t.log[l].start, t.enc.k, n)
    requires 1 <= n <= |t.sent| && t.log[l].start + MAX_GROUP <= LAST_ORDERED
    requires |t.log[l].datas| == t.enc.k && At(t.log[l].datas[t.enc.k - 1], 0) != At(t.sent[n - 1], 0)
    ensures !OutputsGenuine(t)
  {
    hide Fed, RxRun, Output, AllEmitted, Concat, Unlost, Misread, Shifted, OpenIsRest, Sealed, Aligned;
    var x, p, k := t.log[l], t.log[l].start, t.enc.k;
    var j := n - p;
    SpoiledShifts(x, t.sent, t.lost, k, j);
    SealedPayloads(x, t.sent, t.lost, k);
    var s := Receiver(t);
    NewIsFed(t, p, j);
    var rx := FeedFrom(t, s, p, j, 0, l);
    var m := Heard(t.sent, p, j, k);
    var f := Misread(p, j, m, x.datas);
    MisreadByte(p, j, m, x.datas);
    MisreadNumber(p, j, m, x.datas);
    assert !GenuineFrame(t.sent, f);
    ComesOut(t, rx, f);
  }

  lemma ComesOut(t: Modes.Sender, rx: seq<RxEvent>, f: VpnFrame)
    requires AllEmitted(t, rx) && Receiver(t).Sane() && f in Concat(RxRun(Receiver(t), rx).handed) && !GenuineFrame(t.sent, f)
    ensures !OutputsGenuine(t)
  {
    hide RxRun, Output, AllEmitted, Concat;
    var handed := RxRun(Receiver(t), rx).handed;
    var taken := seq(|handed|, _ => true);
    OutputAll(handed);
    var out := Output(handed, taken);
    var i :| 0 <= i < |out| && out[i] == f;
    assert !GenuineFrame(t.sent, out[i]);
  }

  /** A later run without loss, within the numbers and lengths the formats can say. */
  ghost predicate Continues(u: Modes.Sender, evs: seq<Modes.Event>, t: Modes.Sender) {
    Modes.NoLoss(evs) && Modes.Reaches(u, evs, t) && Sendable(t.sent) && |t.sent| <= LAST_ORDERED
  }

  /** One number of an open group that will be taken was dropped: payloads with another first byte complete it. */
  lemma SpoiledComesOut(u: Modes.Sender) returns (evs: seq<Modes.Event>, t: Modes.Sender)
    requires SealInv(u) && OpenAligned(u) && Spoiled(u.lost, u.enc.open[0].n, u.enc.k)
    requires Sendable(u.sent) && |u.sent| + MAX_GROUP <= LAST_ORDERED
    ensures Continues(u, evs, t) && !OutputsGenuine(t)
  {
    hide OutputsGenuine, Aligned, Sealed, Modes.Reaches, Repeat, OpenIsRest, OnlyLost, Spoiled;
    var p, k, c := u.enc.open[0].n, u.enc.k, u.enc.k - |u.enc.open|;
    var n := TheLost(u);
    var d: Bytes := if At(u.sent[n - 1], 0) == 0 then [1] else [0];
    var x;
    evs := Repeat(d, c);
    t, x := FillGroup(u, d, c);
    RunSealed(u, evs, t);
    Modes.SameGroupSize(u, evs, t);
    assert t.log[|u.log|] == x && At(x.datas[k - 1], 0) != At(u.sent[n - 1], 0);
    MoreSendable(u.sent, t.sent, d);
    WrongByteComesOut(t, |u.log|, n);
  }

  lemma TheLost(u: Modes.Sender) returns (n: nat)
    requires SealInv(u) && u.enc.open != [] && Spoiled(u.lost, u.enc.open[0].n, u.enc.k)
    ensures OnlyLost(u.lost, u.enc.open[0].n, u.enc.k, n) && 1 <= u.enc.open[0].n <= n <= |u.sent|
    ensures u.enc.multipath && u.enc.armed
  {
    hide Sealed, Unlost;
    n :| OnlyLost(u.lost, u.enc.open[0].n, u.enc.k, n);
  }

  lemma MoreSendable(sent: seq<Bytes>, more: seq<Bytes>, d: Bytes)
    requires Sendable(sent) && sent <= more && |more| < U32 && 0 < |d| < U32
    requires forall i :: |sent| <= i < |more| ==> more[i] == d
    ensures Sendable(more)
  {
  }

  /**
   At any moment of any run: no later run without loss makes the receiver hand over a wrong frame, exactly when
   the open group does not have exactly one number dropped, if the receiver will take it.
   */
  lemma SafeNowIff(u: Modes.Sender)
    requires SealInv(u) && SafeLog(u) && Sendable(u.sent) && |u.sent| + MAX_GROUP <= LAST_ORDERED
    ensures SafeNow(u) <==> forall evs, t :: Continues(u, evs, t) ==> OutputsGenuine(t)
  {
    hide OutputsGenuine, SealInv, SafeLog, Spoiled, Modes.Reaches, Modes.NoLoss, OpenAligned;
    if SafeNow(u) {
      forall evs, t | Continues(u, evs, t) ensures OutputsGenuine(t) {
        RunTrustedNoLoss(u, evs, t);
        SafeOutputs(t);
      }
    } else {
      var evs, t := SpoiledComesOut(u);
    }
  }

  /** So a drop does no harm exactly when it is safe. */
  lemma OutputSafeIff(s: Modes.Sender, batch: seq<Bytes>)
    requires SealInv(s) && SafeLog(s) && Sendable(s.sent + batch) && |s.sent| + |batch| + MAX_GROUP <= LAST_ORDERED
    ensures GroupSize(s.enc.k) && s.enc.lastSeq < U32
    ensures SafeDrop(s, batch) <==>
            forall evs, t :: Continues(Modes.Step(s, Modes.Lose(batch)), evs, t) ==> OutputsGenuine(t)
  {
    hide OutputsGenuine, SealInv, Spoiled, Continues, Aligned;
    SealedReady(s);
    var u := Modes.Step(s, Modes.Lose(batch));
    LogSafeLater(s, Modes.Numbers(|s.sent|, |s.sent| + |batch|));
    LoseSealed(s, batch);
    SafeNowIff(u);
  }
}
