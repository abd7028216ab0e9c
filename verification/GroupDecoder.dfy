/**
 The XOR FEC decoder in its simple form: for each pending group the payloads that
 arrived and, once it has come, the parity.  Eviction of the oldest group, the
 hashed ring of finished groups, the bypass window and retirement are all here;
 what is not here is how the running decoder stores a group.
 */
module GroupDecoder {
  import opened Xor
  import opened Wire
  import opened FecControl
  import opened FecParity
  import opened FecEncoder

  const MAX_PENDING := 512
  const DONE_RING := 256

  datatype Parity = Parity(lens: seq<nat>, body: Bytes)

  datatype Group = Group(members: map<nat, Bytes>, parity: Option<Parity>)

  const EmptyGroup := Group(map[], None)

  /** The offsets of a group: 0 .. k-1. */
  function Offsets(k: nat): (s: set<nat>)
    ensures forall i :: i in s <==> 0 <= i < k
  {
    if k == 0 then {} else Offsets(k - 1) + {k - 1}
  }

  /** How many of the offsets below k are absent. */
  function MissingCount(m: map<nat, Bytes>, k: nat): (c: nat)
    ensures c <= k
  {
    if k == 0 then 0 else MissingCount(m, k - 1) + if k - 1 in m then 0 else 1
  }

  /** The largest absent offset below k, or -1. */
  function LastMissing(m: map<nat, Bytes>, k: nat): (j: int)
    ensures j >= 0 ==> j < k && j !in m
    ensures j == -1 || j >= 0
    ensures j == -1 <==> MissingCount(m, k) == 0
  {
    if k == 0 then -1 else if k - 1 !in m then k - 1 else LastMissing(m, k - 1)
  }

  /** Drops the leading creation records whose group is gone. */
  function Pruned(order: seq<nat>, live: set<nat>): (r: seq<nat>)
    ensures forall s :: s in live && s in order ==> s in r
    ensures r != [] ==> r[0] in live
  {
    if order == [] || order[0] in live then order else Pruned(order[1..], live)
  }

  /** The absent member: parity XOR everything that arrived, cut to its length. */
  function Rebuild(g: Group, k: nat, n: nat): (r: Bytes)
    requires g.parity.Some?
    ensures |r| == n
  {
    seq(n, i requires 0 <= i < n => At(g.parity.value.body, i) ^ Fold(g.members, k, i))
  }

  /** What to do with a group: wait for more, close it, or close it with its one absent member rebuilt. */
  datatype Action = Wait | Close | Rebuilt(j: nat, data: Bytes)

  function Verdict(g: Group, k: nat): Action {
    if g.parity.None? then Wait
    else
      var c := MissingCount(g.members, k);
      if c > 1 then Wait
      else if c == 0 then Close
      else
        var j := LastMissing(g.members, k);
        if j >= |g.parity.value.lens| || g.parity.value.lens[j] > |g.parity.value.body| then Close
        else Rebuilt(j, Rebuild(g, k, g.parity.value.lens[j]))
  }

  datatype Decoder = Decoder(
    k: nat, ic: Cipher,
    groups: map<nat, Group>, order: seq<nat>, done: seq<nat>,
    fence: Fence, cleanupBefore: nat, retiredBefore: nat, staticSingle: bool,
    recovered: nat, lost: nat)
  {
    /** Holds in every reachable state, whatever arrives. */
    predicate Valid() {
      Sound() && forall s :: s in groups ==> GroupValid(s, groups[s])
    }

    /** Valid, except that the group being worked on may be due for recovery. */
    predicate ValidBut(s: nat) {
      && Sound()
      && s in groups && GroupShape(s, groups[s])
      && forall t :: t in groups && t != s ==> GroupValid(t, groups[t])
    }

    predicate Sound() {
      && GroupSize(k)
      && |done| == DONE_RING
      && (forall s :: s in groups ==> s in order)
      && |groups| <= MAX_PENDING
      && fence.generation < U64 && fence.from < U32 && fence.until < U32
      && lost == 0
    }

    predicate GroupValid(s: nat, g: Group)
      requires GroupSize(k)
    {
      && GroupShape(s, g)
      && MissingCount(g.members, k) >= (if g.parity.Some? then 2 else 1)
    }

    predicate GroupShape(s: nat, g: Group)
      requires GroupSize(k)
    {
      && Aligned(s, k) && s < U32
      && (forall j :: j in g.members ==> j < k)
      && (g.parity.Some? ==> |g.parity.value.lens| == k && |g.parity.value.body| == Max(g.parity.value.lens))
    }

    predicate IsDone(s: nat)
      requires |done| == DONE_RING
    {
      done[s % DONE_RING] == s
    }

    predicate Retired(n: nat) {
      retiredBefore != 0 && n < retiredBefore
    }

    /** Only drops pending groups: the rest, and the configuration, stay. */
    ghost predicate Shrinks(d: Decoder) {
      SameConfig(d) && forall t :: t in d.groups ==> t in groups && d.groups[t] == groups[t]
    }

    ghost predicate SameConfig(d: Decoder) {
      d.k == k && d.ic == ic && |d.done| == |done| && d.staticSingle == staticSingle
    }

    function Prune(): Decoder {
      this.(order := Pruned(order, groups.Keys))
    }

    /** Room for one more group: the oldest live one goes when all slots are taken. */
    function MakeRoom(): (d: Decoder)
      ensures Shrinks(d)
    {
      var d := Prune();
      if |d.groups| < MAX_PENDING then d else d.Evict().Prune()
    }

    /** Gives up the oldest group that is still live. */
    function Evict(): (d: Decoder)
      ensures Shrinks(d)
    {
      var d := Prune();
      if d.order == [] then d else d.(groups := d.groups - {d.order[0]}, order := d.order[1..])
    }

    function NewGroup(s: nat): (d: Decoder)
      ensures SameConfig(d) && s in d.groups
    {
      var d := MakeRoom();
      d.(groups := d.groups[s := EmptyGroup], order := d.order + [s])
    }

    /** The group for s, created if it is not pending. */
    function WithGroup(s: nat): (d: Decoder)
      ensures SameConfig(d) && s in d.groups
    {
      if s in groups then this else NewGroup(s)
    }

    function Put(s: nat, g: Group): Decoder {
      this.(groups := groups[s := g])
    }

    /** Ends a group; what is still absent although the parity came is counted as lost. */
    function Finish(s: nat): Decoder
      requires s in groups && |done| == DONE_RING
    {
      this.(groups := groups - {s}, done := done[s % DONE_RING := s],
            lost := lost + if groups[s].parity.Some? then MissingCount(groups[s].members, k) else 0)
    }

    /** Acts on what the group's members and parity allow. */
    function TryRecover(s: nat): (r: (Decoder, Option<VpnFrame>))
      requires s in groups && |done| == DONE_RING
      ensures Shrinks(r.0) && (r.1.Some? ==> s !in r.0.groups)
    {
      match Verdict(groups[s], k)
      case Wait => (this, None)
      case Close => (Finish(s), None)
      case Rebuilt(j, data) =>
        var d := Put(s, groups[s].(members := groups[s].members[j := data])).Finish(s);
        (d.(recovered := d.recovered + 1), Some(VpnFrame((s + j) % U32, data)))
    }

    /** Groups below the highest SUSPEND boundary go once ordered delivery has passed it. */
    function Retire(expected: nat): (d: Decoder)
      ensures Shrinks(d)
    {
      if cleanupBefore == 0 || retiredBefore >= cleanupBefore then this
      else if expected == 0 || expected < cleanupBefore then this
      else this.(retiredBefore := cleanupBefore).DropRange(0, cleanupBefore)
    }

    function Reset(): Decoder {
      this.(groups := map[], order := [], done := seq(DONE_RING, _ => 0),
            fence := ActiveFence, cleanupBefore := 0, retiredBefore := 0)
    }

    /** Forgets pending groups with from <= start < until. */
    function DropRange(from: nat, until: nat): (d: Decoder)
      ensures Shrinks(d)
    {
      var keep := map s | s in groups && !(from <= s && s < until) :: groups[s];
      if keep == groups then this else this.(groups := keep).Prune()
    }

    function OnMode(c: ModeControl, expected: nat): (d: Decoder)
      ensures Shrinks(d)
    {
      if !c.Valid() || c.generation <= fence.generation then this
      else
        var f := fence.After(c);
        var d := this.(fence := f);
        if f.from == 0 then d
        else d.(cleanupBefore := if f.from > cleanupBefore then f.from else cleanupBefore)
              .DropRange(f.from, if f.until == 0 then U32 else f.until)
              .Retire(expected)
    }

    function OnData(n: nat, data: Bytes, expected: nat): (r: (Decoder, Option<VpnFrame>))
      requires GroupSize(k) && |done| == DONE_RING
      ensures SameConfig(r.0)
    {
      if data == [] || n == 0 || staticSingle then (this, None)
      else if fence.Bypass(n) then (if n % 256 == 0 then Retire(expected) else this, None)
      else if Retired(n) then (this, None)
      else
        var s := GroupStart(n, k);
        if IsDone(s) then (this, None) else WithGroup(s).AddMember(s, n - s, data)
    }

    function AddMember(s: nat, j: nat, data: Bytes): (r: (Decoder, Option<VpnFrame>))
      requires s in groups && |done| == DONE_RING
      ensures SameConfig(r.0)
      ensures forall t :: t in r.0.groups && t != s ==> t in groups && r.0.groups[t] == groups[t]
    {
      var g := groups[s];
      if j in g.members then (this, None)
      else
        var d := Put(s, g.(members := g.members[j := data]));
        if MissingCount(d.groups[s].members, k) == 0 then (d.Finish(s), None) else d.TryRecover(s)
    }

    function OnParity(b: Bytes, expected: nat): (r: (Decoder, Option<VpnFrame>))
      requires GroupSize(k) && |done| == DONE_RING
      ensures SameConfig(r.0)
    {
      var header := ParseHeader(b, k);
      if staticSingle || header.None? then (this, None)
      else Retire(expected).OnParityBody(header.value, b, expected)
    }

    function OnParityBody(s: nat, b: Bytes, expected: nat): (r: (Decoder, Option<VpnFrame>))
      requires |done| == DONE_RING
      ensures SameConfig(r.0)
    {
      var lens := ParseLengths(b, k, TagLen(ic));
      if Retired(s) || lens.None? || IsDone(s) then (this, None)
      else if s in groups && groups[s].parity.Some? then (this, None)
      else AcceptParity(s, lens.value, SealedBody(b, k, lens.value, TagLen(ic)), expected)
    }

    function AcceptParity(s: nat, lens: seq<nat>, sealed: Bytes, expected: nat): (r: (Decoder, Option<VpnFrame>))
      requires |done| == DONE_RING
      ensures SameConfig(r.0)
    {
      var d := WithGroup(s);
      var body := Open(ic, s, sealed);
      if body.None? then (d, None)
      else
        var (e, rec) := d.Put(s, d.groups[s].(parity := Some(Parity(lens, body.value)))).TryRecover(s);
        (e.Retire(expected), rec)
    }
  }

  /** The kinds of control payload after the handshake. */
  datatype Control = ParityFrame | ModeFrame(c: ModeControl) | Bad

  function ParseControl(b: Bytes): Control {
    if b == [] then Bad
    else if b[0] == KIND_PARITY as bv8 then ParityFrame
    else if b[0] == KIND_MODE as bv8 then
      match ParseMode(b)
      case Some(c) => ModeFrame(c)
      case None => Bad
    else Bad
  }

  /** What the session worker hands to the decoder, with the reorder progress at that moment. */
  datatype Input = DataIn(n: nat, data: Bytes) | ParityIn(b: Bytes) | ModeIn(c: ModeControl)

  function Step(d: Decoder, x: Input, expected: nat): (r: (Decoder, Option<VpnFrame>))
    requires GroupSize(d.k) && |d.done| == DONE_RING
    ensures d.SameConfig(r.0)
  {
    match x
    case DataIn(n, data) => d.OnData(n, data, expected)
    case ParityIn(b) => d.OnParity(b, expected)
    case ModeIn(c) => (d.OnMode(c, expected), None)
  }

  lemma ResetValid(d: Decoder)
    requires d.Valid()
    ensures d.Reset().Valid()
  {
  }

  function NewDecoder(k: int, ic: Cipher): Decoder {
    Decoder(ClampGroup(k), ic, map[], [], seq(DONE_RING, _ => 0), ActiveFence, 0, 0, false, 0, 0)
  }

  // ---- every operation keeps the decoder valid, for every input ----

  lemma {:induction false} MissingInsert(m: map<nat, Bytes>, k: nat, j: nat, data: Bytes)
    requires j !in m
    ensures MissingCount(m[j := data], k) == MissingCount(m, k) - if j < k then 1 else 0
  {
    if k > 0 {
      MissingInsert(m, k - 1, j, data);
    }
  }

  lemma {:induction false} MissingEmpty(k: nat)
    ensures MissingCount(map[], k) == k
  {
    if k > 0 {
      MissingEmpty(k - 1);
    }
  }

  /** One absent offset: it is the one LastMissing names. */
  lemma {:induction false} OneMissing(m: map<nat, Bytes>, k: nat)
    requires MissingCount(m, k) == 1
    ensures forall j :: 0 <= j < k && j != LastMissing(m, k) ==> j in m
  {
    if k - 1 in m {
      OneMissing(m, k - 1);
    } else {
      NoneMissing(m, k - 1);
    }
  }

  lemma {:induction false} NoneMissing(m: map<nat, Bytes>, k: nat)
    requires MissingCount(m, k) == 0
    ensures forall j :: 0 <= j < k ==> j in m
  {
    if k > 0 {
      NoneMissing(m, k - 1);
    }
  }

  /** Group s is live, and every group created before it is gone. */
  ghost predicate OldestLive(d: Decoder, s: nat) {
    s in d.groups && exists i :: 0 <= i < |d.order| && d.order[i] == s && forall j :: 0 <= j < i ==> d.order[j] !in d.groups
  }

  lemma {:induction false} PrunedFirst(order: seq<nat>, live: set<nat>) returns (i: nat)
    requires Pruned(order, live) != []
    ensures i < |order| && order[i] == Pruned(order, live)[0] && order[i] in live
    ensures forall j :: 0 <= j < i ==> order[j] !in live
  {
    if order[0] in live {
      i := 0;
    } else {
      i := PrunedFirst(order[1..], live);
      i := i + 1;
    }
  }

  /** A full decoder makes room by giving up one group, the oldest; any other keeps all. */
  lemma MakeRoomValid(d: Decoder)
    requires d.Valid()
    ensures var e := d.MakeRoom();
            e.Valid() && |e.groups| < MAX_PENDING && e == d.(groups := e.groups, order := e.order)
    ensures forall t :: t in d.MakeRoom().groups ==> t in d.groups && d.MakeRoom().groups[t] == d.groups[t]
    ensures |d.groups| < MAX_PENDING ==> d.MakeRoom().groups == d.groups
    ensures |d.groups| == MAX_PENDING ==> exists s :: OldestLive(d, s) && d.MakeRoom().groups == d.groups - {s}
  {
    hide Decoder.GroupValid, Decoder.Evict, Pruned, OldestLive;
    if |d.groups| >= MAX_PENDING {
      var gone := EvictsOldest(d);
      assert OldestLive(d, gone);
      hide Decoder.MakeRoom;
    }
    FewerValid(d, d.MakeRoom());
  }

  lemma FewerValid(d: Decoder, e: Decoder)
    requires d.Valid() && e == d.(groups := e.groups, order := e.order) && |e.groups| <= MAX_PENDING
    requires forall t :: t in e.groups ==> t in e.order && t in d.groups && e.groups[t] == d.groups[t]
    ensures e.Valid()
  {
    hide MissingCount, Aligned;
  }

  lemma EvictsOldest(d: Decoder) returns (gone: nat)
    requires d.Sound() && |d.groups| == MAX_PENDING
    ensures OldestLive(d, gone)
    ensures var e := d.MakeRoom(); e == d.(groups := d.groups - {gone}, order := e.order) && |e.groups| < MAX_PENDING
    ensures forall t :: t in d.MakeRoom().groups ==> t in d.MakeRoom().order
  {
    assert |d.groups| == |d.groups.Keys|;
    var p := d.Prune();
    assert p.order != [];
    assert p.Prune() == p;
    gone := p.order[0];
    var i := PrunedFirst(d.order, d.groups.Keys);
    hide Pruned;
    var left: map<nat, Group> := d.groups - {gone};
    assert left.Keys == d.groups.Keys - {gone} && |left| == |left.Keys|;
  }

  /** Creating a group leaves every other pending group as it was. */
  lemma WithGroupFrame(d: Decoder, s: nat)
    requires d.Valid()
    ensures var e := d.WithGroup(s); s in e.groups && e == d.(groups := e.groups, order := e.order)
    ensures s in d.groups ==> d.WithGroup(s) == d
    ensures s !in d.groups ==> d.WithGroup(s).groups[s] == EmptyGroup
    ensures forall t :: t in d.WithGroup(s).groups && t != s ==>
              t in d.groups && d.WithGroup(s).groups[t] == d.groups[t]
  {
    if s !in d.groups {
      MakeRoomValid(d);
    }
  }

  lemma WithGroupValid(d: Decoder, s: nat)
    requires d.Valid() && Aligned(s, d.k) && s < U32
    ensures d.WithGroup(s).Valid()
  {
    if s !in d.groups {
      MakeRoomValid(d);
      AddEmptyValid(d.MakeRoom(), s);
    }
  }

  lemma OneMoreGroup(groups: map<nat, Group>, s: nat)
    ensures |groups[s := EmptyGroup]| <= |groups| + 1
  {
    var more := groups[s := EmptyGroup];
    assert more.Keys == groups.Keys + {s} && |groups| == |groups.Keys| && |more| == |more.Keys|;
  }

  lemma AddEmptyValid(e: Decoder, s: nat)
    requires e.Valid() && |e.groups| < MAX_PENDING && Aligned(s, e.k) && s < U32
    ensures e.(groups := e.groups[s := EmptyGroup], order := e.order + [s]).Valid()
  {
    EmptyIsValid(e, s);
    hide Decoder.GroupValid, Aligned;
    OneMoreGroup(e.groups, s);
    var f := e.(groups := e.groups[s := EmptyGroup], order := e.order + [s]);
    forall t | t in f.groups ensures f.GroupValid(t, f.groups[t]) {
      SizeDecides(e, f, t, f.groups[t]);
    }
  }

  lemma EmptyIsValid(e: Decoder, s: nat)
    requires GroupSize(e.k) && Aligned(s, e.k) && s < U32
    ensures e.GroupValid(s, EmptyGroup)
  {
    MissingEmpty(e.k);
  }

  /** Whether a group is valid depends on the group size only. */
  lemma SizeDecides(d: Decoder, e: Decoder, s: nat, g: Group)
    requires GroupSize(d.k) && e.k == d.k
    ensures d.GroupValid(s, g) == e.GroupValid(s, g)
  {
  }

  /** With one member absent and the parity here, recovery always succeeds: the guards never fire. */
  lemma RecoverOne(g: Group, k: nat)
    requires g.parity.Some? && |g.parity.value.lens| == k && |g.parity.value.body| == Max(g.parity.value.lens)
    requires MissingCount(g.members, k) == 1
    ensures var j := LastMissing(g.members, k);
            0 <= j < k && Verdict(g, k) == Rebuilt(j, Rebuild(g, k, g.parity.value.lens[j]))
  {
    var lens := g.parity.value.lens;
    assert lens[LastMissing(g.members, k)] <= Max(lens);
  }

  lemma TryRecoverValid(d: Decoder, s: nat)
    requires d.ValidBut(s) && MissingCount(d.groups[s].members, d.k) >= 1
    ensures d.TryRecover(s).0.Valid()
  {
    hide MissingCount, Rebuild, LastMissing, Aligned, Decoder.Finish;
    var g := d.groups[s];
    if g.parity.Some? && MissingCount(g.members, d.k) == 1 {
      RecoverOne(g, d.k);
      OneMissing(g.members, d.k);
      var v := Verdict(g, d.k);
      RebuiltValid(d, s, v.j, v.data);
    }
  }

  lemma RebuiltValid(d: Decoder, s: nat, j: nat, data: Bytes)
    requires d.ValidBut(s) && MissingCount(d.groups[s].members, d.k) == 1 && j < d.k && j !in d.groups[s].members
    ensures d.Put(s, d.groups[s].(members := d.groups[s].members[j := data])).Finish(s).Valid()
  {
    var g := d.groups[s].(members := d.groups[s].members[j := data]);
    MissingInsert(d.groups[s].members, d.k, j, data);
    assert d.groups[s := g].Keys == d.groups.Keys;
    assert |d.groups[s := g]| == |d.groups[s := g].Keys|;
    assert |d.groups| == |d.groups.Keys|;
    FinishValid(d.Put(s, g), s);
  }

  lemma FinishValid(d: Decoder, s: nat)
    requires d.ValidBut(s) && (d.groups[s].parity.Some? ==> MissingCount(d.groups[s].members, d.k) == 0)
    ensures d.Finish(s).Valid()
  {
    assert (d.groups - {s}).Keys == d.groups.Keys - {s};
    assert |d.groups - {s}| == |d.groups.Keys - {s}|;
    assert |d.groups| == |d.groups.Keys|;
  }

  lemma PutValid(d: Decoder, s: nat, g: Group)
    requires d.Valid() && s in d.groups && d.GroupShape(s, g)
    ensures d.Put(s, g).ValidBut(s)
  {
    assert d.groups[s := g].Keys == d.groups.Keys;
    assert |d.groups[s := g]| == |d.groups[s := g].Keys|;
    assert |d.groups| == |d.groups.Keys|;
  }

  lemma AddMemberValid(d: Decoder, s: nat, j: nat, data: Bytes)
    requires d.Valid() && s in d.groups && j < d.k
    ensures d.AddMember(s, j, data).0.Valid()
  {
    var g := d.groups[s];
    if j !in g.members {
      var e := d.Put(s, g.(members := g.members[j := data]));
      PutValid(d, s, g.(members := g.members[j := data]));
      if MissingCount(e.groups[s].members, d.k) == 0 {
        FinishValid(e, s);
      } else {
        TryRecoverValid(e, s);
      }
    }
  }

  lemma DropRangeValid(d: Decoder, from: nat, until: nat)
    requires d.Valid()
    ensures d.DropRange(from, until).Valid()
  {
    var keep := map s | s in d.groups && !(from <= s && s < until) :: d.groups[s];
    assert keep.Keys <= d.groups.Keys;
    SubsetSize(keep.Keys, d.groups.Keys);
    assert |keep| == |keep.Keys| && |d.groups| == |d.groups.Keys|;
  }

  lemma {:induction false} SubsetSize(a: set<nat>, b: set<nat>)
    requires a <= b
    ensures |a| <= |b|
  {
    if a != {} {
      var x :| x in a;
      SubsetSize(a - {x}, b - {x});
    }
  }

  lemma RetireValid(d: Decoder, expected: nat)
    requires d.Valid()
    ensures d.Retire(expected).Valid() && d.Retire(expected).k == d.k
  {
    DropRangeValid(d.(retiredBefore := d.cleanupBefore), 0, d.cleanupBefore);
  }

  lemma OnModeValid(d: Decoder, c: ModeControl, expected: nat)
    requires d.Valid()
    ensures d.OnMode(c, expected).Valid()
  {
    hide Decoder.Valid, Decoder.DropRange, Decoder.Retire;
    var f := d.fence.After(c);
    if c.Valid() && c.generation > d.fence.generation {
      FenceValid(d, c, d.cleanupBefore);
      if f.from != 0 {
        var cleanup := if f.from > d.cleanupBefore then f.from else d.cleanupBefore;
        var until := if f.until == 0 then U32 else f.until;
        FenceValid(d, c, cleanup);
        var e := d.(fence := f, cleanupBefore := cleanup);
        DropRangeValid(e, f.from, until);
        RetireValid(e.DropRange(f.from, until), expected);
      }
    }
  }

  lemma FenceValid(d: Decoder, c: ModeControl, cleanup: nat)
    requires d.Valid() && c.Valid()
    ensures d.(fence := d.fence.After(c), cleanupBefore := cleanup).Valid()
  {
    hide MissingCount, Aligned;
  }

  lemma OnDataValid(d: Decoder, n: nat, data: Bytes, expected: nat)
    requires d.Valid() && n < U32
    ensures d.OnData(n, data, expected).0.Valid()
  {
    hide *;
    ValidSizes(d);
    OnDataCases(d, n, data, expected);
    RetireValid(d, expected);
    if n > 0 {
      var s := GroupStart(n, d.k);
      WithGroupFrame(d, s);
      WithGroupValid(d, s);
      AddMemberValid(d.WithGroup(s), s, n - s, data);
    }
  }

  lemma ValidSizes(d: Decoder)
    requires d.Valid()
    ensures GroupSize(d.k) && |d.done| == DONE_RING
  {
  }

  /** A data frame changes nothing, makes the decoder retire, or joins its group. */
  lemma OnDataCases(d: Decoder, n: nat, data: Bytes, expected: nat)
    requires GroupSize(d.k) && |d.done| == DONE_RING
    ensures var r := d.OnData(n, data, expected);
            || r == (d, None)
            || r == (d.Retire(expected), None)
            || (n > 0 && var s := GroupStart(n, d.k); r == d.WithGroup(s).AddMember(s, n - s, data))
  {
    hide Decoder.AddMember, Decoder.WithGroup, Decoder.Retire, GroupStart, Aligned;
  }

  lemma StoreParityValid(e: Decoder, s: nat, p: Parity)
    requires e.Valid() && s in e.groups && |p.lens| == e.k && |p.body| == Max(p.lens)
    ensures e.Put(s, e.groups[s].(parity := Some(p))).TryRecover(s).0.Valid()
  {
    hide Aligned;
    var g := e.groups[s].(parity := Some(p));
    PutValid(e, s, g);
    TryRecoverValid(e.Put(s, g), s);
  }

  lemma OnParityBodyValid(d: Decoder, s: nat, b: Bytes, expected: nat)
    requires d.Valid() && Aligned(s, d.k) && s < U32
    ensures d.OnParityBody(s, b, expected).0.Valid()
  {
    hide Decoder.TryRecover, Decoder.WithGroup, Decoder.Retire, Decoder.GroupValid, ParseLengths;
    var lens := ParseLengths(b, d.k, TagLen(d.ic));
    if lens.Some? {
      WithGroupFrame(d, s);
      WithGroupValid(d, s);
      var e := d.WithGroup(s);
      var body := Open(d.ic, s, SealedBody(b, d.k, lens.value, TagLen(d.ic)));
      if body.Some? {
        var p := Parity(lens.value, body.value);
        StoreParityValid(e, s, p);
        RetireValid(e.Put(s, e.groups[s].(parity := Some(p))).TryRecover(s).0, expected);
      }
    }
  }

  lemma OnParityValid(d: Decoder, b: Bytes, expected: nat)
    requires d.Valid()
    ensures d.OnParity(b, expected).0.Valid()
  {
    var header := ParseHeader(b, d.k);
    if header.Some? {
      RetireValid(d, expected);
      OnParityBodyValid(d.Retire(expected), header.value, b, expected);
    }
  }

  /** The invariant of every decoder run, for arbitrary inputs. */
  lemma StepValid(d: Decoder, x: Input, expected: nat)
    requires d.Valid() && (x.DataIn? ==> x.n < U32)
    ensures Step(d, x, expected).0.Valid()
  {
    match x
    case DataIn(n, data) => OnDataValid(d, n, data, expected);
    case ParityIn(b) => OnParityValid(d, b, expected);
    case ModeIn(c) => OnModeValid(d, c, expected);
  }

  // ---- what is recovered belongs to the group at work ----

  lemma RecoverNumber(d: Decoder, s: nat)
    requires s in d.groups && |d.done| == DONE_RING && s + d.k <= U32
    ensures var rec := d.TryRecover(s).1; rec.Some? ==> s <= rec.value.n < s + d.k
  {
    hide Rebuild, MissingCount;
  }

  lemma DataNumber(d: Decoder, n: nat, data: Bytes, expected: nat)
    requires GroupSize(d.k) && |d.done| == DONE_RING && GroupStart(n, d.k) + d.k <= U32
    ensures var rec := d.OnData(n, data, expected).1; var s := GroupStart(n, d.k);
            rec.Some? ==> n > 0 && s <= rec.value.n < s + d.k
  {
    hide Decoder.TryRecover, MissingCount, Decoder.Retire, GroupStart;
    var s := GroupStart(n, d.k);
    var m := d.WithGroup(s);
    hide Decoder.WithGroup;
    if n - s !in m.groups[s].members {
      RecoverNumber(m.Put(s, m.groups[s].(members := m.groups[s].members[n - s := data])), s);
    }
  }

  lemma ParityNumber(d: Decoder, b: Bytes, expected: nat)
    requires GroupSize(d.k) && |d.done| == DONE_RING
    requires var h := ParseHeader(b, d.k); h.Some? ==> h.value + d.k <= U32
    ensures var rec := d.OnParity(b, expected).1; var h := ParseHeader(b, d.k);
            rec.Some? ==> h.Some? && h.value <= rec.value.n < h.value + d.k
  {
    hide Decoder.TryRecover, Decoder.WithGroup, Decoder.Retire, ParseHeader, ParseLengths, SealedBody, Open;
    var h := ParseHeader(b, d.k);
    if h.Some? {
      var r, s := d.Retire(expected), h.value;
      var m := r.WithGroup(s);
      var lens := ParseLengths(b, r.k, TagLen(r.ic));
      if lens.Some? {
        var body := Open(r.ic, s, SealedBody(b, r.k, lens.value, TagLen(r.ic)));
        if body.Some? {
          RecoverNumber(m.Put(s, m.groups[s].(parity := Some(Parity(lens.value, body.value)))), s);
        }
      }
    }
  }
}
