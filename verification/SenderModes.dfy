/**
 Every run of the sending port: frames are numbered, path counts change, numbered
 batches may be dropped before the encoder sees them, parity frames and mode
 controls come out.  The log records the parities and controls in the order they
 are produced.
 */
module SenderModes {
  import opened Xor
  import opened Wire
  import opened FecControl
  import opened FecParity
  import opened FecEncoder

  datatype Event =
    | Paths(count: int)
    | Send(data: Bytes)
    | Lose(batch: seq<Bytes>)  // numbered frames dropped before the encoder sees them

  /** at is the last number the encoder had seen when the control was published. */
  datatype Item = Par(start: nat, datas: seq<Bytes>) | Ctl(c: ModeControl, at: nat)

  /** lost holds the numbers the encoder never saw. */
  datatype Sender = Sender(enc: Encoder, sent: seq<Bytes>, log: seq<Item>, lost: set<nat>)

  function Start(k: int, ic: Cipher): Sender {
    Sender(NewEncoder(k, ic), [], [], {})
  }

  /** The numbers from lo + 1 to hi. */
  function Numbers(lo: nat, hi: nat): (r: set<nat>)
    ensures forall n :: n in r <==> lo < n <= hi
  {
    if hi <= lo then {} else Numbers(lo, hi - 1) + {hi}
  }

  /** One event.  Sequence numbers stop at 2^32 - 1: frames after that are dropped unnumbered. */
  function Step(s: Sender, ev: Event): Sender
    requires GroupSize(s.enc.k) && s.enc.lastSeq < U32
  {
    match ev
    case Paths(count) =>
      var e := s.enc.SetPaths(count);
      s.(enc := e,
         log := if e.generation != s.enc.generation && e.control.Some? then s.log + [Ctl(e.control.value, s.enc.lastSeq)] else s.log)
    case Send(data) =>
      if data == [] || |s.sent| >= U32 - 1 then s
      else
        var f := VpnFrame(|s.sent| + 1, data);
        var (e, parity) := s.enc.Add(f);
        s.(enc := e, sent := s.sent + [data],
           log := if parity.Some? then s.log + [Par((s.enc.open + [f])[0].n, Payloads(s.enc.open + [f]))] else s.log)
    case Lose(batch) =>
      if |s.sent| + |batch| > U32 - 1 then s
      else s.(sent := s.sent + batch, lost := s.lost + Numbers(|s.sent|, |s.sent| + |batch|))
  }

  /** Every numbered frame reaches the encoder. */
  predicate NoLoss(evs: seq<Event>) {
    forall i :: 0 <= i < |evs| ==> !evs[i].Lose?
  }

  ghost predicate Reaches(s: Sender, evs: seq<Event>, t: Sender)
    decreases |evs|
  {
    if evs == [] then t == s
    else GroupSize(s.enc.k) && s.enc.lastSeq < U32 && Reaches(Step(s, evs[0]), evs[1..], t)
  }

  // ---- the invariant of every run ----

  /** The smallest number no emitted group may reach. */
  function Limit(s: Sender): nat {
    if s.enc.open != [] then s.enc.open[0].n else s.enc.lastSeq + 1
  }

  /** The smallest number the next emitted group may start at. */
  function Next(s: Sender): nat {
    if s.enc.open != [] then s.enc.open[0].n else |s.sent| + 1
  }

  predicate Shape(s: Sender) {
    var e := s.enc;
    && e.Valid()
    && e.lastSeq <= |s.sent| < U32
    && (e.open != [] ==> e.armed && 1 <= e.open[0].n && e.open[0].n + |e.open| <= e.lastSeq + 1)
    && (e.armed ==> e.multipath)
  }

  predicate ParitiesBelowLimit(s: Sender) {
    && (forall i :: 0 <= i < |s.log| && s.log[i].Par? ==> 1 <= s.log[i].start && s.log[i].start + s.enc.k <= Limit(s))
    && (forall i, j :: 0 <= i < j < |s.log| && s.log[i].Par? && s.log[j].Par? ==> s.log[i].start < s.log[j].start)
  }

  predicate IsSuspend(x: Item) {
    x.Ctl? && x.c.op == Suspend
  }

  predicate IsResume(x: Item) {
    x.Ctl? && x.c.op == Resume
  }

  predicate ResumesRespected(s: Sender)
    requires GroupSize(s.enc.k)
  {
    && (forall m :: 0 <= m < |s.log| && IsResume(s.log[m]) ==>
          && Aligned(s.log[m].c.boundary, s.enc.k)
          && s.log[m].c.boundary <= |s.sent| + s.enc.k
          && (s.enc.armed ==> s.log[m].c.boundary <= Next(s)))
    && (forall m, j :: 0 <= m < j < |s.log| && IsResume(s.log[m]) && s.log[j].Par? ==>
          s.log[m].c.boundary <= s.log[j].start)
  }

  function LastControl(log: seq<Item>): Option<ModeControl> {
    if log == [] then None
    else if log[|log| - 1].Ctl? then Some(log[|log| - 1].c)
    else LastControl(log[..|log| - 1])
  }

  predicate Suspended(c: Option<ModeControl>) {
    c.Some? && c.value.op == Suspend
  }

  /** A parity lies below the boundary: it starts there, and ends there too if the receiver takes it. */
  predicate Below(x: Item, boundary: nat, k: nat)
    requires GroupSize(k)
  {
    x.Par? ==> x.start < boundary && (Aligned(x.start, k) ==> x.start + k <= boundary)
  }

  predicate SuspendsRespected(s: Sender)
    requires GroupSize(s.enc.k)
  {
    && (forall i, j :: 0 <= j < i < |s.log| && IsSuspend(s.log[i]) ==> Below(s.log[j], s.log[i].c.boundary, s.enc.k))
    && (forall j :: 0 <= j < |s.log| && s.log[j].Par? ==> !Suspended(LastControl(s.log[..j])))
  }

  /** No group start is left among the numbers the encoder may still see. */
  predicate NoGroupLeft(s: Sender)
    requires GroupSize(s.enc.k)
  {
    forall b :: s.enc.lastSeq + 1 <= b < U32 ==> !Aligned(b, s.enc.k)
  }

  /** Every group start from r up to n was lost. */
  predicate LostBetween(lost: set<nat>, k: nat, r: nat, n: nat)
    requires GroupSize(k)
  {
    forall b :: r <= b < n && Aligned(b, k) ==> b in lost
  }

  /** What the encoder's mode says about the last control of the log. */
  predicate ModeTied(s: Sender)
    requires GroupSize(s.enc.k)
  {
    var e := s.enc;
    && e.control == LastControl(s.log)
    && (e.generation == 0 ==> e.control == None)
    && (Suspended(e.control) ==> !e.armed && (e.multipath ==> NoGroupLeft(s)))
    && (e.lastSeq == 0 ==> s.log == [] && e.generation == 0)
  }

  /** The last thing logged is a RESUME: its group is open, or every start since was lost. */
  predicate AfterResume(s: Sender)
    requires GroupSize(s.enc.k)
  {
    var e := s.enc;
    s.log != [] && IsResume(s.log[|s.log| - 1]) ==>
      var r := s.log[|s.log| - 1].c.boundary;
      && (e.multipath || e.lastSeq == U32 - 1)
      && (e.armed ==> e.open != [] && Aligned(e.open[0].n, e.k))
      && LostBetween(s.lost, e.k, r, Next(s))
  }

  /** Parities start at frames the encoder saw. */
  predicate StartsSeen(s: Sender) {
    && (forall n :: n in s.lost ==> n <= |s.sent|)
    && (forall n :: s.enc.lastSeq < n <= |s.sent| ==> n in s.lost)
    && (s.enc.open != [] ==> s.enc.open[0].n !in s.lost)
    && (forall j :: 0 <= j < |s.log| && s.log[j].Par? ==> s.log[j].start !in s.lost)
  }

  /** The first group after a RESUME is the first one from the boundary on whose start was not lost. */
  predicate FirstGroupAfter(log: seq<Item>, lost: set<nat>, k: nat)
    requires GroupSize(k)
  {
    forall m :: 0 <= m < |log| - 1 && IsResume(log[m]) && log[m + 1].Par? ==>
      && Aligned(log[m + 1].start, k)
      && log[m].c.boundary <= log[m + 1].start
      && LostBetween(lost, k, log[m].c.boundary, log[m + 1].start)
  }

  predicate NumbersInv(s: Sender) {
    Shape(s) && ParitiesBelowLimit(s) && ResumesRespected(s)
  }

  predicate BoundaryInv(s: Sender)
    requires GroupSize(s.enc.k)
  {
    AfterResume(s) && StartsSeen(s) && FirstGroupAfter(s.log, s.lost, s.enc.k)
  }

  predicate ModeInv(s: Sender) {
    NumbersInv(s) && SuspendsRespected(s) && ModeTied(s) && BoundaryInv(s)
  }

  lemma LastControlAppend(log: seq<Item>, x: Item)
    ensures LastControl(log + [x]) == if x.Ctl? then Some(x.c) else LastControl(log)
  {
    assert (log + [x])[..|log|] == log;
  }

  lemma PrefixUnchanged(log: seq<Item>, x: Item)
    ensures forall j :: 0 <= j <= |log| ==> (log + [x])[..j] == log[..j]
  {
  }

  // ---- a frame ----

  /** A frame that does not enter a group: single path, or still waiting for the boundary. */
  predicate Idle(s: Sender)
    requires GroupSize(s.enc.k)
  {
    !s.enc.multipath || (!s.enc.armed && !Aligned(|s.sent| + 1, s.enc.k))
  }

  lemma SendIdle(s: Sender, data: Bytes)
    requires Shape(s) && data != [] && |s.sent| < U32 - 1 && Idle(s)
    ensures Step(s, Send(data)) == s.(enc := s.enc.(lastSeq := |s.sent| + 1), sent := s.sent + [data])
    ensures s.enc.open == []
  {
  }

  lemma SendIdleKeeps(s: Sender, data: Bytes, t: Sender)
    requires ModeInv(s) && data != [] && |s.sent| < U32 - 1 && Idle(s) && s.enc.open == []
    requires t == s.(enc := s.enc.(lastSeq := |s.sent| + 1), sent := s.sent + [data])
    ensures ModeInv(t)
  {
    hide BoundaryInv, ModeTied, SuspendsRespected, NumbersInv;
    IdleNumbers(s, data, t);
    IdleBoundary(s, data, t);
  }

  lemma IdleNumbers(s: Sender, data: Bytes, t: Sender)
    requires NumbersInv(s) && SuspendsRespected(s) && ModeTied(s) && |s.sent| < U32 - 1 && Idle(s) && s.enc.open == []
    requires t == s.(enc := s.enc.(lastSeq := |s.sent| + 1), sent := s.sent + [data])
    ensures NumbersInv(t) && SuspendsRespected(t) && ModeTied(t)
  {
    hide Aligned, LastControl;
  }

  lemma IdleBoundary(s: Sender, data: Bytes, t: Sender)
    requires NumbersInv(s) && BoundaryInv(s) && |s.sent| < U32 - 1 && Idle(s) && s.enc.open == []
    requires t == s.(enc := s.enc.(lastSeq := |s.sent| + 1), sent := s.sent + [data])
    ensures BoundaryInv(t)
  {
    hide Aligned, LastControl, ParitiesBelowLimit;
    assert AfterResume(t);
  }

  /** A frame that enters a group: the limit moves only when the group is complete. */
  lemma SendJoin(s: Sender, data: Bytes) returns (t: Sender, f: VpnFrame)
    requires NumbersInv(s) && data != [] && |s.sent| < U32 - 1 && !Idle(s)
    ensures t == Step(s, Send(data)) && f == VpnFrame(|s.sent| + 1, data)
    ensures t.enc.armed && t.enc.multipath
    ensures Next(s) + |s.enc.open| <= f.n && Limit(s) <= Next(s)
    ensures |s.enc.open| + 1 < s.enc.k ==>
              t.log == s.log && t.enc.open == s.enc.open + [f] && t.enc.open[0].n == Next(s)
    ensures |s.enc.open| + 1 == s.enc.k ==>
              t.log == s.log + [Par(Next(s), Payloads(s.enc.open + [f]))] && t.enc.open == []
    ensures t.enc == s.enc.(open := t.enc.open, armed := true, lastSeq := f.n)
    ensures t.sent == s.sent + [data] && t.lost == s.lost
  {
    t := Step(s, Send(data));
    f := VpnFrame(|s.sent| + 1, data);
  }

  /** Arming at an aligned number reaches every announced boundary. */
  lemma ArmedPastResumes(s: Sender, m: int)
    requires NumbersInv(s) && !Idle(s) && 0 <= m < |s.log| && IsResume(s.log[m])
    ensures s.log[m].c.boundary <= Next(s)
  {
    var r := s.log[m].c.boundary;
    if !s.enc.armed && r > |s.sent| + 1 {
      AlignedApart(|s.sent| + 1, r, s.enc.k);
    }
  }

  lemma SendJoinNumbers(s: Sender, data: Bytes)
    requires NumbersInv(s) && data != [] && |s.sent| < U32 - 1 && !Idle(s)
    ensures NumbersInv(Step(s, Send(data)))
  {
    var t, f := SendJoin(s, data);
    forall m | 0 <= m < |s.log| && IsResume(s.log[m])
      ensures s.log[m].c.boundary <= Next(s)
    {
      ArmedPastResumes(s, m);
    }
    hide Step, Aligned;
    assert Shape(t) by { JoinShape(s, t, f); }
    JoinParities(s, t, f);
  }

  lemma JoinParities(s: Sender, t: Sender, f: VpnFrame)
    requires ParitiesBelowLimit(s) && Limit(s) <= Next(s) && Next(s) + |s.enc.open| <= f.n == t.enc.lastSeq && t.enc.k == s.enc.k > 1
    requires (t.log == s.log && t.enc.open != [] && t.enc.open[0].n == Next(s)) ||
             (t.enc.open == [] && |s.enc.open| + 1 == s.enc.k && exists d :: t.log == s.log + [Par(Next(s), d)])
    requires s.enc.open != [] ==> 1 <= s.enc.open[0].n
    ensures ParitiesBelowLimit(t)
  {
  }

  lemma JoinShape(s: Sender, t: Sender, f: VpnFrame)
    requires Shape(s) && f.n == |s.sent| + 1 < U32 && f.data != []
    requires t.enc == s.enc.(open := t.enc.open, armed := true, lastSeq := f.n) && t.enc.multipath && |t.sent| == |s.sent| + 1
    requires Next(s) + |s.enc.open| <= f.n
    requires |s.enc.open| + 1 < s.enc.k ==> t.enc.open == s.enc.open + [f] && t.enc.open[0].n == Next(s)
    requires |s.enc.open| + 1 == s.enc.k ==> t.enc.open == []
    ensures Shape(t)
  {
  }

  /** One more parity, below which nothing later was announced. */
  lemma ParityLogged(s: Sender, t: Sender, x: Item)
    requires GroupSize(s.enc.k) && SuspendsRespected(s) && s.enc.control == LastControl(s.log)
    requires x.Par? && t.log == s.log + [x] && !Suspended(s.enc.control) && t.enc.k == s.enc.k
    ensures SuspendsRespected(t) && LastControl(t.log) == LastControl(s.log)
  {
    hide LastControl, Below;
    LastControlAppend(s.log, x);
    PrefixUnchanged(s.log, x);
    assert t.log[..|s.log|] == s.log;
  }

  /** The group that opens after a RESUME starts where it should. */
  lemma JoinBoundary(s: Sender, t: Sender, f: VpnFrame)
    requires NumbersInv(s) && BoundaryInv(s) && !Idle(s) && f.n == |s.sent| + 1
    requires t.enc.k == s.enc.k && t.enc.armed && t.enc.multipath && t.lost == s.lost && |t.sent| == |s.sent| + 1 == t.enc.lastSeq
    requires forall m :: 0 <= m < |s.log| && IsResume(s.log[m]) ==> s.log[m].c.boundary <= Next(s)
    requires (t.log == s.log && t.enc.open == s.enc.open + [f]) ||
             (t.enc.open == [] && exists d :: t.log == s.log + [Par(Next(s), d)])
    ensures BoundaryInv(t)
  {
    hide Aligned, ParitiesBelowLimit, BoundaryInv;
    if t.enc.open == [] {
      var d :| t.log == s.log + [Par(Next(s), d)];
      CompleteBoundary(s, t, d);
    } else {
      OpenBoundary(s, t, f);
    }
  }

  lemma CompleteBoundary(s: Sender, t: Sender, d: seq<Bytes>)
    requires NumbersInv(s) && BoundaryInv(s) && !Idle(s)
    requires t.enc.k == s.enc.k && t.enc.armed && t.enc.multipath && t.lost == s.lost && |t.sent| == |s.sent| + 1 == t.enc.lastSeq
    requires forall m :: 0 <= m < |s.log| && IsResume(s.log[m]) ==> s.log[m].c.boundary <= Next(s)
    requires t.enc.open == [] && t.log == s.log + [Par(Next(s), d)]
    ensures BoundaryInv(t)
  {
    hide Aligned, ParitiesBelowLimit;
    assert t.log[|s.log|] == Par(Next(s), d);
  }

  lemma OpenBoundary(s: Sender, t: Sender, f: VpnFrame)
    requires NumbersInv(s) && BoundaryInv(s) && !Idle(s) && f.n == |s.sent| + 1
    requires t.enc.k == s.enc.k && t.enc.armed && t.enc.multipath && t.lost == s.lost && |t.sent| == |s.sent| + 1 == t.enc.lastSeq
    requires forall m :: 0 <= m < |s.log| && IsResume(s.log[m]) ==> s.log[m].c.boundary <= Next(s)
    requires t.log == s.log && t.enc.open == s.enc.open + [f]
    ensures BoundaryInv(t)
  {
    hide Aligned, ParitiesBelowLimit;
    assert t.enc.open[0].n == Next(s);
  }

  lemma SendJoinKeeps(s: Sender, data: Bytes)
    requires ModeInv(s) && data != [] && |s.sent| < U32 - 1 && !Idle(s)
    ensures ModeInv(Step(s, Send(data)))
  {
    SendJoinNumbers(s, data);
    var t, f := SendJoin(s, data);
    assert !Suspended(s.enc.control) by { NotSuspended(s); }
    forall m | 0 <= m < |s.log| && IsResume(s.log[m])
      ensures s.log[m].c.boundary <= Next(s)
    {
      ArmedPastResumes(s, m);
    }
    hide Step, Aligned, NumbersInv, SuspendsRespected, BoundaryInv;
    JoinBoundary(s, t, f);
    if |s.enc.open| + 1 == s.enc.k {
      ParityLogged(s, t, Par(Next(s), Payloads(s.enc.open + [f])));
    } else {
      assert SuspendsRespected(t) by { SameLogRespected(s, t); }
    }
  }

  lemma NotSuspended(s: Sender)
    requires ModeInv(s) && !Idle(s) && |s.sent| < U32 - 1
    ensures !Suspended(s.enc.control)
  {
    hide Aligned, LastControl;
  }

  lemma SameLogRespected(s: Sender, t: Sender)
    requires GroupSize(s.enc.k) && SuspendsRespected(s) && t.log == s.log && t.enc.k == s.enc.k
    ensures SuspendsRespected(t)
  {
  }

  lemma SendKeeps(s: Sender, data: Bytes)
    requires ModeInv(s)
    ensures ModeInv(Step(s, Send(data)))
  {
    if data == [] || |s.sent| >= U32 - 1 {
    } else if Idle(s) {
      SendIdle(s, data);
      SendIdleKeeps(s, data, Step(s, Send(data)));
    } else {
      SendJoinKeeps(s, data);
    }
  }

  // ---- a lost batch ----

  lemma LoseKeeps(s: Sender, batch: seq<Bytes>)
    requires ModeInv(s)
    ensures ModeInv(Step(s, Lose(batch)))
  {
    hide Aligned, LastControl, SuspendsRespected, BoundaryInv;
    var t := Step(s, Lose(batch));
    assert NumbersInv(t);
    assert SuspendsRespected(t) by { SameLogRespected(s, t); }
    LoseBoundary(s, t, |t.sent| - |s.sent|);
  }

  lemma LoseBoundary(s: Sender, t: Sender, c: nat)
    requires NumbersInv(s) && BoundaryInv(s) && t.enc == s.enc && t.log == s.log && |t.sent| == |s.sent| + c
    requires t.lost == s.lost + Numbers(|s.sent|, |s.sent| + c)
    ensures BoundaryInv(t)
  {
    hide Aligned, Numbers;
  }

  // ---- a change of the path count ----

  /** Only the encoder's mode changes on a path-count event; at most one control is logged. */
  predicate SameNumbers(s: Sender, t: Sender) {
    && t.sent == s.sent && t.lost == s.lost
    && t.enc.Valid()
    && t.enc.k == s.enc.k && t.enc.lastSeq == s.enc.lastSeq
    && t.enc.open == [] && !t.enc.armed
  }

  predicate NoControl(s: Sender, t: Sender) {
    t.log == s.log && t.enc.control == s.enc.control && t.enc.generation == s.enc.generation
  }

  predicate OneControl(s: Sender, t: Sender, op: Op) {
    && t.enc.control.Some? && t.enc.control.value.op == op && t.enc.generation > 0
    && t.log == s.log + [Ctl(t.enc.control.value, s.enc.lastSeq)]
  }

  /** Down to one path: the open group is abandoned and SUSPEND names the first group without parity. */
  predicate Suspends(s: Sender, t: Sender) {
    && SameNumbers(s, t)
    && !t.enc.multipath
    && if s.enc.lastSeq == 0 then NoControl(s, t)
       else if s.enc.lastSeq == U32 - 1 then (s.enc.open == [] && NoControl(s, t)) || OneControl(s, t, Suspend)
       else OneControl(s, t, Suspend)
  }

  predicate BoundaryAboveParities(log: seq<Item>, boundary: nat, k: nat)
    requires GroupSize(k)
  {
    forall j :: 0 <= j < |log| ==> Below(log[j], boundary, k)
  }

  /** The group of the next number starts above every complete group before it. */
  lemma StartAbove(x: Item, last: nat, k: nat)
    requires GroupSize(k) && (x.Par? ==> 1 <= x.start && x.start + k <= last + 1)
    ensures Below(x, GroupStart(last + 1, k), k)
  {
    if x.Par? && Aligned(x.start, k) {
      AlignedNext(x.start, k);
      if GroupStart(last + 1, k) < x.start + k {
        AlignedApart(GroupStart(last + 1, k), x.start + k, k);
      }
    }
  }

  lemma SuspendStep(s: Sender, count: int)
    requires NumbersInv(s) && s.enc.multipath && count < 2
    ensures Suspends(s, Step(s, Paths(count)))
    ensures var t := Step(s, Paths(count));
            OneControl(s, t, Suspend) ==> BoundaryAboveParities(s.log, t.enc.control.value.boundary, s.enc.k)
  {
    var t := Step(s, Paths(count));
    if OneControl(s, t, Suspend) && t.log != s.log {
      forall j | 0 <= j < |s.log| ensures Below(s.log[j], t.enc.control.value.boundary, s.enc.k) {
        StartAbove(s.log[j], s.enc.lastSeq, s.enc.k);
      }
    }
  }

  /** Logging a control leaves what is said about earlier items as it was. */
  lemma ControlLogged(s: Sender, t: Sender, op: Op)
    requires GroupSize(s.enc.k) && t.enc.k == s.enc.k
    requires SuspendsRespected(s) && s.enc.control == LastControl(s.log)
    requires NoControl(s, t) || OneControl(s, t, op)
    requires OneControl(s, t, Suspend) ==> BoundaryAboveParities(s.log, t.enc.control.value.boundary, s.enc.k)
    ensures SuspendsRespected(t) && t.enc.control == LastControl(t.log)
  {
    hide Below, LastControl;
    if t.log != s.log {
      var x := Ctl(t.enc.control.value, s.enc.lastSeq);
      LastControlAppend(s.log, x);
      PrefixUnchanged(s.log, x);
    }
  }

  lemma SuspendNumbers(s: Sender, t: Sender)
    requires NumbersInv(s) && SameNumbers(s, t) && (NoControl(s, t) || OneControl(s, t, Suspend))
    ensures NumbersInv(t)
  {
    hide Aligned;
  }

  lemma SuspendBoundary(s: Sender, t: Sender)
    requires NumbersInv(s) && BoundaryInv(s) && Suspends(s, t) && ModeTied(s)
    ensures BoundaryInv(t)
  {
    hide Aligned, LastControl;
  }

  lemma SuspendKeeps(s: Sender, t: Sender)
    requires ModeInv(s) && Suspends(s, t)
    requires OneControl(s, t, Suspend) ==> BoundaryAboveParities(s.log, t.enc.control.value.boundary, s.enc.k)
    ensures ModeInv(t)
  {
    hide Aligned, Below, LastControl, SuspendsRespected, BoundaryInv;
    SuspendNumbers(s, t);
    ControlLogged(s, t, Suspend);
    SuspendBoundary(s, t);
  }

  /** Back to several paths: RESUME names the next complete group. */
  predicate Resumes(s: Sender, t: Sender)
    requires GroupSize(s.enc.k)
  {
    && SameNumbers(s, t)
    && t.enc.multipath
    && if s.enc.generation == 0 || NoGroupLeft(s) then NoControl(s, t)
       else
         && OneControl(s, t, Resume)
         && Aligned(t.enc.control.value.boundary, s.enc.k)
         && s.enc.lastSeq < t.enc.control.value.boundary <= s.enc.lastSeq + s.enc.k
  }

  lemma ResumeStep(s: Sender, count: int)
    requires NumbersInv(s) && !s.enc.multipath && count >= 2
    ensures Resumes(s, Step(s, Paths(count)))
  {
  }

  lemma ResumeNumbers(s: Sender, t: Sender)
    requires NumbersInv(s) && !s.enc.multipath && Resumes(s, t)
    ensures NumbersInv(t)
  {
    hide Aligned, NoGroupLeft;
    assert s.enc.open == [] && Limit(t) == Limit(s);
  }

  lemma ResumeBoundary(s: Sender, t: Sender)
    requires NumbersInv(s) && BoundaryInv(s) && !s.enc.multipath && Resumes(s, t)
    ensures BoundaryInv(t)
  {
    hide Aligned, NoGroupLeft;
  }

  lemma ResumeKeeps(s: Sender, t: Sender)
    requires ModeInv(s) && !s.enc.multipath && Resumes(s, t)
    ensures ModeInv(t)
  {
    hide Aligned, LastControl, SuspendsRespected, BoundaryInv;
    ResumeNumbers(s, t);
    ControlLogged(s, t, Resume);
    ResumeBoundary(s, t);
  }

  lemma PathsKeeps(s: Sender, count: int)
    requires ModeInv(s)
    ensures ModeInv(Step(s, Paths(count)))
  {
    if (count >= 2) == s.enc.multipath {
    } else if count < 2 {
      SuspendStep(s, count);
      SuspendKeeps(s, Step(s, Paths(count)));
    } else {
      ResumeStep(s, count);
      ResumeKeeps(s, Step(s, Paths(count)));
    }
  }

  lemma {:induction false} RunKeeps(s: Sender, evs: seq<Event>, t: Sender)
    requires ModeInv(s) && Reaches(s, evs, t)
    ensures ModeInv(t)
    decreases |evs|
  {
    hide ModeInv, Step;
    if evs != [] {
      match evs[0] {
        case Paths(count) => PathsKeeps(s, count);
        case Send(data) => SendKeeps(s, data);
        case Lose(batch) => LoseKeeps(s, batch);
      }
      RunKeeps(Step(s, evs[0]), evs[1..], t);
    }
  }

  // ---- what the runs promise ----

  /** Group starts of the emitted parities strictly increase. */
  predicate ParitiesIncrease(log: seq<Item>) {
    forall i, j :: 0 <= i < j < |log| && log[i].Par? && log[j].Par? ==> log[i].start < log[j].start
  }

  /**
   A parity at or above a SUSPEND boundary is emitted only after a RESUME, and not
   below any RESUME boundary announced in between: the window
   [SUSPEND boundary, RESUME boundary) never gets a parity, before or after.
   */
  ghost predicate NoParityInWindow(log: seq<Item>) {
    forall i, j :: 0 <= i < |log| && IsSuspend(log[i]) && 0 <= j < |log| && log[j].Par?
                   && log[i].c.boundary <= log[j].start ==>
      && i < j
      && (exists m :: i < m < j && IsResume(log[m]))
      && (forall m :: i < m < j && IsResume(log[m]) ==> log[m].c.boundary <= log[j].start)
  }

  /** The first group after a RESUME starts at the announced boundary, unless that very frame was lost. */
  predicate FirstGroupAtBoundary(log: seq<Item>, lost: set<nat>) {
    forall m :: 0 <= m < |log| - 1 && IsResume(log[m]) && log[m + 1].Par? ==>
      && log[m].c.boundary <= log[m + 1].start
      && (log[m + 1].start == log[m].c.boundary <==> log[m].c.boundary !in lost)
  }

  lemma {:induction false} LastControlAt(log: seq<Item>, i: nat) returns (m: nat)
    requires i < |log| && log[i].Ctl?
    ensures i <= m < |log| && log[m].Ctl? && LastControl(log) == Some(log[m].c)
    decreases |log|
  {
    if log[|log| - 1].Ctl? {
      m := |log| - 1;
    } else {
      m := LastControlAt(log[..|log| - 1], i);
    }
  }

  lemma StartInv(k: int, ic: Cipher)
    ensures ModeInv(Start(k, ic))
  {
  }

  lemma EarlierIsBelow(t: Sender, i: nat, j: nat)
    requires GroupSize(t.enc.k) && SuspendsRespected(t) && j < i < |t.log| && IsSuspend(t.log[i])
    ensures Below(t.log[j], t.log[i].c.boundary, t.enc.k)
  {
    hide Below, LastControl;
  }

  lemma ParityAfterSuspend(t: Sender, i: nat, j: nat)
    requires ModeInv(t) && i < |t.log| && j < |t.log| && IsSuspend(t.log[i]) && t.log[j].Par? && t.log[i].c.boundary <= t.log[j].start
    ensures i < j && exists m :: i < m < j && IsResume(t.log[m])
  {
    hide NumbersInv, ModeTied, BoundaryInv, LastControl, Aligned;
    if j < i {
      EarlierIsBelow(t, i, j);
    }
    var m := LastControlAt(t.log[..j], i);
    assert IsResume(t.log[m]);
  }

  lemma WindowsAreFree(t: Sender)
    requires ModeInv(t)
    ensures NoParityInWindow(t.log)
  {
    hide Aligned, Shape, ModeTied, BoundaryInv, SuspendsRespected, ParitiesBelowLimit;
    forall i, j | 0 <= i < |t.log| && IsSuspend(t.log[i]) && 0 <= j < |t.log| && t.log[j].Par?
                  && t.log[i].c.boundary <= t.log[j].start
      ensures i < j && exists m :: i < m < j && IsResume(t.log[m])
    {
      ParityAfterSuspend(t, i, j);
    }
  }

  lemma BoundariesMet(t: Sender)
    requires ModeInv(t)
    ensures FirstGroupAtBoundary(t.log, t.lost)
  {
    hide Aligned, ModeTied, SuspendsRespected, ParitiesBelowLimit, AfterResume;
    forall m | 0 <= m < |t.log| - 1 && IsResume(t.log[m]) && t.log[m + 1].Par?
      ensures t.log[m + 1].start == t.log[m].c.boundary <==> t.log[m].c.boundary !in t.lost
    {
      assert Aligned(t.log[m].c.boundary, t.enc.k);
    }
  }

  /** The sender's mode machine, over every run of path-count changes, frames and losses. */
  lemma ModeMachine(k: int, ic: Cipher, evs: seq<Event>, t: Sender)
    requires Reaches(Start(k, ic), evs, t)
    ensures ParitiesIncrease(t.log)
    ensures FirstGroupAtBoundary(t.log, t.lost)
    ensures NoParityInWindow(t.log)
  {
    hide Reaches, SuspendsRespected, ModeTied, NoParityInWindow, Aligned, FirstGroupAtBoundary;
    StartInv(k, ic);
    RunKeeps(Start(k, ic), evs, t);
    WindowsAreFree(t);
    BoundariesMet(t);
  }

  lemma {:induction false} SameGroupSize(s: Sender, evs: seq<Event>, t: Sender)
    requires Reaches(s, evs, t)
    ensures t.enc.k == s.enc.k && t.enc.ic == s.enc.ic
    decreases |evs|
  {
    if evs != [] {
      SameGroupSize(Step(s, evs[0]), evs[1..], t);
    }
  }

  // ---- single steps, for concrete runs ----

  predicate Ready(s: Sender) {
    GroupSize(s.enc.k) && s.enc.lastSeq < U32
  }

  /** A frame outside any group, a frame that joins one, a frame that completes one. */
  lemma SendCases(s: Sender, x: Bytes)
    requires Ready(s) && x != [] && |s.sent| < U32 - 1
    ensures var n := |s.sent| + 1; var e := s.enc;
            && (!e.multipath || (!e.armed && !Aligned(n, e.k)) ==>
                  Step(s, Send(x)) == s.(enc := e.(lastSeq := n), sent := s.sent + [x]))
            && (e.multipath && (e.armed || Aligned(n, e.k)) && |e.open| + 1 < e.k ==>
                  Step(s, Send(x)) == s.(enc := e.(lastSeq := n, armed := true, open := e.open + [VpnFrame(n, x)]), sent := s.sent + [x]))
            && (e.multipath && e.armed && |e.open| + 1 == e.k ==>
                  Step(s, Send(x)) == s.(enc := e.(lastSeq := n, open := []), sent := s.sent + [x],
                                         log := s.log + [Par((e.open + [VpnFrame(n, x)])[0].n, Payloads(e.open + [VpnFrame(n, x)]))]))
  {
    hide ParityOf;
  }

  lemma SendJoins(s: Sender, x: Bytes)
    requires Ready(s) && x != [] && |s.sent| < U32 - 1 && s.enc.multipath && s.enc.armed && |s.enc.open| + 1 < s.enc.k
    ensures var n := |s.sent| + 1;
            Step(s, Send(x)) == s.(enc := s.enc.(lastSeq := n, open := s.enc.open + [VpnFrame(n, x)]), sent := s.sent + [x])
  {
    hide Step, Payloads;
    SendCases(s, x);
  }

  lemma SendCompletes(s: Sender, x: Bytes)
    requires Ready(s) && x != [] && |s.sent| < U32 - 1 && s.enc.multipath && s.enc.armed && |s.enc.open| + 1 == s.enc.k
    ensures var n := |s.sent| + 1; var fs := s.enc.open + [VpnFrame(n, x)];
            Step(s, Send(x)) ==
            s.(enc := s.enc.(lastSeq := n, open := []), sent := s.sent + [x], log := s.log + [Par(fs[0].n, Payloads(fs))])
  {
    hide Step, Payloads;
    SendCases(s, x);
  }

  /** Down between groups, and up again. */
  lemma PathsCases(s: Sender)
    requires Ready(s) && s.enc.open == [] && 0 < s.enc.lastSeq < U32 - 1 && s.enc.generation < U64 - 1
    ensures var n := s.enc.lastSeq + 1; var g := s.enc.generation + 1; var k := s.enc.k;
            && (s.enc.multipath ==>
                  var c := ModeControl(g, Suspend, GroupStart(n, k));
                  Step(s, Paths(1)) == s.(enc := s.enc.(multipath := false, armed := false, generation := g, control := Some(c)),
                                          log := s.log + [Ctl(c, s.enc.lastSeq)]))
            && (!s.enc.multipath && s.enc.generation > 0 && NextGroupStart(n, k) != 0 ==>
                  var c := ModeControl(g, Resume, NextGroupStart(n, k));
                  Step(s, Paths(2)) == s.(enc := s.enc.(multipath := true, armed := false, generation := g, control := Some(c)),
                                          log := s.log + [Ctl(c, s.enc.lastSeq)]))
  {
    hide GroupStart, NextGroupStart;
  }

  lemma {:induction false} OneMore(s: Sender, evs: seq<Event>, t: Sender, ev: Event)
    requires Reaches(s, evs, t) && Ready(t)
    ensures Reaches(s, evs + [ev], Step(t, ev))
    decreases |evs|
  {
    hide Step;
    if evs == [] {
      assert (evs + [ev])[1..] == [];
      assert Reaches(Step(t, ev), [], Step(t, ev));
    } else {
      assert (evs + [ev])[1..] == evs[1..] + [ev];
      OneMore(Step(s, evs[0]), evs[1..], t, ev);
    }
  }

  lemma NoEvents(s: Sender)
    ensures Reaches(s, [], s)
  {
  }
}
