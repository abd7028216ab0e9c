/**
 The mode fence across several streams.

 Each stream carries the current control ahead of the data dispatched on it, so
 controls overtake each other only between streams.  The receiver applies the
 newest control it has seen and lets data inside the bypass window skip the
 decoder.  The property: a data frame of a group that has, or will get, a parity
 is never bypassed, provided no SUSPEND is skipped while an older window is held.
 Without the proviso a RESUME stretches an old window; WindowSafeIff says exactly
 when that does harm.
 */
module FenceProtocol {
  import opened Xor
  import opened Wire
  import opened FecControl
  import opened SenderModes

  // ---- time stamps of the controls ----

  function Controls(log: seq<Item>): nat {
    if log == [] then 0 else Controls(log[..|log| - 1]) + if log[|log| - 1].Ctl? then 1 else 0
  }

  /** A control's boundary against the numbers the encoder had seen when it was published. */
  predicate Stamped(x: Item)
    requires x.Ctl?
  {
    && x.c.Valid()
    && (x.c.op == Suspend ==> x.c.boundary <= x.at + 1)
    && (x.c.op == Resume ==> x.at < x.c.boundary)
  }

  predicate StampsValid(log: seq<Item>, last: nat) {
    forall m :: 0 <= m < |log| && log[m].Ctl? ==> Stamped(log[m]) && log[m].at <= last
  }

  predicate StampsOrdered(log: seq<Item>, k: nat) {
    && (forall j, m :: 0 <= j < m < |log| && log[j].Par? && log[m].Ctl? ==> log[j].start + k <= log[m].at + 1)
    && (forall i, m :: 0 <= i < m < |log| && log[i].Ctl? && log[m].Ctl? ==>
          log[i].at <= log[m].at && log[i].c.generation < log[m].c.generation)
  }

  /** Control number g is the g-th one in the log. */
  predicate StampsCounted(log: seq<Item>) {
    forall m :: 0 <= m < |log| && log[m].Ctl? ==> log[m].c.generation == Controls(log[..m]) + 1
  }

  predicate Stamps(s: Sender) {
    && GroupSize(s.enc.k)
    && StampsValid(s.log, s.enc.lastSeq)
    && StampsOrdered(s.log, s.enc.k)
    && StampsCounted(s.log)
    && s.enc.generation == Controls(s.log)
  }

  lemma {:induction false} ControlsBound(log: seq<Item>)
    ensures Controls(log) <= |log|
  {
    if log != [] { ControlsBound(log[..|log| - 1]); }
  }

  lemma {:induction false} ControlsMonotone(log: seq<Item>, m: nat)
    requires m <= |log|
    ensures Controls(log[..m]) <= Controls(log)
    decreases |log|
  {
    if m < |log| {
      ControlsMonotone(log[..|log| - 1], m);
      assert log[..|log| - 1][..m] == log[..m];
    } else {
      assert log[..m] == log;
    }
  }

  lemma AppendControl(log: seq<Item>, x: Item)
    ensures Controls(log + [x]) == Controls(log) + if x.Ctl? then 1 else 0
    ensures forall m :: 0 <= m <= |log| ==> (log + [x])[..m] == log[..m]
  {
    assert (log + [x])[..|log|] == log;
  }

  /** A parity item keeps the stamps. */
  lemma StampParity(s: Sender, x: Item)
    requires Stamps(s) && x.Par?
    ensures StampsCounted(s.log + [x]) && StampsOrdered(s.log + [x], s.enc.k) && Controls(s.log + [x]) == Controls(s.log)
  {
    AppendControl(s.log, x);
  }

  lemma OlderControls(s: Sender, i: nat)
    requires Stamps(s) && i < |s.log| && s.log[i].Ctl?
    ensures s.log[i].c.generation <= s.enc.generation
  {
    hide Stamped;
    ControlsMonotone(s.log, i + 1);
    assert s.log[..i + 1][..i] == s.log[..i];
  }

  lemma StampControl(s: Sender, x: Item)
    requires Stamps(s) && ParitiesBelowLimit(s) && Limit(s) <= s.enc.lastSeq + 1 && x.Ctl? && Stamped(x)
    requires x.at == s.enc.lastSeq && x.c.generation == s.enc.generation + 1
    ensures StampsCounted(s.log + [x]) && StampsOrdered(s.log + [x], s.enc.k)
    ensures StampsValid(s.log + [x], s.enc.lastSeq) && Controls(s.log + [x]) == x.c.generation
  {
    hide Stamped, Controls;
    AppendControl(s.log, x);
    forall i | 0 <= i < |s.log| && s.log[i].Ctl?
      ensures s.log[i].c.generation < x.c.generation
    {
      OlderControls(s, i);
    }
  }

  /** The boundary a path-count change announces. */
  lemma PathsControl(s: Sender, count: int)
    requires NumbersInv(s) && Stamps(s) && |s.log| < U64 - 1
    ensures var t := Step(s, Paths(count));
            && t.sent == s.sent && t.enc.k == s.enc.k && t.enc.lastSeq == s.enc.lastSeq
            && ((t.log == s.log && t.enc.generation == s.enc.generation) ||
                exists x :: t.log == s.log + [x] && x.Ctl? && Stamped(x) && x.at == s.enc.lastSeq
                            && x.c.generation == s.enc.generation + 1 == t.enc.generation)
  {
    ControlsBound(s.log);
    var t := Step(s, Paths(count));
    if t.log != s.log {
      var x := Ctl(t.enc.control.value, s.enc.lastSeq);
      assert t.log == s.log + [x];
      assert Stamped(x);
    }
  }

  lemma PathsStamps(s: Sender, count: int)
    requires NumbersInv(s) && Stamps(s) && |s.log| < U64 - 1
    ensures Stamps(Step(s, Paths(count)))
  {
    PathsControl(s, count);
    var t := Step(s, Paths(count));
    if !(t.log == s.log && t.enc.generation == s.enc.generation) {
      var x :| t.log == s.log + [x] && x.Ctl? && Stamped(x) && x.at == s.enc.lastSeq
               && x.c.generation == s.enc.generation + 1 == t.enc.generation;
      hide Step, Stamped;
      assert Limit(s) <= s.enc.lastSeq + 1;
      StampControl(s, x);
    }
  }

  /** Sending numbers at most one frame and logs at most one parity. */
  lemma SendShape(s: Sender, data: Bytes)
    requires NumbersInv(s)
    ensures var t := Step(s, Send(data));
            && |s.sent| <= |t.sent| && s.enc.lastSeq <= t.enc.lastSeq
            && (|s.sent| < |t.sent| ==> t.enc.lastSeq == |t.sent|) && (|s.sent| == |t.sent| ==> t == s)
            && t.enc.k == s.enc.k && t.enc.generation == s.enc.generation && t.enc.control == s.enc.control
            && (t.log == s.log || (|t.log| == |s.log| + 1 && t.log == s.log + [t.log[|s.log|]] && t.log[|s.log|].Par?))
  {
  }

  lemma SendStamps(s: Sender, data: Bytes)
    requires NumbersInv(s) && Stamps(s)
    ensures Stamps(Step(s, Send(data)))
  {
    hide Step, Stamped, Controls;
    SendShape(s, data);
    var t := Step(s, Send(data));
    if t.log != s.log {
      StampParity(s, t.log[|s.log|]);
    }
  }

  lemma LoseStamps(s: Sender, batch: seq<Bytes>)
    requires NumbersInv(s) && Stamps(s)
    ensures Stamps(Step(s, Lose(batch)))
  {
    hide Stamped, Controls;
  }

  // ---- windows and parities in the sender's log ----

  /** A parity after a SUSPEND comes after a RESUME that reaches up to it. */
  lemma ResumeBetween(s: Sender, i: nat, j: nat) returns (x: nat)
    requires ModeInv(s) && i < j < |s.log| && IsSuspend(s.log[i]) && s.log[j].Par?
    ensures i < x < j && IsResume(s.log[x]) && s.log[x].c.boundary <= s.log[j].start
  {
    hide Aligned, ModeTied, BoundaryInv, ParitiesBelowLimit;
    x := LastControlAt(s.log[..j], i);
  }

  /**
   The window from SUSPEND number i up to a later RESUME number m covers an encoded
   group exactly when a parity was emitted between the two.
   */
  lemma WindowSafeIff(s: Sender, i: nat, m: nat)
    requires ModeInv(s) && Stamps(s) && i < m < |s.log| && IsSuspend(s.log[i]) && IsResume(s.log[m])
    ensures (exists j :: 0 <= j < |s.log| && s.log[j].Par? && s.log[i].c.boundary <= s.log[j].start < s.log[m].c.boundary)
            <==> (exists j :: i < j < m && s.log[j].Par?)
  {
    hide Aligned, ModeTied, LastControl, BoundaryInv;
    assert Stamped(s.log[i]) && Stamped(s.log[m]);
    forall j | 0 <= j < |s.log| && s.log[j].Par?
      ensures s.log[i].c.boundary <= s.log[j].start < s.log[m].c.boundary <==> i < j < m
    {
      if i < j < m {
        var x := ResumeBetween(s, i, j);
        assert Stamped(s.log[x]);
      } else if j < i {
        EarlierIsBelow(s, i, j);
      }
    }
  }

  // ---- generations of data frames ----

  /** The generation in force when frame n was dispatched. */
  function GenAt(log: seq<Item>, n: nat): nat {
    if log == [] then 0
    else if log[|log| - 1].Ctl? && log[|log| - 1].at < n then log[|log| - 1].c.generation
    else GenAt(log[..|log| - 1], n)
  }

  lemma {:induction false} GenAtLeast(log: seq<Item>, k: nat, x: nat, n: nat)
    requires StampsOrdered(log, k) && x < |log| && log[x].Ctl? && log[x].at < n
    ensures GenAt(log, n) >= log[x].c.generation
  {
    var last := |log| - 1;
    if x < last && !(log[last].Ctl? && log[last].at < n) {
      GenAtLeast(log[..last], k, x, n);
    }
  }

  /** Controls published later do not touch frames already numbered. */
  lemma GenAtStable(log: seq<Item>, y: Item, n: nat)
    requires y.Ctl? ==> n <= y.at
    ensures GenAt(log + [y], n) == GenAt(log, n)
  {
    assert (log + [y])[..|log|] == log;
  }

  lemma {:induction false} GenAtBound(s: Sender, log: seq<Item>, n: nat)
    requires Stamps(s) && log <= s.log
    ensures GenAt(log, n) <= s.enc.generation
  {
    if log != [] {
      var last := |log| - 1;
      if log[last].Ctl? && log[last].at < n {
        OlderControls(s, last);
      } else {
        GenAtBound(s, log[..last], n);
      }
    }
  }

  // ---- controls alternate ----

  predicate Resumed(c: Option<ModeControl>) {
    c.Some? && c.value.op == Resume
  }

  /** A RESUME never follows a RESUME, and the current control carries the current generation. */
  predicate Alternates(s: Sender) {
    && (forall m :: 0 <= m < |s.log| && IsResume(s.log[m]) ==> !Resumed(LastControl(s.log[..m])))
    && (Resumed(s.enc.control) && s.enc.lastSeq < U32 - 1 ==> s.enc.multipath)
    && (s.enc.generation > 0 ==> s.enc.control.Some? && s.enc.control.value.generation == s.enc.generation)
  }

  lemma AlternatesAppend(s: Sender, t: Sender, x: Item)
    requires Alternates(s) && t.log == s.log + [x] && (IsResume(x) ==> !Resumed(LastControl(s.log)))
    ensures forall m :: 0 <= m < |t.log| && IsResume(t.log[m]) ==> !Resumed(LastControl(t.log[..m]))
  {
    PrefixUnchanged(s.log, x);
    assert t.log[..|s.log|] == s.log;
  }

  lemma SendAlternates(s: Sender, data: Bytes)
    requires NumbersInv(s) && Alternates(s)
    ensures Alternates(Step(s, Send(data)))
  {
    SendShape(s, data);
    var t := Step(s, Send(data));
    if t.log != s.log {
      AlternatesAppend(s, t, t.log[|s.log|]);
    }
  }

  lemma PathsAlternates(s: Sender, count: int)
    requires ModeInv(s) && Stamps(s) && Alternates(s) && |s.log| < U64 - 1
    ensures Alternates(Step(s, Paths(count)))
  {
    ControlsBound(s.log);
    var t := Step(s, Paths(count));
    if t.log != s.log {
      AlternatesAppend(s, t, t.log[|s.log|]);
    }
  }

  /** Between a SUSPEND and the RESUME that ends it no parity is emitted. */
  lemma NoParityBetween(s: Sender, i: nat, m: nat, j: nat)
    requires ModeInv(s) && Alternates(s) && i < j < m < |s.log| && IsSuspend(s.log[i]) && IsResume(s.log[m])
    requires forall x :: i < x < m ==> !IsSuspend(s.log[x])
    ensures !s.log[j].Par?
  {
    hide NumbersInv, ModeTied;
    if s.log[j].Par? {
      var x := LastControlAt(s.log[..j], i);
      assert s.log[..j][x] == s.log[x];
      var y := LastControlAt(s.log[..m], x);
    }
  }

  // ---- the receiver's window ----

  predicate SuspendAt(log: seq<Item>, i: int, boundary: nat) {
    0 <= i < |log| && IsSuspend(log[i]) && log[i].c.boundary == boundary
  }

  /** RESUME number m ends the SUSPEND number i: no other SUSPEND lies between. */
  predicate ResumeOf(log: seq<Item>, i: nat, m: int, generation: nat, boundary: nat) {
    && i < m < |log| && IsResume(log[m])
    && log[m].c.generation == generation && log[m].c.boundary == boundary
    && forall x :: i < x < m ==> !IsSuspend(log[x])
  }

  ghost predicate Ended(log: seq<Item>, i: nat, f: Fence) {
    exists m :: ResumeOf(log, i, m, f.generation, f.until)
  }

  /** The window is that of the last SUSPEND applied, or runs from a SUSPEND to its own RESUME. */
  ghost predicate WindowOf(log: seq<Item>, i: int, f: Fence) {
    && SuspendAt(log, i, f.from)
    && if f.until == 0 then log[i].c.generation == f.generation else Ended(log, i, f)
  }

  ghost predicate WindowGood(log: seq<Item>, f: Fence) {
    f.from != 0 ==> exists i :: WindowOf(log, i, f)
  }

  /** The group at start never gets a parity: it has none, it is not open, and its first number is past. */
  predicate NeverEncoded(s: Sender, start: nat) {
    && start <= |s.sent|
    && (forall j :: 0 <= j < |s.log| && s.log[j].Par? ==> s.log[j].start != start)
    && (s.enc.open != [] ==> s.enc.open[0].n != start)
  }

  predicate Sound(s: Sender) {
    ModeInv(s) && Stamps(s) && Alternates(s)
  }

  /**
   While a group is open the current control, if there is one, is a RESUME.  Whatever window the receiver
   held before, applying it lets every number from the group's start on through to the decoder.
   */
  lemma ControlSparesOpen(s: Sender, f: Fence, n: nat)
    requires Sound(s) && s.enc.open != [] && n >= s.enc.open[0].n
    requires s.enc.control.Some? && f.generation < s.enc.control.value.generation
    ensures s.enc.control.value.op == Resume && !f.After(s.enc.control.value).Bypass(n)
  {
    hide BoundaryInv, SuspendsRespected, ParitiesBelowLimit, StampsOrdered, StampsCounted, Alternates, Aligned, Controls;
    var m := CurrentControlAt(s.log);
    assert Stamped(s.log[m]);
  }

  lemma {:induction false} CurrentControlAt(log: seq<Item>) returns (m: nat)
    requires LastControl(log).Some?
    ensures m < |log| && log[m].Ctl? && LastControl(log) == Some(log[m].c)
  {
    m := |log| - 1;
    if !log[m].Ctl? {
      m := CurrentControlAt(log[..m]);
    }
  }

  /** A RESUME whose boundary a frame has reached was in force when the frame was dispatched. */
  lemma ResumeInForce(s: Sender, x: nat, n: nat)
    requires Stamps(s) && x < |s.log| && IsResume(s.log[x]) && s.log[x].c.boundary <= n
    ensures s.log[x].c.generation <= GenAt(s.log, n)
  {
    assert Stamped(s.log[x]);
    GenAtLeast(s.log, s.enc.k, x, n);
  }

  /** Parities lie below every later SUSPEND boundary and not below any earlier RESUME boundary. */
  lemma ParityAroundControl(s: Sender, i: nat, j: nat)
    requires ModeInv(s) && i < |s.log| && j < |s.log| && s.log[i].Ctl? && s.log[j].Par?
    ensures j < i && IsSuspend(s.log[i]) ==> Below(s.log[j], s.log[i].c.boundary, s.enc.k)
    ensures i < j && IsResume(s.log[i]) ==> s.log[i].c.boundary <= s.log[j].start
  {
    hide ModeTied, BoundaryInv, ParitiesBelowLimit, Below;
  }

  lemma ControlsIncrease(s: Sender, i: nat, x: nat)
    requires Stamps(s) && i < x < |s.log| && s.log[i].Ctl? && s.log[x].Ctl?
    ensures s.log[i].c.generation < s.log[x].c.generation
  {
    hide StampsValid, StampsCounted;
  }

  /** No parity was emitted for a group whose member the window lets through. */
  lemma BypassedHasNoParity(s: Sender, f: Fence, i: nat, n: nat, j: nat)
    requires Sound(s) && WindowOf(s.log, i, f) && f.Bypass(n) && GenAt(s.log, n) <= f.generation
    requires GroupSize(s.enc.k) && j < |s.log| && s.log[j].Par?
    ensures s.log[j].start != GroupStart(n, s.enc.k)
  {
    hide GenAt, Aligned, ModeInv, Stamps, Alternates;
    ParityAroundControl(s, i, j);
    if i < j && s.log[j].start == GroupStart(n, s.enc.k) {
      var x := ResumeBetween(s, i, j);
      ResumeInForce(s, x, n);
      ControlsIncrease(s, i, x);
      if f.until != 0 {
        var m :| ResumeOf(s.log, i, m, f.generation, f.until);
        ParityAroundControl(s, m, j);
        if j < m {
          NoParityBetween(s, i, m, j);
        }
      }
    }
  }

  /** The open group is not one whose member the window lets through. */
  lemma BypassedIsNotOpen(s: Sender, f: Fence, i: nat, n: nat)
    requires Sound(s) && WindowOf(s.log, i, f) && f.Bypass(n) && GenAt(s.log, n) <= f.generation
    ensures s.enc.open != [] ==> s.enc.open[0].n != GroupStart(n, s.enc.k)
  {
    hide GenAt, Aligned;
    if s.enc.open != [] && s.enc.open[0].n == GroupStart(n, s.enc.k) {
      var x := LastControlAt(s.log, i);
      assert IsResume(s.log[x]) && s.log[x].c.boundary <= Limit(s);
      ResumeInForce(s, x, n);
    }
  }

  /** A frame dispatched under a generation the fence has seen is bypassed only outside encoded groups. */
  lemma BypassIsSafe(s: Sender, f: Fence, n: nat)
    requires Sound(s) && WindowGood(s.log, f) && f.Bypass(n) && n <= |s.sent|
    requires GenAt(s.log, n) <= f.generation
    ensures NeverEncoded(s, GroupStart(n, s.enc.k))
  {
    hide ModeInv, Stamps, Alternates, WindowOf, GenAt;
    assert GroupSize(s.enc.k) by { SoundSize(s); }
    var i :| WindowOf(s.log, i, f);
    assert 0 <= i by { WindowIndex(s.log, i, f); }
    forall j | 0 <= j < |s.log| && s.log[j].Par?
      ensures s.log[j].start != GroupStart(n, s.enc.k)
    {
      BypassedHasNoParity(s, f, i, n, j);
    }
    BypassedIsNotOpen(s, f, i, n);
  }

  lemma SoundSize(s: Sender)
    requires Sound(s)
    ensures GroupSize(s.enc.k) && s.enc.lastSeq <= |s.sent|
  {
  }

  lemma WindowIndex(log: seq<Item>, i: int, f: Fence)
    requires WindowOf(log, i, f)
    ensures 0 <= i < |log|
  {
  }

  // ---- applying a control ----

  /** The control was published by this sender. */
  ghost predicate Published(log: seq<Item>, c: ModeControl) {
    exists m :: 0 <= m < |log| && log[m].Ctl? && log[m].c == c
  }

  /** A RESUME that jumps over a SUSPEND while an older window is held. */
  ghost predicate Skips(log: seq<Item>, f: Fence, c: ModeControl) {
    && c.op == Resume && f.from != 0
    && exists x :: 0 <= x < |log| && IsSuspend(log[x]) && f.generation < log[x].c.generation < c.generation
  }

  lemma ResumeKeepsWindow(s: Sender, f: Fence, m: nat)
    requires Stamps(s) && WindowGood(s.log, f) && f.from != 0 && m < |s.log| && IsResume(s.log[m])
    requires s.log[m].c.generation > f.generation && !Skips(s.log, f, s.log[m].c)
    ensures WindowGood(s.log, Fence(s.log[m].c.generation, f.from, s.log[m].c.boundary))
  {
    hide Stamped, StampsCounted, Controls;
    var c := s.log[m].c;
    assert c.boundary != 0 by { assert Stamped(s.log[m]); StampedBoundary(s.log[m]); }
    var i :| WindowOf(s.log, i, f);
    var last := i;
    if f.until != 0 {
      last :| ResumeOf(s.log, i, last, f.generation, f.until);
    }
    assert s.log[last].c.generation == f.generation;
    assert i < m;
    forall x | i < x < m ensures !IsSuspend(s.log[x]) {
      assert IsSuspend(s.log[x]) ==> last < x;
    }
    var g := Fence(c.generation, f.from, c.boundary);
    assert ResumeOf(s.log, i, m, g.generation, g.until);
    assert WindowOf(s.log, i, g);
  }

  lemma StampedBoundary(x: Item)
    requires x.Ctl? && Stamped(x)
    ensures x.c.Valid()
  {
  }

  /** Applying a published control keeps the window good and never loses a generation. */
  lemma ApplyKeepsWindow(s: Sender, f: Fence, c: ModeControl)
    requires Stamps(s) && WindowGood(s.log, f) && Published(s.log, c) && !Skips(s.log, f, c)
    ensures WindowGood(s.log, f.After(c))
    ensures f.generation <= f.After(c).generation && c.generation <= f.After(c).generation
  {
    hide StampsOrdered, StampsCounted;
    var m :| 0 <= m < |s.log| && s.log[m].Ctl? && s.log[m].c == c;
    StampedBoundary(s.log[m]);
    var g := f.After(c);
    if c.generation > f.generation {
      if c.op == Suspend {
        assert WindowOf(s.log, m, g);
      } else if g.from != 0 {
        ResumeKeepsWindow(s, f, m);
      }
    }
  }

  // ---- what later events keep ----

  /** t comes after s: published controls, generations of frames seen and never-encoded groups stay. */
  ghost predicate Later(s: Sender, t: Sender) {
    && t.enc.k == s.enc.k
    && s.enc.lastSeq <= t.enc.lastSeq
    && s.log <= t.log
    && (forall n: nat :: n <= s.enc.lastSeq ==> GenAt(t.log, n) == GenAt(s.log, n))
    && (forall start: nat :: NeverEncoded(s, start) ==> NeverEncoded(t, start))
  }

  lemma LaterTransitive(s: Sender, t: Sender, u: Sender)
    requires Later(s, t) && Later(t, u)
    ensures Later(s, u)
  {
  }

  lemma SendLater(s: Sender, data: Bytes)
    requires NumbersInv(s)
    ensures Later(s, Step(s, Send(data)))
  {
    var t := Step(s, Send(data));
    SendShape(s, data);
    if t.log != s.log {
      forall n: nat ensures GenAt(t.log, n) == GenAt(s.log, n) {
        GenAtStable(s.log, t.log[|s.log|], n);
      }
    }
    forall start: nat | NeverEncoded(s, start) ensures NeverEncoded(t, start) {
      SendNeverEncoded(s, data, start);
    }
  }

  lemma SendNeverEncoded(s: Sender, data: Bytes, start: nat)
    requires NumbersInv(s) && NeverEncoded(s, start)
    ensures NeverEncoded(Step(s, Send(data)), start)
  {
    if data == [] || |s.sent| >= U32 - 1 {
    } else if Idle(s) {
      SendIdle(s, data);
    } else {
      var t, f := SendJoin(s, data);
    }
  }

  lemma PathsLater(s: Sender, count: int)
    requires NumbersInv(s) && Stamps(s) && |s.log| < U64 - 1
    ensures Later(s, Step(s, Paths(count)))
  {
    PathsControl(s, count);
    var t := Step(s, Paths(count));
    if t.log != s.log {
      var x := t.log[|s.log|];
      assert t.log == s.log + [x] && x.Ctl? && x.at == s.enc.lastSeq;
      forall n: nat | n <= s.enc.lastSeq ensures GenAt(t.log, n) == GenAt(s.log, n) {
        GenAtStable(s.log, x, n);
      }
    }
  }

  lemma LoseLater(s: Sender, batch: seq<Bytes>)
    requires NumbersInv(s)
    ensures Later(s, Step(s, Lose(batch)))
  {
    hide GenAt;
  }

  lemma LoseAlternates(s: Sender, batch: seq<Bytes>)
    requires NumbersInv(s) && Alternates(s)
    ensures Alternates(Step(s, Lose(batch)))
  {
    hide LastControl;
  }
}
