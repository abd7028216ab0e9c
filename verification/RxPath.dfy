/**
 The receive path of one session epoch: frames from any connection go through the
 FEC decoder and, together with what it reconstructs, into the reorder buffer;
 consecutive frames leave in chunks towards the interface.
 */
module RxPath {
  import opened Xor
  import opened FecControl
  import opened FecEncoder
  import opened GroupDecoder
  import opened DecoderSoundness
  import opened Reorder

  /**
   ready: in order, not yet handed over.  handed: the batches handed to the delivery
   queue, in order.  released: buffers given back to the pool.
   */
  datatype Rx = Rx(
    fec: Option<Decoder>, order: Reorder<VpnFrame>, ready: seq<VpnFrame>,
    handed: seq<seq<VpnFrame>>, released: multiset<VpnFrame>)
  {
    predicate Sane() {
      WindowSize(order.size) && (fec.Some? ==> GroupSize(fec.value.k) && |fec.value.done| == DONE_RING)
    }

    /** The decoder, if any, keeps its group size and key. */
    ghost predicate SameFec(s: Rx) {
      s.fec.Some? == fec.Some? && (fec.Some? ==> s.fec.value.k == fec.value.k && s.fec.value.ic == fec.value.ic)
    }

    /** One frame into the reorder buffer; number 0 is never inserted. */
    function Insert(f: VpnFrame): (s: Rx)
      requires Sane()
      ensures s.Sane() && s.fec == fec && s.handed == handed
    {
      var (o, out, gone) := order.Insert(f.n, f);
      this.(order := o, ready := ready + out, released := released + multiset(gone))
    }

    /** The original and the frame reconstructed with its help, lower number first. */
    function InsertPair(f: VpnFrame, rec: Option<VpnFrame>): (s: Rx)
      requires Sane()
      ensures s.Sane() && s.fec == fec && s.handed == handed
    {
      match rec
      case None => Insert(f)
      case Some(g) =>
        if g.n < f.n then Insert(g).Insert(f)
        else if g.n > f.n then Insert(f).Insert(g)
        else Insert(f).Release([g])
    }

    /** Hands the ordered frames to the delivery queue. */
    function Flush(): (s: Rx)
      ensures (Sane() ==> s.Sane()) && SameFec(s)
    {
      if ready == [] then this else this.(handed := handed + [ready], ready := [])
    }

    function Release(fs: seq<VpnFrame>): Rx {
      this.(released := released + multiset(fs))
    }

    function OnDataFrame(f: VpnFrame): (s: Rx)
      requires Sane()
      ensures s.Sane() && SameFec(s)
    {
      match fec
      case None => InsertPair(f, None)
      case Some(d) =>
        var (e, rec) := d.OnData(f.n, f.data, order.expected);
        this.(fec := Some(e)).InsertPair(f, rec)
    }

    /** A control frame; None when it is a protocol error. */
    function OnControlFrame(f: VpnFrame): (r: Option<Rx>)
      requires Sane()
      ensures r.Some? ==> r.value.Sane() && SameFec(r.value)
    {
      if fec.None? then None
      else
        match ParseControl(f.data)
        case Bad => None
        case ModeFrame(c) => Some(this.(fec := Some(fec.value.OnMode(c, order.expected))).Release([f]))
        case ParityFrame =>
          var (e, rec) := fec.value.OnParity(f.data, order.expected);
          var s := this.(fec := Some(e)).Release([f]);
          match rec
          case None => Some(s)
          case Some(g) => Some(s.Insert(g).Flush())
    }

    /** The first frame of a batch; None at a protocol error.  A run of data frames ends with a flush. */
    function First(fs: seq<VpnFrame>): (r: Option<Rx>)
      requires Sane() && fs != []
      ensures r.Some? ==> r.value.Sane() && SameFec(r.value)
    {
      if fs[0].n == 0 then OnControlFrame(fs[0])
      else
        var s := OnDataFrame(fs[0]);
        Some(if |fs| == 1 || fs[1].n == 0 then s.Flush() else s)
    }

    /** A batch of frames from one connection; the rest is released at the first protocol error. */
    function Process(fs: seq<VpnFrame>): (r: (Rx, bool))
      requires Sane()
      ensures r.0.Sane() && SameFec(r.0)
      decreases |fs|
    {
      if fs == [] then (this, true)
      else
        match First(fs)
        case None => (Release(fs), false)
        case Some(s) => s.Process(fs[1..])
    }

    /** A run of data frames, without the flush at its end. */
    function Feed(fs: seq<VpnFrame>): (s: Rx)
      requires Sane()
      ensures s.Sane() && SameFec(s)
      decreases |fs|
    {
      if fs == [] then this else OnDataFrame(fs[0]).Feed(fs[1..])
    }

    /** The gap timer fired. */
    function Expire(): Rx {
      if !order.gap then this
      else
        var (o, out) := order.Expire();
        this.(order := o, ready := ready + out).Flush()
    }
  }

  function NewRx(fec: Option<Decoder>): Rx {
    Rx(fec, Empty(), [], [], multiset{})
  }

  /** All frames that have left the reorder buffer, in the order they left. */
  function Log(s: Rx): seq<VpnFrame> {
    Concat(s.handed) + s.ready
  }

  function Concat(chunks: seq<seq<VpnFrame>>): seq<VpnFrame> {
    if chunks == [] then [] else Concat(chunks[..|chunks| - 1]) + chunks[|chunks| - 1]
  }

  // ---- the invariant ----

  predicate Increasing(fs: seq<VpnFrame>) {
    forall i, j :: 0 <= i < j < |fs| ==> fs[i].n < fs[j].n
  }

  /** Everything held, delivered or pending in the decoder is genuine, and the log is in order. */
  ghost predicate Inv(sent: seq<Bytes>, lost: set<nat>, s: Rx) {
    && Sendable(sent) && |sent| <= LAST_ORDERED
    && (s.fec.Some? ==> s.fec.value.Valid() && GenuineGroups(sent, lost, s.fec.value))
    && s.order.Valid()
    && HeldGenuine(sent, s.order.buffered)
    && LogGood(sent, Log(s), s.order.expected)
  }

  ghost predicate HeldGenuine(sent: seq<Bytes>, b: map<nat, VpnFrame>) {
    forall n :: n in b ==> b[n].n == n && GenuineFrame(sent, b[n])
  }

  ghost predicate LogGood(sent: seq<Bytes>, log: seq<VpnFrame>, expected: nat) {
    && Increasing(log)
    && forall i :: 0 <= i < |log| ==> GenuineFrame(sent, log[i]) && log[i].n < expected
  }

  /** What may arrive: data that was sent, and controls whose parities are genuine, rejected by their header or of no use. */
  ghost predicate Arrives(sent: seq<Bytes>, lost: set<nat>, s: Rx, f: VpnFrame)
    requires s.fec.Some? ==> GroupSize(s.fec.value.k)
  {
    if f.n > 0 then GenuineFrame(sent, f) && f.n !in lost
    else s.fec.Some? && ParseControl(f.data).ParityFrame? ==>
           GenuineInput(sent, lost, s.fec.value.k, s.fec.value.ic, ParityIn(f.data))
  }

  // ---- every step keeps it ----

  /** A run of held frames extends a good log. */
  lemma DeliveredGood(sent: seq<Bytes>, log: seq<VpnFrame>, expected: nat, b: map<nat, VpnFrame>, m: nat,
                      out: seq<VpnFrame>, o: Reorder<VpnFrame>)
    requires LogGood(sent, log, expected) && expected <= m && HeldGenuine(sent, b) && Delivers(b, m, out, o)
    ensures LogGood(sent, log + out, o.expected) && HeldGenuine(sent, o.buffered)
  {
    forall i | 0 <= i < |out|
      ensures out[i].n == m + i && GenuineFrame(sent, out[i])
    {
      assert FrameAt(b, m, out, i);
    }
  }

  lemma LogAppend(s: Rx, out: seq<VpnFrame>)
    ensures Log(s.(ready := s.ready + out)) == Log(s) + out
  {
  }

  lemma FlushLog(s: Rx)
    ensures Log(s.Flush()) == Log(s)
  {
    if s.ready != [] {
      assert (s.handed + [s.ready])[..|s.handed|] == s.handed;
    }
  }

  lemma FlushInv(sent: seq<Bytes>, lost: set<nat>, s: Rx)
    requires Inv(sent, lost, s)
    ensures Inv(sent, lost, s.Flush())
  {
    FlushLog(s);
  }

  lemma InsertInv(sent: seq<Bytes>, lost: set<nat>, s: Rx, f: VpnFrame)
    requires Inv(sent, lost, s) && s.Sane() && GenuineFrame(sent, f)
    ensures Inv(sent, lost, s.Insert(f))
  {
    hide Reorder<VpnFrame>.Insert, Decoder.Valid, GenuineGroups;
    var r := s.order;
    var (o, out, gone) := r.Insert(f.n, f);
    InsertValid(r, f.n, f);
    InsertEffect(r, f.n, f);
    LogAppend(s, out);
    var e := if r.expected == 0 then f.n else r.expected;
    assert LogGood(sent, Log(s), e);
    if FateOf(r, f.n).Due? {
      DeliveredGood(sent, Log(s), e, r.buffered[f.n := f], e, out, o);
    } else {
      assert Log(s) + [] == Log(s);
    }
  }

  lemma InsertPairInv(sent: seq<Bytes>, lost: set<nat>, s: Rx, f: VpnFrame, rec: Option<VpnFrame>)
    requires Inv(sent, lost, s) && s.Sane() && GenuineFrame(sent, f) && (rec.Some? ==> GenuineFrame(sent, rec.value))
    ensures Inv(sent, lost, s.InsertPair(f, rec))
  {
    hide Rx.Insert;
    match rec
    case None => InsertInv(sent, lost, s, f);
    case Some(g) =>
      if g.n < f.n {
        InsertInv(sent, lost, s, g);
        InsertInv(sent, lost, s.Insert(g), f);
      } else {
        InsertInv(sent, lost, s, f);
        if g.n > f.n {
          InsertInv(sent, lost, s.Insert(f), g);
        }
      }
  }

  lemma OnDataFrameInv(sent: seq<Bytes>, lost: set<nat>, s: Rx, f: VpnFrame)
    requires Inv(sent, lost, s) && s.Sane() && GenuineFrame(sent, f) && f.n !in lost
    ensures Inv(sent, lost, s.OnDataFrame(f))
  {
    hide Rx.InsertPair, Decoder.OnData, Decoder.Valid, GenuineGroups, Reorder<VpnFrame>.Valid;
    match s.fec
    case None => InsertPairInv(sent, lost, s, f, None);
    case Some(d) =>
      OnDataValid(d, f.n, f.data, s.order.expected);
      OnDataGenuine(sent, lost, d, f.n, f.data, s.order.expected);
      var (e, rec) := d.OnData(f.n, f.data, s.order.expected);
      assert Log(s.(fec := Some(e))) == Log(s);
      InsertPairInv(sent, lost, s.(fec := Some(e)), f, rec);
  }

  lemma OnControlFrameInv(sent: seq<Bytes>, lost: set<nat>, s: Rx, f: VpnFrame)
    requires Inv(sent, lost, s) && s.Sane() && Arrives(sent, lost, s, f) && f.n == 0
    ensures s.OnControlFrame(f).Some? ==> Inv(sent, lost, s.OnControlFrame(f).value)
  {
    hide Rx.Insert, Decoder.OnParity, Decoder.OnMode, Decoder.Valid, GenuineGroups, Reorder<VpnFrame>.Valid, GenuineInput;
    if s.fec.Some? {
      var d := s.fec.value;
      match ParseControl(f.data)
      case Bad =>
      case ModeFrame(c) =>
        OnModeValid(d, c, s.order.expected);
        ShrinksGenuine(sent, lost, d, d.OnMode(c, s.order.expected));
      case ParityFrame =>
        OnParityValid(d, f.data, s.order.expected);
        OnParityGenuine(sent, lost, d, f.data, s.order.expected);
        var (e, rec) := d.OnParity(f.data, s.order.expected);
        var t := s.(fec := Some(e)).Release([f]);
        assert Log(t) == Log(s);
        if rec.Some? {
          InsertInv(sent, lost, t, rec.value);
          FlushInv(sent, lost, t.Insert(rec.value));
        }
    }
  }

  lemma ExpireInv(sent: seq<Bytes>, lost: set<nat>, s: Rx)
    requires Inv(sent, lost, s)
    ensures Inv(sent, lost, s.Expire())
  {
    hide Reorder<VpnFrame>.Expire, Decoder.Valid, GenuineGroups;
    var r := s.order;
    var (o, out) := r.Expire();
    LogAppend(s, out);
    if r.gap {
      ExpireEffect(r);
      DeliveredGood(sent, Log(s), r.expected, r.buffered, r.expected + r.Skipped(), out, o);
      FlushInv(sent, lost, s.(order := o, ready := s.ready + out));
    }
  }

  ghost predicate AllArrive(sent: seq<Bytes>, lost: set<nat>, s: Rx, fs: seq<VpnFrame>)
    requires s.Sane()
  {
    forall i :: 0 <= i < |fs| ==> Arrives(sent, lost, s, fs[i])
  }

  lemma FirstInv(sent: seq<Bytes>, lost: set<nat>, s: Rx, fs: seq<VpnFrame>)
    requires Inv(sent, lost, s) && s.Sane() && fs != [] && Arrives(sent, lost, s, fs[0])
    ensures s.First(fs).Some? ==> Inv(sent, lost, s.First(fs).value)
  {
    hide Rx.OnDataFrame, Rx.OnControlFrame, Rx.Flush, Inv;
    if fs[0].n == 0 {
      OnControlFrameInv(sent, lost, s, fs[0]);
    } else {
      OnDataFrameInv(sent, lost, s, fs[0]);
      FlushInv(sent, lost, s.OnDataFrame(fs[0]));
    }
  }

  lemma {:induction false} ProcessInv(sent: seq<Bytes>, lost: set<nat>, s: Rx, fs: seq<VpnFrame>)
    requires Inv(sent, lost, s) && s.Sane() && AllArrive(sent, lost, s, fs)
    ensures Inv(sent, lost, s.Process(fs).0)
    decreases |fs|
  {
    hide Rx.First, GenuineInput, GenuineFrame, Decoder.Valid, GenuineGroups, Reorder<VpnFrame>.Valid;
    if fs != [] {
      FirstInv(sent, lost, s, fs);
      match s.First(fs)
      case None => assert Log(s.Release(fs)) == Log(s);
      case Some(t) =>
        assert AllArrive(sent, lost, t, fs[1..]) by {
          forall i | 0 <= i < |fs[1..]| ensures Arrives(sent, lost, t, fs[1..][i]) {
            assert Arrives(sent, lost, s, fs[i + 1]);
          }
        }
        ProcessInv(sent, lost, t, fs[1..]);
    }
  }

  /** A batch that starts with a maximal run of data frames: the run, one flush, then the rest. */
  lemma {:induction false} ProcessRun(s: Rx, fs: seq<VpnFrame>, m: nat)
    requires s.Sane() && 0 < m <= |fs| && (forall i :: 0 <= i < m ==> fs[i].n > 0) && (m < |fs| ==> fs[m].n == 0)
    ensures s.Process(fs) == s.Feed(fs[..m]).Flush().Process(fs[m..])
    decreases m
  {
    hide Rx.OnDataFrame, Rx.Flush, Rx.OnControlFrame;
    var t := s.OnDataFrame(fs[0]);
    if m == 1 {
      assert fs[..1][1..] == [];
      assert s.Feed(fs[..1]) == t.Feed([]);
      assert s.First(fs) == Some(t.Flush());
    } else {
      assert fs[..m][1..] == fs[1..][..m - 1] && fs[1..][m - 1..] == fs[m..];
      assert s.First(fs) == Some(t);
      ProcessRun(t, fs[1..], m - 1);
    }
  }

  lemma ReleaseAll(s: Rx, fs: seq<VpnFrame>)
    requires fs != []
    ensures s.Release([fs[0]]).Release(fs[1..]) == s.Release(fs)
  {
    assert fs == [fs[0]] + fs[1..];
  }
}
