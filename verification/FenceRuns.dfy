/**
 Runs of the mode fence: one sending port, any number of FIFO streams, one receiver.

 Batches are dispatched on some stream with the path count of the moment, dropped
 after the encoder saw them, or lost before it did, and the receiver reads the
 streams in any order and at any pace.  A stream whose rest is never read is gone.
 */
module FenceRuns {
  import opened Xor
  import opened Wire
  import opened FecControl
  import opened FecParity
  import opened FecEncoder
  import opened SenderModes
  import opened FenceProtocol

  datatype Packet = Control(c: ModeControl) | Data(n: nat)

  /** fenceGen is the latest control generation queued ahead of data on this stream. */
  datatype Stream = Stream(packets: seq<Packet>, read: nat, fenceGen: nat)

  /** bypassed lists the data frames the receiver let through without decoding. */
  datatype Net = Net(sender: Sender, streams: seq<Stream>, fence: Fence, bypassed: seq<nat>)

  datatype Action =
    | Open
    | Drop(batch: seq<Bytes>)                                     // no path: the encoder never sees it
    | Dispatch(paths: nat, batch: seq<Bytes>, to: Option<nat>)    // None: every queue was full
    | Deliver(from: nat)

  function Initial(k: int, ic: Cipher): Net {
    Net(Start(k, ic), [], ActiveFence, [])
  }

  lemma SendReady(s: Sender, data: Bytes)
    requires Ready(s)
    ensures Ready(Step(s, Send(data)))
  {
  }

  lemma PathsReady(s: Sender, count: int)
    requires Ready(s)
    ensures Ready(Step(s, Paths(count)))
  {
  }

  /** The encoder sees every frame of the batch. */
  function SendAll(s: Sender, batch: seq<Bytes>): Sender
    requires Ready(s)
    decreases |batch|
  {
    if batch == [] then s
    else
      SendReady(s, batch[0]);
      SendAll(Step(s, Send(batch[0])), batch[1..])
  }

  function DataPackets(lo: nat, hi: nat): (r: seq<Packet>)
    requires lo <= hi
    ensures |r| == hi - lo && forall p :: 0 <= p < |r| ==> r[p] == Data(lo + p + 1)
  {
    seq(hi - lo, p requires 0 <= p < hi - lo => Data(lo + p + 1))
  }

  /** The current control goes ahead of the data if the stream has not carried it yet. */
  function Fenced(st: Stream, e: Encoder): Stream {
    if e.control.Some? && st.fenceGen < e.control.value.generation then
      st.(packets := st.packets + [Control(e.control.value)], fenceGen := e.control.value.generation)
    else st
  }

  function Queue(st: Stream, e: Encoder, data: seq<Packet>): Stream {
    var f := Fenced(st, e);
    f.(packets := f.packets + data)
  }

  predicate Enabled(net: Net, a: Action) {
    && Ready(net.sender)
    && |net.sender.log| < U64 - 1
    && match a
       case Dispatch(paths, batch, to) => (to.Some? ==> to.value < |net.streams|)
       case Deliver(i) => i < |net.streams| && net.streams[i].read < |net.streams[i].packets|
       case _ => true
  }

  function Next(net: Net, a: Action): Net
    requires Enabled(net, a)
  {
    match a
    case Open => net.(streams := net.streams + [Stream([], 0, 0)])
    case Drop(batch) => net.(sender := Step(net.sender, Lose(batch)))
    case Dispatch(paths, batch, to) =>
      PathsReady(net.sender, paths);
      var t := SendAll(Step(net.sender, Paths(paths)), batch);
      if to.None? || |t.sent| <= |net.sender.sent| then net.(sender := t)
      else
        var st := Queue(net.streams[to.value], t.enc, DataPackets(|net.sender.sent|, |t.sent|));
        net.(sender := t, streams := net.streams[to.value := st])
    case Deliver(i) => Receive(net.(streams := net.streams[i := net.streams[i].(read := net.streams[i].read + 1)]),
                               net.streams[i].packets[net.streams[i].read])
  }

  function Receive(net: Net, p: Packet): Net {
    match p
    case Control(c) => net.(fence := net.fence.After(c))
    case Data(n) => if net.fence.Bypass(n) then net.(bypassed := net.bypassed + [n]) else net
  }

  /** The proviso: no SUSPEND is jumped over while an older window is held. */
  ghost predicate InOrder(net: Net, a: Action) {
    a.Deliver? && Enabled(net, a) ==>
      var p := net.streams[a.from].packets[net.streams[a.from].read];
      p.Control? ==> !Skips(net.sender.log, net.fence, p.c)
  }

  ghost predicate Reaches(net: Net, acts: seq<Action>, t: Net)
    decreases |acts|
  {
    if acts == [] then t == net
    else Enabled(net, acts[0]) && InOrder(net, acts[0]) && Reaches(Next(net, acts[0]), acts[1..], t)
  }

  /** A run without the proviso. */
  ghost predicate ReachesAnyhow(net: Net, acts: seq<Action>, t: Net)
    decreases |acts|
  {
    if acts == [] then t == net else Enabled(net, acts[0]) && ReachesAnyhow(Next(net, acts[0]), acts[1..], t)
  }

  // ---- the invariant ----

  /** The generation a stream has carried so far. */
  function Carried(packets: seq<Packet>): nat {
    if packets == [] then 0
    else if packets[|packets| - 1].Control? then packets[|packets| - 1].c.generation
    else Carried(packets[..|packets| - 1])
  }

  /** Each data frame is behind a control at least as new as the one in force when it was dispatched. */
  ghost predicate PacketGood(s: Sender, packets: seq<Packet>, p: nat)
    requires p < |packets|
  {
    match packets[p]
    case Control(c) => Published(s.log, c)
    case Data(n) => 0 < n <= s.enc.lastSeq && GenAt(s.log, n) <= Carried(packets[..p])
  }

  ghost predicate StreamGood(s: Sender, st: Stream) {
    && st.fenceGen == Carried(st.packets)
    && (forall p :: 0 <= p < |st.packets| ==> PacketGood(s, st.packets, p))
  }

  ghost predicate NetInv(net: Net) {
    && Sound(net.sender)
    && WindowGood(net.sender.log, net.fence)
    && (forall i :: 0 <= i < |net.streams| ==>
          && StreamGood(net.sender, net.streams[i])
          && net.streams[i].read <= |net.streams[i].packets|
          && Carried(net.streams[i].packets[..net.streams[i].read]) <= net.fence.generation)
    && (forall j :: 0 <= j < |net.bypassed| ==> Harmless(net.sender, net.bypassed[j]))
  }

  /** The frame's group never gets a parity. */
  predicate Harmless(s: Sender, n: nat) {
    GroupSize(s.enc.k) && NeverEncoded(s, GroupStart(n, s.enc.k))
  }

  lemma StreamLater(s: Sender, t: Sender, st: Stream)
    requires StreamGood(s, st) && Later(s, t)
    ensures StreamGood(t, st)
  {
    hide NeverEncoded;
    forall p | 0 <= p < |st.packets| ensures PacketGood(t, st.packets, p) {
      assert PacketGood(s, st.packets, p);
      if st.packets[p].Control? {
        PublishedLater(s.log, t.log, st.packets[p].c);
      }
    }
  }

  lemma PublishedLater(log: seq<Item>, more: seq<Item>, c: ModeControl)
    requires Published(log, c) && log <= more
    ensures Published(more, c)
  {
    var m :| 0 <= m < |log| && log[m].Ctl? && log[m].c == c;
    assert more[m] == log[m];
  }

  lemma WindowLater(log: seq<Item>, more: seq<Item>, f: Fence)
    requires WindowGood(log, f) && log <= more
    ensures WindowGood(more, f)
  {
    if f.from != 0 {
      var i :| WindowOf(log, i, f);
      if f.until != 0 {
        var m :| ResumeOf(log, i, m, f.generation, f.until);
        assert ResumeOf(more, i, m, f.generation, f.until);
      }
      assert WindowOf(more, i, f);
    }
  }

  /** Whatever the sender does next keeps what is known of streams, fence and bypassed frames. */
  lemma SenderMoves(net: Net, t: Sender)
    requires NetInv(net) && Sound(t) && Later(net.sender, t)
    ensures NetInv(net.(sender := t))
  {
    hide Sound, StreamGood, WindowGood, Carried, GenAt, NeverEncoded;
    WindowLater(net.sender.log, t.log, net.fence);
    forall i | 0 <= i < |net.streams| ensures StreamGood(t, net.streams[i]) {
      StreamLater(net.sender, t, net.streams[i]);
    }
  }

  lemma SendSound(s: Sender, data: Bytes)
    requires Sound(s)
    ensures Ready(s) && Sound(Step(s, Send(data))) && Later(s, Step(s, Send(data)))
    ensures var t := Step(s, Send(data));
            t.enc.generation == s.enc.generation && |s.sent| <= |t.sent| && (|s.sent| < |t.sent| ==> t.enc.lastSeq == |t.sent|)
            && (|s.sent| == |t.sent| ==> t == s)
  {
    SendKeeps(s, data);
    SendStamps(s, data);
    SendAlternates(s, data);
    SendLater(s, data);
    SendShape(s, data);
  }

  lemma {:induction false} SendAllSound(s: Sender, batch: seq<Bytes>)
    requires Sound(s)
    ensures Ready(s) && Sound(SendAll(s, batch)) && Later(s, SendAll(s, batch))
    ensures var t := SendAll(s, batch);
            t.enc.generation == s.enc.generation && |s.sent| <= |t.sent| && (|s.sent| < |t.sent| ==> t.enc.lastSeq == |t.sent|)
            && (|s.sent| == |t.sent| ==> t == s)
    decreases |batch|
  {
    hide Sound, Later, Step;
    assert Ready(s) by { SendSound(s, []); }
    if batch == [] {
      assert Later(s, s) by { LaterReflexive(s); }
    } else {
      SendSound(s, batch[0]);
      SendAllSound(Step(s, Send(batch[0])), batch[1..]);
      LaterTransitive(s, Step(s, Send(batch[0])), SendAll(s, batch));
    }
  }

  lemma LaterReflexive(s: Sender)
    ensures Later(s, s)
  {
  }

  lemma PathsSound(s: Sender, count: int)
    requires Sound(s) && |s.log| < U64 - 1
    ensures Ready(s) && Sound(Step(s, Paths(count))) && Later(s, Step(s, Paths(count)))
    ensures Step(s, Paths(count)).sent == s.sent
  {
    PathsKeeps(s, count);
    PathsStamps(s, count);
    PathsAlternates(s, count);
    PathsLater(s, count);
  }

  lemma LoseSound(s: Sender, batch: seq<Bytes>)
    requires Sound(s)
    ensures Ready(s) && Sound(Step(s, Lose(batch))) && Later(s, Step(s, Lose(batch)))
  {
    hide BoundaryInv, SuspendsRespected, StampsOrdered;
    LoseKeeps(s, batch);
    LoseStamps(s, batch);
    LoseAlternates(s, batch);
    LoseLater(s, batch);
  }

  lemma CarriedAppend(packets: seq<Packet>, p: Packet)
    ensures Carried(packets + [p]) == if p.Control? then p.c.generation else Carried(packets)
  {
    assert (packets + [p])[..|packets|] == packets;
  }

  lemma {:induction false} CarriedData(packets: seq<Packet>, data: seq<Packet>)
    requires forall p :: 0 <= p < |data| ==> data[p].Data?
    ensures Carried(packets + data) == Carried(packets)
  {
    if data == [] {
      assert packets + data == packets;
    } else {
      var init := data[..|data| - 1];
      assert packets + data == (packets + init) + [data[|data| - 1]];
      CarriedAppend(packets + init, data[|data| - 1]);
      CarriedData(packets, init);
    }
  }

  /** The control in force is published, and a stream never carries a newer one. */
  lemma FenceUpToDate(s: Sender, st: Stream)
    requires Sound(s) && StreamGood(s, st)
    ensures StreamGood(s, Fenced(st, s.enc))
    ensures s.enc.generation <= Fenced(st, s.enc).fenceGen
    ensures st.packets <= Fenced(st, s.enc).packets
  {
    hide NumbersInv, SuspendsRespected, StampsValid, StampsOrdered, StampsCounted, GenAt;
    if s.enc.control.Some? && st.fenceGen < s.enc.control.value.generation {
      var c := s.enc.control.value;
      var f := Fenced(st, s.enc);
      ControlPublished(s.log, c);
      CarriedAppend(st.packets, Control(c));
      forall p | 0 <= p < |f.packets| ensures PacketGood(s, f.packets, p) {
        if p < |st.packets| {
          assert PacketGood(s, st.packets, p);
          assert f.packets[..p] == st.packets[..p];
        }
      }
    }
  }

  lemma {:induction false} ControlPublished(log: seq<Item>, c: ModeControl)
    requires LastControl(log) == Some(c)
    ensures Published(log, c)
  {
    var last := |log| - 1;
    if !log[last].Ctl? {
      ControlPublished(log[..last], c);
      PublishedLater(log[..last], log, c);
    }
  }

  lemma DataQueued(s: Sender, st: Stream, lo: nat)
    requires Stamps(s) && StreamGood(s, st) && s.enc.generation <= st.fenceGen && lo <= |s.sent| == s.enc.lastSeq
    ensures StreamGood(s, st.(packets := st.packets + DataPackets(lo, |s.sent|)))
  {
    hide Stamps, GenAt, Carried;
    var data := DataPackets(lo, |s.sent|);
    var f := st.(packets := st.packets + data);
    CarriedData(st.packets, data);
    forall p | 0 <= p < |f.packets| ensures PacketGood(s, f.packets, p) {
      if p < |st.packets| {
        assert PacketGood(s, st.packets, p);
        assert f.packets[..p] == st.packets[..p];
      } else {
        assert f.packets[..p] == st.packets + data[..p - |st.packets|];
        CarriedData(st.packets, data[..p - |st.packets|]);
        GenAtBound(s, s.log, lo + (p - |st.packets|) + 1);
      }
    }
  }

  lemma QueueKeeps(net: Net, i: nat, lo: nat)
    requires NetInv(net) && i < |net.streams| && lo <= |net.sender.sent| == net.sender.enc.lastSeq
    ensures var st := Queue(net.streams[i], net.sender.enc, DataPackets(lo, |net.sender.sent|));
            NetInv(net.(streams := net.streams[i := st]))
  {
    hide StreamGood, WindowGood, Carried, GenAt, NeverEncoded, ModeInv, Alternates, Stamps, Fenced;
    var st := net.streams[i];
    FenceUpToDate(net.sender, st);
    DataQueued(net.sender, Fenced(st, net.sender.enc), lo);
    var q := Queue(st, net.sender.enc, DataPackets(lo, |net.sender.sent|));
    assert q.read == st.read by { FencedRead(st, net.sender.enc); }
    assert q.packets[..st.read] == st.packets[..st.read];
  }

  lemma FencedRead(st: Stream, e: Encoder)
    ensures Fenced(st, e).read == st.read
  {
  }

  lemma DeliverKeeps(net: Net, i: nat)
    requires NetInv(net) && Enabled(net, Deliver(i)) && InOrder(net, Deliver(i))
    ensures NetInv(Next(net, Deliver(i)))
  {
    hide GenAt, NeverEncoded, WindowGood, Sound, Skips, Ready, Carried, StreamGood;
    var st := net.streams[i];
    var p := st.packets[st.read];
    assert PacketGood(net.sender, st.packets, st.read) by { GoodAt(net.sender, st, st.read); }
    assert st.packets[..st.read + 1] == st.packets[..st.read] + [p];
    CarriedAppend(st.packets[..st.read], p);
    assert StreamGood(net.sender, st.(read := st.read + 1)) by { ReadGood(net.sender, st); }
    if p.Control? {
      SoundParts(net.sender);
      ApplyKeepsWindow(net.sender, net.fence, p.c);
    } else if net.fence.Bypass(p.n) {
      SoundSize(net.sender);
      BypassIsSafe(net.sender, net.fence, p.n);
    }
  }

  lemma GoodAt(s: Sender, st: Stream, p: nat)
    requires StreamGood(s, st) && p < |st.packets|
    ensures PacketGood(s, st.packets, p)
  {
  }

  lemma ReadGood(s: Sender, st: Stream)
    requires StreamGood(s, st)
    ensures StreamGood(s, st.(read := st.read + 1))
  {
  }

  lemma SoundParts(s: Sender)
    requires Sound(s)
    ensures Stamps(s)
  {
  }

  lemma StepKeeps(net: Net, a: Action)
    requires NetInv(net) && Enabled(net, a) && InOrder(net, a)
    ensures NetInv(Next(net, a))
  {
    hide Sound, WindowGood, StreamGood, NeverEncoded, Later, Step, Queue;
    match a {
      case Open =>
        assert StreamGood(net.sender, Stream([], 0, 0)) by { EmptyGood(net.sender); }
      case Drop(batch) =>
        LoseSound(net.sender, batch);
        SenderMoves(net, Step(net.sender, Lose(batch)));
      case Dispatch(paths, batch, to) =>
        PathsSound(net.sender, paths);
        var p := Step(net.sender, Paths(paths));
        SenderMoves(net, p);
        SendAllSound(p, batch);
        var t := SendAll(p, batch);
        SenderMoves(net.(sender := p), t);
        if to.Some? && |t.sent| > |net.sender.sent| {
          QueueKeeps(net.(sender := t), to.value, |net.sender.sent|);
        }
      case Deliver(i) => DeliverKeeps(net, i);
    }
  }

  lemma EmptyGood(s: Sender)
    ensures StreamGood(s, Stream([], 0, 0))
  {
  }

  lemma {:induction false} RunKeepsNet(net: Net, acts: seq<Action>, t: Net)
    requires NetInv(net) && Reaches(net, acts, t)
    ensures NetInv(t)
    decreases |acts|
  {
    hide NetInv, Enabled, InOrder, Next;
    if acts != [] {
      StepKeeps(net, acts[0]);
      RunKeepsNet(Next(net, acts[0]), acts[1..], t);
    }
  }

  lemma InitialInv(k: int, ic: Cipher)
    ensures NetInv(Initial(k, ic))
  {
    hide Sound, StreamGood, Harmless, Start;
    StartIsSound(k, ic);
  }

  lemma StartIsSound(k: int, ic: Cipher)
    ensures Sound(Start(k, ic))
  {
    hide ModeInv, Stamps, Alternates;
    StartInv(k, ic);
    StartIsStamped(k, ic);
  }

  lemma StartIsStamped(k: int, ic: Cipher)
    ensures Stamps(Start(k, ic)) && Alternates(Start(k, ic))
  {
  }

  /**
   Fence safety, over every run: a data frame the receiver let through without
   decoding belongs to a group that has no parity and never gets one.
   */
  lemma FenceSafety(k: int, ic: Cipher, acts: seq<Action>, t: Net)
    requires Reaches(Initial(k, ic), acts, t)
    ensures forall j :: 0 <= j < |t.bypassed| ==> Harmless(t.sender, t.bypassed[j])
  {
    InitialInv(k, ic);
    hide Reaches, Sound, WindowGood, StreamGood, Harmless;
    RunKeepsNet(Initial(k, ic), acts, t);
  }

  // ---- the streams alone, whatever order the receiver reads them in ----

  ghost predicate StreamsGood(net: Net) {
    Sound(net.sender) && forall i :: 0 <= i < |net.streams| ==> StreamGood(net.sender, net.streams[i])
  }

  lemma StreamsLater(net: Net, t: Sender)
    requires StreamsGood(net) && Sound(t) && Later(net.sender, t)
    ensures StreamsGood(net.(sender := t))
  {
    hide Sound, StreamGood, Later;
    forall i | 0 <= i < |net.streams| ensures StreamGood(t, net.streams[i]) {
      StreamLater(net.sender, t, net.streams[i]);
    }
  }

  lemma DispatchStreams(net: Net, paths: nat, batch: seq<Bytes>, to: Option<nat>)
    requires StreamsGood(net) && Enabled(net, Dispatch(paths, batch, to))
    ensures StreamsGood(Next(net, Dispatch(paths, batch, to)))
  {
    hide Sound, StreamGood, Later, Step, Queue, SendAll;
    PathsSound(net.sender, paths);
    var p := Step(net.sender, Paths(paths));
    SendAllSound(p, batch);
    var t := SendAll(p, batch);
    StreamsLater(net, p);
    StreamsLater(net.(sender := p), t);
    if to.Some? && |t.sent| > |net.sender.sent| {
      QueuedGood(t, net.streams[to.value], |net.sender.sent|);
    }
  }

  lemma QueuedGood(s: Sender, st: Stream, lo: nat)
    requires Sound(s) && StreamGood(s, st) && lo <= |s.sent| == s.enc.lastSeq
    ensures StreamGood(s, Queue(st, s.enc, DataPackets(lo, |s.sent|)))
  {
    hide Sound, StreamGood, Fenced;
    FenceUpToDate(s, st);
    SoundParts(s);
    DataQueued(s, Fenced(st, s.enc), lo);
  }

  lemma StepKeepsStreams(net: Net, a: Action)
    requires StreamsGood(net) && Enabled(net, a)
    ensures StreamsGood(Next(net, a))
  {
    hide Sound, StreamGood, Later, Step, SendAll, Queue;
    match a {
      case Open => EmptyGood(net.sender);
      case Drop(batch) =>
        LoseSound(net.sender, batch);
        StreamsLater(net, Step(net.sender, Lose(batch)));
      case Dispatch(paths, batch, to) => DispatchStreams(net, paths, batch, to);
      case Deliver(i) => ReadGood(net.sender, net.streams[i]);
    }
  }

  lemma {:induction false} RunKeepsStreams(net: Net, acts: seq<Action>, t: Net)
    requires StreamsGood(net) && ReachesAnyhow(net, acts, t)
    ensures StreamsGood(t)
    decreases |acts|
  {
    hide StreamsGood, Enabled, Next;
    if acts != [] {
      StepKeepsStreams(net, acts[0]);
      RunKeepsStreams(Next(net, acts[0]), acts[1..], t);
    }
  }

  /**
   Every data frame on a stream follows a control at least as new as the one in force at its dispatch,
   over every run: nothing is asked of the order in which the receiver reads.
   */
  lemma FenceBeforeData(k: int, ic: Cipher, acts: seq<Action>, t: Net, i: nat, p: nat)
    requires ReachesAnyhow(Initial(k, ic), acts, t) && i < |t.streams| && p < |t.streams[i].packets| && t.streams[i].packets[p].Data?
    ensures GenAt(t.sender.log, t.streams[i].packets[p].n) <= Carried(t.streams[i].packets[..p])
  {
    InitialInv(k, ic);
    hide ReachesAnyhow, Sound, GenAt, Carried;
    RunKeepsStreams(Initial(k, ic), acts, t);
    assert StreamGood(t.sender, t.streams[i]);
    assert PacketGood(t.sender, t.streams[i].packets, p);
  }
}
