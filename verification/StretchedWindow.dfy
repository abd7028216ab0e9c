/**
 The mode fence without its proviso: a run of the whole protocol in which a RESUME
 overtakes the SUSPEND before it, and the receiver lets through a frame of a group
 that was encoded.  Groups have two members.
 */
module StretchedWindow {
  import opened Xor
  import opened Wire
  import opened FecControl
  import opened FecParity
  import opened FecEncoder
  import opened SenderModes
  import opened FenceRuns

  lemma {:induction false} OneMoreAction(net: Net, acts: seq<Action>, t: Net, a: Action)
    requires ReachesAnyhow(net, acts, t) && Enabled(t, a)
    ensures ReachesAnyhow(net, acts + [a], FenceRuns.Next(t, a))
    decreases |acts|
  {
    hide FenceRuns.Next, Enabled;
    if acts == [] {
      assert (acts + [a])[1..] == [];
      assert ReachesAnyhow(FenceRuns.Next(t, a), [], FenceRuns.Next(t, a));
    } else {
      assert (acts + [a])[1..] == acts[1..] + [a];
      OneMoreAction(FenceRuns.Next(net, acts[0]), acts[1..], t, a);
    }
  }

  lemma SendOne(s: Sender, x: Bytes)
    requires Ready(s)
    ensures Ready(Step(s, Send(x))) && SendAll(s, [x]) == Step(s, Send(x))
  {
    hide Step;
    SendReady(s, x);
    assert [x][1..] == [];
  }

  lemma SendTwo(s: Sender, x: Bytes)
    requires Ready(s)
    ensures Ready(Step(s, Send(x))) && SendAll(s, [x, x]) == Step(Step(s, Send(x)), Send(x))
  {
    hide Step;
    SendReady(s, x);
    assert [x, x][1..] == [x];
    SendOne(Step(s, Send(x)), x);
  }

  lemma SendThree(s: Sender, x: Bytes)
    requires Ready(s)
    ensures Ready(Step(s, Send(x))) && SendAll(s, [x, x, x]) == SendAll(Step(s, Send(x)), [x, x])
  {
    hide Step;
    SendReady(s, x);
    assert [x, x, x][1..] == [x, x];
  }

  lemma NextStart(n: nat, k: nat, b: nat)
    requires GroupSize(k) && 0 < n < U32 && Aligned(b, k) && n <= b < n + k && b < U32
    ensures NextGroupStart(n, k) == b
  {
    hide Aligned;
    var r := NextGroupStart(n, k);
    assert r != 0;
    if r < b { AlignedApart(r, b, k); }
    if b < r { AlignedApart(b, r, k); }
  }

  // ---- the sender, dispatch by dispatch ----

  const S1 := ModeControl(1, Suspend, 3)
  const R2 := ModeControl(2, Resume, 5)
  const S3 := ModeControl(3, Suspend, 7)
  const R4 := ModeControl(4, Resume, 9)

  /** What the rest of the run needs to know of the sender. */
  ghost predicate SenderIs(s: Sender, e: Encoder, sent: nat, log: seq<Item>) {
    s.enc == e && |s.sent| == sent && s.log == log
  }

  function Dispatched(s: Sender, paths: nat, batch: seq<Bytes>): Sender
    requires Ready(s)
  {
    PathsReady(s, paths);
    SendAll(Step(s, Paths(paths)), batch)
  }

  /** Two paths: frames 1 and 2 are a group. */
  lemma First(ic: Cipher, x: Bytes)
    requires x != []
    ensures SenderIs(Dispatched(Start(2, ic), 2, [x, x]), Encoder(2, ic, [], true, true, 2, 0, None), 2, [Par(1, [x, x])])
  {
    hide SendAll, ParityOf;
    var s := Start(2, ic);
    assert Step(s, Paths(2)) == s;
    hide Step;
    SendTwo(s, x);
    SendCases(s, x);
    var s1 := Step(s, Send(x));
    SendCases(s1, x);
    assert s1.enc.open == [VpnFrame(1, x)];
    assert Payloads([VpnFrame(1, x)] + [VpnFrame(2, x)]) == [x, x];
    assert [] + [Par(1, [x, x])] == [Par(1, [x, x])];
  }

  /** One path: SUSPEND at 3, and frame 3. */
  lemma Second(ic: Cipher, x: Bytes, s: Sender, log: seq<Item>)
    requires x != [] && SenderIs(s, Encoder(2, ic, [], true, true, 2, 0, None), 2, log)
    ensures SenderIs(Dispatched(s, 1, [x]), Encoder(2, ic, [], false, false, 3, 1, Some(S1)), 3, log + [Ctl(S1, 2)])
  {
    hide SendAll, ParityOf, Step, GroupStart, NextGroupStart;
    GroupStartUnique(3, 2, 3);
    PathsCases(s);
    SendOne(Step(s, Paths(1)), x);
    SendCases(Step(s, Paths(1)), x);
  }

  /** Two paths: RESUME at 5, frame 4 outside any group, frames 5 and 6 a group. */
  lemma Third(ic: Cipher, x: Bytes, s: Sender, log: seq<Item>)
    requires x != [] && SenderIs(s, Encoder(2, ic, [], false, false, 3, 1, Some(S1)), 3, log)
    ensures SenderIs(Dispatched(s, 2, [x, x, x]), Encoder(2, ic, [], true, true, 6, 2, Some(R2)), 6, log + [Ctl(R2, 3), Par(5, [x, x])])
  {
    hide SendAll, ParityOf, Step, GroupStart, NextGroupStart;
    NextStart(4, 2, 5);
    PathsCases(s);
    var s0 := Step(s, Paths(2));
    SendThree(s0, x);
    SendCases(s0, x);
    var s1 := Step(s0, Send(x));
    SendTwo(s1, x);
    SendCases(s1, x);
    var s2 := Step(s1, Send(x));
    SendCases(s2, x);
    assert Payloads(s2.enc.open + [VpnFrame(6, x)]) == [x, x];
    assert (s2.enc.open + [VpnFrame(6, x)])[0].n == 5;
  }

  /** One path: SUSPEND at 7, and frame 7. */
  lemma Fourth(ic: Cipher, x: Bytes, s: Sender, log: seq<Item>)
    requires x != [] && SenderIs(s, Encoder(2, ic, [], true, true, 6, 2, Some(R2)), 6, log)
    ensures SenderIs(Dispatched(s, 1, [x]), Encoder(2, ic, [], false, false, 7, 3, Some(S3)), 7, log + [Ctl(S3, 6)])
  {
    hide SendAll, ParityOf, Step, GroupStart, NextGroupStart;
    GroupStartUnique(7, 2, 7);
    PathsCases(s);
    SendOne(Step(s, Paths(1)), x);
    SendCases(Step(s, Paths(1)), x);
  }

  /** Two paths: RESUME at 9, and frame 8. */
  lemma Fifth(ic: Cipher, x: Bytes, s: Sender, log: seq<Item>)
    requires x != [] && SenderIs(s, Encoder(2, ic, [], false, false, 7, 3, Some(S3)), 7, log)
    ensures SenderIs(Dispatched(s, 2, [x]), Encoder(2, ic, [], true, false, 8, 4, Some(R4)), 8, log + [Ctl(R4, 7)])
  {
    hide SendAll, ParityOf, Step, GroupStart, NextGroupStart;
    NextStart(8, 2, 9);
    PathsCases(s);
    SendOne(Step(s, Paths(2)), x);
    SendCases(Step(s, Paths(2)), x);
  }

  // ---- the streams ----

  /** A dispatch on one stream, from a known sender to a known sender. */
  lemma DispatchOn(net: Net, paths: nat, batch: seq<Bytes>, to: nat)
    requires Enabled(net, Dispatch(paths, batch, Some(to))) && |Dispatched(net.sender, paths, batch).sent| > |net.sender.sent|
    ensures var t := Dispatched(net.sender, paths, batch);
            FenceRuns.Next(net, Dispatch(paths, batch, Some(to))) ==
            net.(sender := t, streams := net.streams[to := Queue(net.streams[to], t.enc, DataPackets(|net.sender.sent|, |t.sent|))])
  {
    hide SendAll, Step, Queue;
  }

  lemma NoActions(net: Net)
    ensures ReachesAnyhow(net, [], net)
  {
  }

  lemma Dispatching(o: Net, before: seq<Action>, net: Net, paths: nat, batch: seq<Bytes>, to: nat, data: seq<Packet>, st: Stream)
    returns (acts: seq<Action>, next: Net)
    requires ReachesAnyhow(o, before, net) && Enabled(net, Dispatch(paths, batch, Some(to)))
    requires var t := Dispatched(net.sender, paths, batch);
             |t.sent| > |net.sender.sent| && data == DataPackets(|net.sender.sent|, |t.sent|)
    requires var q := Queue(net.streams[to], Dispatched(net.sender, paths, batch).enc, data);
             q.packets == st.packets && q.read == st.read && q.fenceGen == st.fenceGen
    ensures ReachesAnyhow(o, acts, next)
    ensures next == net.(sender := Dispatched(net.sender, paths, batch), streams := net.streams[to := st])
  {
    hide SendAll, Step, Dispatched, ReachesAnyhow, Queue;
    var a := Dispatch(paths, batch, Some(to));
    OneMoreAction(o, before, net, a);
    DispatchOn(net, paths, batch, to);
    acts, next := before + [a], FenceRuns.Next(net, a);
  }

  /** Three streams, a group over both paths, and SUSPEND with frame 3 on the first stream. */
  lemma Suspended1(ic: Cipher, x: Bytes) returns (acts: seq<Action>, net: Net)
    requires x != []
    ensures ReachesAnyhow(Initial(2, ic), acts, net)
    ensures net.streams == [Stream([Data(1), Data(2), Control(S1), Data(3)], 0, 1), Stream([], 0, 0), Stream([], 0, 0)]
    ensures net.fence == ActiveFence && net.bypassed == []
    ensures SenderIs(net.sender, Encoder(2, ic, [], false, false, 3, 1, Some(S1)), 3, [Par(1, [x, x]), Ctl(S1, 2)])
  {
    hide SendAll, Step, Dispatched, ReachesAnyhow;
    var o := Initial(2, ic);
    acts, net := [], o;
    NoActions(o);
    OneMoreAction(o, acts, net, Open); acts, net := acts + [Open], FenceRuns.Next(net, Open);
    OneMoreAction(o, acts, net, Open); acts, net := acts + [Open], FenceRuns.Next(net, Open);
    OneMoreAction(o, acts, net, Open); acts, net := acts + [Open], FenceRuns.Next(net, Open);
    var none := Stream([], 0, 0);
    assert net == Net(Start(2, ic), [none, none, none], ActiveFence, []);
    First(ic, x);
    acts, net := Dispatching(o, acts, net, 2, [x, x], 0, [Data(1), Data(2)], Stream([Data(1), Data(2)], 0, 0));
    assert net.streams == [Stream([Data(1), Data(2)], 0, 0), none, none];
    Second(ic, x, net.sender, net.sender.log);
    acts, net := Dispatching(o, acts, net, 1, [x], 0, [Data(3)], Stream([Data(1), Data(2), Control(S1), Data(3)], 0, 1));
    assert net.streams == [Stream([Data(1), Data(2), Control(S1), Data(3)], 0, 1), none, none];
  }

  /** The controls that follow, and their frames, on the two other streams. */
  lemma AllDispatched(ic: Cipher, x: Bytes) returns (acts: seq<Action>, net: Net)
    requires x != []
    ensures ReachesAnyhow(Initial(2, ic), acts, net)
    ensures net.streams == [Stream([Data(1), Data(2), Control(S1), Data(3)], 0, 1),
                            Stream([Control(R2), Data(4), Data(5), Data(6), Control(S3), Data(7)], 0, 3),
                            Stream([Control(R4), Data(8)], 0, 4)]
    ensures net.fence == ActiveFence && net.bypassed == []
    ensures net.sender.enc.k == 2 && net.sender.enc.lastSeq == 8 && |net.sender.log| == 6 && net.sender.log[3] == Par(5, [x, x])
  {
    hide SendAll, Step, Dispatched, ReachesAnyhow;
    var o := Initial(2, ic);
    acts, net := Suspended1(ic, x);
    var s0, none := net.streams[0], Stream([], 0, 0);
    Third(ic, x, net.sender, net.sender.log);
    acts, net := Dispatching(o, acts, net, 2, [x, x, x], 1, [Data(4), Data(5), Data(6)],
                             Stream([Control(R2), Data(4), Data(5), Data(6)], 0, 2));
    assert net.streams == [s0, Stream([Control(R2), Data(4), Data(5), Data(6)], 0, 2), none];
    Fourth(ic, x, net.sender, net.sender.log);
    var s1 := Stream([Control(R2), Data(4), Data(5), Data(6), Control(S3), Data(7)], 0, 3);
    acts, net := Dispatching(o, acts, net, 1, [x], 1, [Data(7)], s1);
    assert net.streams == [s0, s1, none];
    Fifth(ic, x, net.sender, net.sender.log);
    acts, net := Dispatching(o, acts, net, 2, [x], 2, [Data(8)], Stream([Control(R4), Data(8)], 0, 4));
    assert net.streams == [s0, s1, Stream([Control(R4), Data(8)], 0, 4)];
  }

  // ---- the deliveries ----

  /** The next packet of a stream arrives. */
  lemma Delivering(o: Net, before: seq<Action>, net: Net, i: nat) returns (acts: seq<Action>, next: Net)
    requires ReachesAnyhow(o, before, net) && Enabled(net, Deliver(i))
    ensures ReachesAnyhow(o, acts, next)
    ensures var st := net.streams[i];
            next == Receive(net.(streams := net.streams[i := st.(read := st.read + 1)]), st.packets[st.read])
  {
    hide ReachesAnyhow, Receive;
    OneMoreAction(o, before, net, Deliver(i));
    acts, next := before + [Deliver(i)], FenceRuns.Next(net, Deliver(i));
  }

  /** SUSPEND 1 from the first stream, then RESUME 4 from the third. */
  lemma Overtaken(ic: Cipher, x: Bytes) returns (acts: seq<Action>, net: Net)
    requires x != []
    ensures ReachesAnyhow(Initial(2, ic), acts, net)
    ensures net.fence == Fence(4, 3, 9) && net.bypassed == [] && |net.streams| == 3
    ensures net.streams[1] == Stream([Control(R2), Data(4), Data(5), Data(6), Control(S3), Data(7)], 0, 3)
    ensures net.sender.enc.k == 2 && net.sender.enc.lastSeq == 8 && |net.sender.log| == 6 && net.sender.log[3] == Par(5, [x, x])
  {
    hide ReachesAnyhow;
    var o := Initial(2, ic);
    acts, net := AllDispatched(ic, x);
    acts, net := Delivering(o, acts, net, 0);
    acts, net := Delivering(o, acts, net, 0);
    acts, net := Delivering(o, acts, net, 0);
    assert net.fence == Fence(1, 3, 0);
    acts, net := Delivering(o, acts, net, 2);
  }

  /**
   Without the proviso the fence is unsafe: the receiver applied SUSPEND 1 and then RESUME 4,
   controls 2 and 3 still being on their way, and lets frame 5 through, whose group was encoded.
   */
  lemma SkippedSuspendStretches(ic: Cipher, x: Bytes) returns (acts: seq<Action>, net: Net)
    requires x != []
    ensures ReachesAnyhow(Initial(2, ic), acts, net)
    ensures 5 in net.bypassed && !Harmless(net.sender, 5)
  {
    hide ReachesAnyhow;
    var o := Initial(2, ic);
    acts, net := Overtaken(ic, x);
    acts, net := Delivering(o, acts, net, 1);
    acts, net := Delivering(o, acts, net, 1);
    acts, net := Delivering(o, acts, net, 1);
    assert net.bypassed == [4, 5];
    GroupStartUnique(5, 2, 5);
  }
}
