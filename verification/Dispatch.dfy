/**
 Handing batches to the backends: one backend takes the whole batch, or every
 payload is given back once.  A backend's writer drains its queue meanwhile.
 */
module Dispatch {
  import opened Xor
  import opened Wire
  import opened FecControl
  import opened FecEncoder

  /** The frames of one dispatch, behind the mode control they may need. */
  datatype Batch = Batch(fence: Option<ModeControl>, frames: seq<VpnFrame>)

  function PayloadBytes(fs: seq<VpnFrame>): nat {
    if fs == [] then 0 else PayloadBytes(fs[..|fs| - 1]) + |fs[|fs| - 1].data|
  }

  function Size(b: Batch): nat {
    PayloadBytes(b.frames) + if b.fence.Some? then CONTROL_LEN else 0
  }

  function TotalSize(bs: seq<Batch>): nat {
    if bs == [] then 0 else TotalSize(bs[..|bs| - 1]) + Size(bs[|bs| - 1])
  }

  lemma {:induction false} TotalSizeConcat(a: seq<Batch>, b: seq<Batch>)
    ensures TotalSize(a + b) == TotalSize(a) + TotalSize(b)
  {
    hide Size;
    if b == [] {
      assert a + b == a;
    } else {
      assert (a + b)[..|a + b| - 1] == a + b[..|b| - 1];
      TotalSizeConcat(a, b[..|b| - 1]);
    }
  }

  /** A queued batch, with the control generation current when it was dispatched. */
  datatype Entry = Entry(batch: Batch, current: nat)

  function Batches(es: seq<Entry>): (bs: seq<Batch>)
    ensures |bs| == |es| && forall i :: 0 <= i < |es| ==> bs[i] == es[i].batch
  {
    seq(|es|, i requires 0 <= i < |es| => es[i].batch)
  }

  /** The generation of the last control queued. */
  function Carried(es: seq<Entry>): nat {
    if es == [] then 0
    else if es[|es| - 1].batch.fence.Some? then es[|es| - 1].batch.fence.value.generation
    else Carried(es[..|es| - 1])
  }

  /** Every data batch is preceded by a control at least as new as the one current at its dispatch. */
  predicate FenceFirst(es: seq<Entry>) {
    forall k :: 0 <= k < |es| ==> es[k].current <= Carried(es[..k + 1])
  }

  lemma FenceFirstAppend(es: seq<Entry>, e: Entry)
    requires FenceFirst(es)
    ensures Carried(es + [e]) == if e.batch.fence.Some? then e.batch.fence.value.generation else Carried(es)
    ensures e.current <= Carried(es + [e]) ==> FenceFirst(es + [e])
  {
    assert (es + [e])[..|es|] == es;
    forall k | 0 <= k < |es| ensures (es + [e])[k].current <= Carried((es + [e])[..k + 1]) {
      assert (es + [e])[..k + 1] == es[..k + 1];
    }
    assert (es + [e])[..|es| + 1] == es + [e];
  }

  /** One more entry in what was accepted is one more batch in the queue. */
  lemma OneMoreBatch(es: seq<Entry>, e: Entry, before: seq<Batch>, queue: seq<Batch>)
    requires Batches(es) == before + queue
    ensures Batches(es + [e]) == before + (queue + [e.batch])
    ensures TotalSize(queue + [e.batch]) == TotalSize(queue) + Size(e.batch)
  {
    hide PayloadBytes;
    TotalSizeConcat(queue, [e.batch]);
    assert TotalSize([e.batch]) == Size(e.batch);
    assert Batches(es + [e]) == Batches(es) + [e.batch];
  }

  class Backend {
    const capacity: nat
    var queue: seq<Batch>
    var held: seq<Batch>     // taken by the writer, not yet on the wire
    var queuedBytes: nat
    var fenceGen: nat
    ghost var accepted: seq<Entry>
    ghost var written: seq<Batch>

    /** queuedBytes is exactly what is queued and held, and nothing accepted is lost or reordered. */
    ghost predicate Valid()
      reads this
    {
      && |queue| <= capacity
      && queuedBytes == TotalSize(held) + TotalSize(queue)
      && Batches(accepted) == written + held + queue
      && fenceGen == Carried(accepted)
      && FenceFirst(accepted)
    }

    predicate HasRoom()
      reads this
    {
      |queue| < capacity
    }

    constructor (room: nat)
      ensures Valid() && capacity == room && accepted == [] && queue == [] && held == []
    {
      capacity := room;
      queue, held, queuedBytes, fenceGen := [], [], 0, 0;
      accepted, written := [], [];
    }

    method AddQueuedBytes(n: nat)
      modifies this`queuedBytes
      ensures queuedBytes == old(queuedBytes) + n
    {
      queuedBytes := queuedBytes + n;
    }

    /** Saturating: the counter never goes below zero. */
    method CompleteQueuedBytes(n: nat)
      modifies this`queuedBytes
      ensures n <= old(queuedBytes) ==> queuedBytes == old(queuedBytes) - n
      ensures n > old(queuedBytes) ==> queuedBytes == 0
    {
      if n == 0 || queuedBytes == 0 {
        return;
      }
      queuedBytes := if n < queuedBytes then queuedBytes - n else 0;
    }

    method TryQueue(batch: Batch) returns (ok: bool)
      modifies this`queue
      ensures ok <==> old(|queue|) < capacity
      ensures queue == if ok then old(queue) + [batch] else old(queue)
    {
      if |queue| >= capacity {
        return false;
      }
      queue := queue + [batch];
      return true;
    }

    /** The writer takes the next batch. */
    method Take()
      requires Valid()
      modifies this`queue, this`held
      ensures Valid()
      ensures old(queue) != [] ==> held == old(held) + [old(queue)[0]] && queue == old(queue)[1..]
      ensures old(queue) == [] ==> held == old(held) && queue == []
    {
      hide TotalSize, FenceFirst, Carried, Batches;
      if queue != [] {
        TotalSizeConcat(held, [queue[0]]);
        TotalSizeConcat([queue[0]], queue[1..]);
        assert queue == [queue[0]] + queue[1..];
        assert written + held + queue == written + (held + [queue[0]]) + queue[1..];
        held, queue := held + [queue[0]], queue[1..];
      }
    }

    /** The writer has put everything it holds on the wire. */
    method Finish()
      requires Valid()
      modifies this`held, this`queuedBytes, this`written
      ensures Valid() && held == [] && written == old(written) + old(held)
    {
      CompleteQueuedBytes(TotalSize(held));
      assert written + held + queue == (written + held) + [] + queue;
      written, held := written + held, [];
    }

    /** Queues the frames behind the current control, if this backend has not carried it. */
    method TrySend(frames: seq<VpnFrame>, control: Option<ModeControl>) returns (ok: bool)
      requires Valid()
      modifies this
      ensures Valid()
      ensures ok <==> old(|queue|) < capacity
      ensures ok ==> accepted == old(accepted) + [EntryFor(old(fenceGen), frames, control)]
      ensures !ok ==> unchanged(this)
    {
      hide PayloadBytes, Carried, FenceFirst, TotalSize, Batches;
      var e := EntryFor(fenceGen, frames, control);
      AddQueuedBytes(Size(e.batch));
      ok := TryQueue(e.batch);
      if ok {
        if e.batch.fence.Some? {
          fenceGen := control.value.generation;
        }
        FenceFirstAppend(accepted, e);
        OneMoreBatch(accepted, e, written + held, old(queue));
        accepted := accepted + [e];
        return;
      }
      CompleteQueuedBytes(Size(e.batch));
    }
  }

  function EntryFor(fenceGen: nat, frames: seq<VpnFrame>, control: Option<ModeControl>): Entry {
    var current := if control.Some? then control.value.generation else 0;
    Entry(Batch(if fenceGen < current then control else None, frames), current)
  }

  // ---- the port ----

  predicate Separate(bs: seq<Backend>) {
    forall i, j :: 0 <= i < j < |bs| ==> bs[i] != bs[j]
  }

  ghost predicate AllValid(bs: seq<Backend>)
    reads bs
  {
    forall i :: 0 <= i < |bs| ==> bs[i].Valid()
  }

  /** Everything each backend has accepted so far. */
  ghost function Accepted(bs: seq<Backend>): (r: seq<seq<Entry>>)
    reads bs
    ensures |r| == |bs|
  {
    seq(|bs|, i requires 0 <= i < |bs| reads bs => bs[i].accepted)
  }

  /** One step of a backend's writer. */
  datatype WriterStep = WriterStep(backend: nat, finish: bool)

  /** The writers run between two attempts. */
  method Writers(bs: seq<Backend>, steps: seq<WriterStep>)
    requires AllValid(bs) && Separate(bs)
    modifies bs
    ensures AllValid(bs) && Accepted(bs) == old(Accepted(bs))
  {
    hide Backend.Valid;
    for k := 0 to |steps|
      invariant AllValid(bs) && Accepted(bs) == old(Accepted(bs))
    {
      if steps[k].backend < |bs| {
        OneWriter(bs, steps[k].backend, steps[k].finish);
      }
    }
  }

  method OneWriter(bs: seq<Backend>, i: nat, finish: bool)
    requires i < |bs| && AllValid(bs) && Separate(bs)
    modifies bs[i]
    ensures AllValid(bs) && Accepted(bs) == old(Accepted(bs))
  {
    hide Backend.Valid;
    if finish {
      bs[i].Finish();
    } else {
      bs[i].Take();
    }
    forall k | 0 <= k < |bs| && k != i ensures bs[k] != bs[i] {}
  }

  /** The batch went to backend to, and to no other. */
  function SentTo(before: seq<seq<Entry>>, to: nat, frames: seq<VpnFrame>, control: Option<ModeControl>): seq<seq<Entry>> {
    if to < |before| then before[to := before[to] + [EntryFor(Carried(before[to]), frames, control)]] else before
  }

  method TryOne(bs: seq<Backend>, i: nat, frames: seq<VpnFrame>, control: Option<ModeControl>) returns (ok: bool)
    requires i < |bs| && AllValid(bs) && Separate(bs)
    modifies bs[i]
    ensures AllValid(bs) && ok == old(bs[i].HasRoom())
    ensures ok ==> Accepted(bs) == SentTo(old(Accepted(bs)), i, frames, control)
    ensures !ok ==> Accepted(bs) == old(Accepted(bs)) && unchanged(bs[i])
  {
    hide EntryFor, Carried, FenceFirst;
    ghost var before := Accepted(bs);
    ok := bs[i].TrySend(frames, control);
    forall k | 0 <= k < |bs| && k != i ensures bs[k] != bs[i] {}
    assert Accepted(bs) == if ok then SentTo(before, i, frames, control) else before;
  }

  /** The preferred backend first, then the others in order. */
  method TryAll(bs: seq<Backend>, preferred: nat, frames: seq<VpnFrame>, control: Option<ModeControl>) returns (to: Option<nat>)
    requires preferred < |bs| && AllValid(bs) && Separate(bs)
    modifies bs
    ensures AllValid(bs)
    ensures to.Some? ==> to.value < |bs| && Accepted(bs) == SentTo(old(Accepted(bs)), to.value, frames, control)
    ensures to.None? ==> Accepted(bs) == old(Accepted(bs))
    ensures old(bs[preferred].HasRoom()) ==> to == Some(preferred)
    ensures to.Some? && to.value != preferred ==> old(bs[to.value].HasRoom())
    ensures forall i :: 0 <= i < (if to.Some? then to.value else |bs|) && to != Some(preferred) ==> old(!bs[i].HasRoom())
  {
    hide SentTo, Backend.Valid;
    var ok := TryOne(bs, preferred, frames, control);
    if ok {
      return Some(preferred);
    }
    for i := 0 to |bs|
      invariant AllValid(bs) && Accepted(bs) == old(Accepted(bs))
      invariant old(!bs[preferred].HasRoom())
      invariant forall k :: 0 <= k < |bs| ==> bs[k].HasRoom() == old(bs[k].HasRoom())
      invariant forall k :: 0 <= k < i ==> old(!bs[k].HasRoom())
    {
      if i != preferred {
        ok := TryOne(bs, i, frames, control);
        if ok {
          return Some(i);
        }
      }
    }
    return None;
  }

  class AsyncPort {
    var txSeq: nat
    var exhausted: bool
    var dropped: nat
    /** Payload buffers given back to the pool. */
    ghost var released: seq<VpnFrame>

    constructor ()
      ensures txSeq == 0 && !exhausted && dropped == 0 && released == []
    {
      txSeq, exhausted, dropped, released := 0, false, 0, [];
    }

    /** Numbers are handed out once, in order, and never wrap. */
    method NextSeq() returns (n: Option<nat>)
      requires txSeq < U32
      modifies this`txSeq, this`exhausted
      ensures n == if old(txSeq) == U32 - 1 then None else Some(old(txSeq) + 1)
      ensures txSeq == old(txSeq) + (if n.Some? then 1 else 0) && txSeq < U32
      ensures n.None? ==> exhausted
    {
      if txSeq == U32 - 1 {
        exhausted := true;
        return None;
      }
      txSeq := txSeq + 1;
      return Some(txSeq);
    }

    method Release(frames: seq<VpnFrame>)
      modifies this`dropped, this`released
      ensures dropped == old(dropped) + |frames| && released == old(released) + frames
    {
      dropped := dropped + |frames|;
      released := released + frames;
    }

    /** Either one backend owns the whole batch, or every payload is released once. */
    method SendToAny(bs: seq<Backend>, preferred: nat, frames: seq<VpnFrame>, control: Option<ModeControl>, pauses: seq<seq<WriterStep>>)
      returns (to: Option<nat>)
      requires preferred < |bs| && AllValid(bs) && Separate(bs)
      modifies bs, this`dropped, this`released
      ensures AllValid(bs)
      ensures to.Some? ==> to.value < |bs| && Accepted(bs) == SentTo(old(Accepted(bs)), to.value, frames, control)
      ensures to.Some? ==> released == old(released) && dropped == old(dropped)
      ensures to.None? ==> Accepted(bs) == old(Accepted(bs))
      ensures to.None? ==> released == old(released) + frames && dropped == old(dropped) + |frames|
    {
      hide SentTo, Backend.Valid;
      to := TryAll(bs, preferred, frames, control);
      if to.Some? {
        return;
      }
      for k := 0 to |pauses|
        invariant AllValid(bs) && Accepted(bs) == old(Accepted(bs))
        invariant released == old(released) && dropped == old(dropped)
      {
        Writers(bs, pauses[k]);
        to := TryAll(bs, preferred, frames, control);
        if to.Some? {
          return;
        }
      }
      Release(frames);
      return None;
    }

    /**
     One batch: without backends it is dropped before the encoder sees it; otherwise the encoder
     learns the number of backends and takes every frame, one backend or nobody takes the batch, and
     each parity goes to its target or is refused there.  With one backend there is no parity.
     */
    method DispatchOwnedBatch(bs: seq<Backend>, enc: FecEncoder, frames: seq<VpnFrame>, preferred: nat,
                              pauses: seq<seq<WriterStep>>, targets: seq<nat>)
      returns (to: Option<nat>, places: seq<Option<nat>>)
      requires AllValid(bs) && Separate(bs) && enc.Valid() && (bs != [] ==> preferred < |bs|)
      requires forall i :: 0 <= i < |frames| ==> frames[i].n < U32
      requires |targets| == |Encoded(enc.State(), |bs|, frames).1| && forall i :: 0 <= i < |targets| ==> bs != [] ==> targets[i] < |bs|
      modifies bs, enc, this`dropped, this`released
      ensures AllValid(bs) && enc.Valid()
      ensures bs == [] ==>
                to == None && places == [] && enc.State() == old(enc.State()) && released == old(released) + frames
      ensures bs != [] ==>
                var (e, parities) := old(Encoded(enc.State(), |bs|, frames));
                && enc.State() == e
                && |places| == |parities|
                && (|bs| < 2 ==> parities == [])
                && (to.Some? ==> to.value < |bs|)
                && released == old(released) + (if to.None? then frames else []) + Unplaced(parities, places)
                && Accepted(bs) == Placed(if to.None? then old(Accepted(bs)) else SentTo(old(Accepted(bs)), to.value, frames, e.control),
                                          parities, places)
    {
      hide SentTo, Backend.Valid, Encoded, Placed, Unplaced, AllValid, Separate, Accepted, FecEncoder.Valid;
      if bs == [] {
        Release(frames);
        return None, [];
      }
      var parities := EncodeFor(enc, |bs|, frames);
      to := SendToAny(bs, preferred, frames, enc.control, pauses);
      places := SendParities(bs, parities, targets);
    }

    method SendParities(bs: seq<Backend>, parities: seq<Bytes>, targets: seq<nat>) returns (places: seq<Option<nat>>)
      requires AllValid(bs) && Separate(bs) && |targets| == |parities| && forall i :: 0 <= i < |targets| ==> targets[i] < |bs|
      modifies bs, this`dropped, this`released
      ensures AllValid(bs) && |places| == |parities|
      ensures |bs| < 2 ==> forall i :: 0 <= i < |places| ==> places[i] == None
      ensures released == old(released) + Unplaced(parities, places)
      ensures Accepted(bs) == Placed(old(Accepted(bs)), parities, places)
    {
      hide SentTo, Backend.Valid;
      places := [];
      for i := 0 to |parities|
        invariant AllValid(bs) && |places| == i
        invariant |bs| < 2 ==> forall k :: 0 <= k < i ==> places[k] == None
        invariant released == old(released) + Unplaced(parities[..i], places)
        invariant Accepted(bs) == Placed(old(Accepted(bs)), parities[..i], places)
      {
        var frame := VpnFrame(0, parities[i]);
        var to: Option<nat> := None;
        if |bs| < 2 {
          released := released + [frame];
        } else {
          to := SendFrameTo(bs, targets[i], frame);
        }
        PlacedMore(old(Accepted(bs)), parities, places, i, to);
        places := places + [to];
      }
      assert parities[..|parities|] == parities;
    }

    /** One parity frame: no fence, one attempt. */
    method SendFrameTo(bs: seq<Backend>, target: nat, frame: VpnFrame) returns (to: Option<nat>)
      requires target < |bs| && AllValid(bs) && Separate(bs)
      modifies bs, this`dropped, this`released
      ensures AllValid(bs) && (to == None || to == Some(target))
      ensures to.Some? ==> to.value < |bs| && Accepted(bs) == SentTo(old(Accepted(bs)), target, [frame], None) && released == old(released)
      ensures to.None? ==> Accepted(bs) == old(Accepted(bs)) && released == old(released) + [frame]
    {
      hide SentTo, Backend.Valid;
      var ok := TryOne(bs, target, [frame], None);
      if ok {
        return Some(target);
      }
      Release([frame]);
      return None;
    }
  }

  // ---- encoding a batch ----

  /** Every frame goes through the encoder, and the parities come out in order. */
  function AddAll(e: Encoder, fs: seq<VpnFrame>): (Encoder, seq<Bytes>) {
    if fs == [] || !GroupSize(e.k) then (e, [])
    else
      var (before, parities) := AddAll(e, fs[..|fs| - 1]);
      if !GroupSize(before.k) then (before, parities)
      else
        var (after, parity) := before.Add(fs[|fs| - 1]);
        (after, if parity.Some? then parities + [parity.value] else parities)
  }

  /** What the encoder makes of a batch when there are so many paths. */
  function Encoded(e: Encoder, paths: nat, fs: seq<VpnFrame>): (Encoder, seq<Bytes>)
    requires GroupSize(e.k) && e.lastSeq < U32
  {
    AddAll(e.SetPaths(paths), fs)
  }

  /** Over a single path no parity is built. */
  lemma SinglePath(e: Encoder, paths: nat, fs: seq<VpnFrame>)
    requires GroupSize(e.k) && e.lastSeq < U32 && paths < 2
    ensures Encoded(e, paths, fs).1 == []
  {
    NoneWithout(e.SetPaths(paths), fs);
  }

  lemma {:induction false} NoneWithout(e: Encoder, fs: seq<VpnFrame>)
    requires !e.multipath
    ensures AddAll(e, fs).1 == [] && !AddAll(e, fs).0.multipath
    decreases |fs|
  {
    if fs != [] {
      NoneWithout(e, fs[..|fs| - 1]);
    }
  }

  method EncodeBatch(enc: FecEncoder, fs: seq<VpnFrame>) returns (parities: seq<Bytes>)
    requires enc.Valid() && forall i :: 0 <= i < |fs| ==> fs[i].n < U32
    modifies enc
    ensures enc.Valid() && (enc.State(), parities) == old(AddAll(enc.State(), fs))
  {
    hide Encoder.Add, FecEncoder.Accumulated;
    parities := [];
    ghost var e := enc.State();
    for i := 0 to |fs|
      invariant enc.Valid() && (enc.State(), parities) == AddAll(e, fs[..i])
    {
      assert fs[..i + 1][..i] == fs[..i];
      var parity := enc.Add(fs[i]);
      if parity.Some? {
        parities := parities + [parity.value];
      }
    }
    assert fs[..|fs|] == fs;
  }

  method EncodeFor(enc: FecEncoder, paths: nat, fs: seq<VpnFrame>) returns (parities: seq<Bytes>)
    requires enc.Valid() && forall i :: 0 <= i < |fs| ==> fs[i].n < U32
    modifies enc
    ensures enc.Valid() && (enc.State(), parities) == old(Encoded(enc.State(), paths, fs))
    ensures paths < 2 ==> parities == []
  {
    hide Encoder.SetPaths, AddAll, FecEncoder.Accumulated;
    enc.SetPhysicalPathCount(paths);
    if paths < 2 {
      SinglePath(old(enc.State()), paths, fs);
    }
    parities := EncodeBatch(enc, fs);
  }

  function Placed(before: seq<seq<Entry>>, parities: seq<Bytes>, places: seq<Option<nat>>): seq<seq<Entry>>
    requires |places| == |parities|
  {
    if places == [] then before
    else
      var last := |places| - 1;
      var rest := Placed(before, parities[..last], places[..last]);
      if places[last].Some? then SentTo(rest, places[last].value, [VpnFrame(0, parities[last])], None) else rest
  }

  function Unplaced(parities: seq<Bytes>, places: seq<Option<nat>>): seq<VpnFrame>
    requires |places| == |parities|
  {
    if places == [] then []
    else
      var last := |places| - 1;
      Unplaced(parities[..last], places[..last]) + if places[last].Some? then [] else [VpnFrame(0, parities[last])]
  }

  lemma PlacedMore(before: seq<seq<Entry>>, parities: seq<Bytes>, places: seq<Option<nat>>, i: nat, to: Option<nat>)
    requires i < |parities| && |places| == i
    ensures var more := places + [to]; var frame := VpnFrame(0, parities[i]);
            && Placed(before, parities[..i + 1], more) ==
               (var rest := Placed(before, parities[..i], places); if to.Some? then SentTo(rest, to.value, [frame], None) else rest)
            && Unplaced(parities[..i + 1], more) == Unplaced(parities[..i], places) + if to.Some? then [] else [frame]
  {
    hide SentTo;
    assert (places + [to])[..i] == places && parities[..i + 1][..i] == parities[..i];
  }
}
