/**
 The generation number and the reset barrier of the session worker, as an
 interleaving of small steps: producers push and flush, the worker takes a work
 item and inserts its frames one by one, and an epoch advance first bumps the
 generation and then queues its barrier.  A bump can fall into the middle of a
 batch that already passed its generation test, so it is the barrier, not the
 bump, that keeps old frames out.
 */
module EpochBarrier {

  const BATCH_CAP := 16
  const QUEUE_DEPTH := 256

  /** A buffer, known by the generation of the producer that pushed it. */
  datatype Frame = Frame(generation: nat, id: nat)

  datatype Work = Batch(generation: nat, frames: seq<Frame>) | Barrier(advance: nat, reset: bool)

  datatype Producer = Producer(generation: nat, pending: seq<Frame>)

  datatype Stage = Bumped | Queued | Returned

  datatype Advance = Advance(target: nat, reset: bool, stage: Stage)

  /** held stands for the decoder and the reorder buffer behind the worker. */
  datatype Worker = Worker(
    generation: nat, queue: seq<Work>, current: seq<Frame>, held: multiset<Frame>, released: multiset<Frame>,
    producers: seq<Producer>, advances: seq<Advance>)

  const NewWorker := Worker(1, [], [], multiset{}, multiset{}, [], [])

  datatype Event =
    | NewProducer
    | Push(producer: nat, id: nat)
    | Flush(producer: nat)
    | Bump(reset: bool)
    | QueueBarrier(advance: nat)
    | Take
    | InsertNext

  function Flushed(w: Worker, p: nat): Worker
    requires p < |w.producers|
  {
    var q := w.producers[p];
    if q.pending == [] || |w.queue| >= QUEUE_DEPTH then w
    else w.(queue := w.queue + [Batch(q.generation, q.pending)], producers := w.producers[p := q.(pending := [])])
  }

  /** One step; an event whose guard fails changes nothing (a blocked sender waits). */
  function Step(w: Worker, e: Event): Worker {
    match e
    case NewProducer => w.(producers := w.producers + [Producer(w.generation, [])])
    case Push(p, id) =>
      if p >= |w.producers| || |w.producers[p].pending| >= BATCH_CAP then w
      else
        var q := w.producers[p];
        var v := w.(producers := w.producers[p := q.(pending := q.pending + [Frame(q.generation, id)])]);
        if |q.pending| + 1 == BATCH_CAP then Flushed(v, p) else v
    case Flush(p) => if p >= |w.producers| then w else Flushed(w, p)
    case Bump(reset) =>
      w.(generation := w.generation + 1, advances := w.advances + [Advance(w.generation + 1, reset, Bumped)])
    case QueueBarrier(a) =>
      if a >= |w.advances| || w.advances[a].stage != Bumped || |w.queue| >= QUEUE_DEPTH then w
      else w.(queue := w.queue + [Barrier(a, w.advances[a].reset)],
              advances := w.advances[a := w.advances[a].(stage := Queued)])
    case Take => if w.current != [] || w.queue == [] then w else Taken(w)
    case InsertNext =>
      if w.current == [] then w
      else w.(held := w.held + multiset{w.current[0]}, current := w.current[1..])
  }

  /** The worker takes the next work item: a stale batch is released, a barrier resets and returns. */
  function Taken(w: Worker): Worker
    requires w.queue != []
  {
    var v := w.(queue := w.queue[1..]);
    match w.queue[0]
    case Batch(g, fs) =>
      if g != w.generation then v.(released := v.released + multiset(fs)) else v.(current := fs)
    case Barrier(a, reset) =>
      var u := if reset then v.(held := multiset{}, released := v.released + v.held) else v;
      if a < |u.advances| then u.(advances := u.advances[a := u.advances[a].(stage := Returned)]) else u
  }

  function Run(w: Worker, es: seq<Event>): Worker
    decreases |es|
  {
    if es == [] then w else Run(Step(w, es[0]), es[1..])
  }

  // ---- the barrier ----

  /** Frames carry the generation of the batch or producer they are in. */
  predicate Tagged(w: Worker) {
    && (forall i, j :: 0 <= i < |w.queue| && w.queue[i].Batch? && 0 <= j < |w.queue[i].frames| ==>
          w.queue[i].frames[j].generation == w.queue[i].generation)
    && (forall i, j :: 0 <= i < |w.producers| && 0 <= j < |w.producers[i].pending| ==>
          w.producers[i].pending[j].generation == w.producers[i].generation)
  }

  /** No advance is ahead of the generation, and queued barriers belong to queued advances. */
  predicate Targets(w: Worker) {
    && (forall a :: 0 <= a < |w.advances| ==> w.advances[a].target <= w.generation)
    && (forall i :: 0 <= i < |w.queue| && w.queue[i].Barrier? ==>
          w.queue[i].advance < |w.advances| && w.advances[w.queue[i].advance].reset == w.queue[i].reset)
  }

  /** Once an advance has returned, nothing older is being inserted; after a reset nothing older is held. */
  ghost predicate Fenced(w: Worker) {
    forall a :: 0 <= a < |w.advances| && w.advances[a].stage == Returned ==>
      && (forall i :: 0 <= i < |w.current| ==> w.current[i].generation >= w.advances[a].target)
      && (w.advances[a].reset ==> forall f :: f in w.held ==> f.generation >= w.advances[a].target)
  }

  ghost predicate Inv(w: Worker) {
    Tagged(w) && Targets(w) && Fenced(w)
  }

  lemma FlushedInv(w: Worker, p: nat)
    requires Inv(w) && p < |w.producers|
    ensures Inv(Flushed(w, p))
  {
  }

  lemma TakeInv(w: Worker)
    requires Inv(w)
    ensures Inv(Step(w, Take))
  {
    if w.current == [] && w.queue != [] {
      TakenKeeps(w);
      TakenFenced(w);
    }
  }

  lemma TakenKeeps(w: Worker)
    requires Tagged(w) && Targets(w) && w.queue != []
    ensures Tagged(Taken(w)) && Targets(Taken(w))
  {
    var t := Taken(w);
    assert forall i :: 0 <= i < |t.queue| ==> t.queue[i] == w.queue[i + 1];
  }

  lemma TakenFenced(w: Worker)
    requires Inv(w) && w.queue != [] && w.current == []
    ensures Fenced(Taken(w))
  {
  }

  lemma PushInv(w: Worker, p: nat, id: nat)
    requires Inv(w)
    ensures Inv(Step(w, Push(p, id)))
  {
    if p < |w.producers| && |w.producers[p].pending| < BATCH_CAP {
      var q := w.producers[p];
      var v := w.(producers := w.producers[p := q.(pending := q.pending + [Frame(q.generation, id)])]);
      assert Inv(v);
      FlushedInv(v, p);
    }
  }

  lemma InsertNextInv(w: Worker)
    requires Inv(w)
    ensures Inv(Step(w, InsertNext))
  {
    var t := Step(w, InsertNext);
    assert w.current != [] ==> forall i :: 0 <= i < |t.current| ==> t.current[i] == w.current[i + 1];
  }

  lemma StepInv(w: Worker, e: Event)
    requires Inv(w)
    ensures Inv(Step(w, e))
  {
    match e
    case Take => TakeInv(w);
    case Push(p, id) => PushInv(w, p, id);
    case Flush(p) => if p < |w.producers| { FlushedInv(w, p); }
    case InsertNext => InsertNextInv(w);
    case NewProducer =>
    case Bump(reset) =>
    case QueueBarrier(a) =>
  }

  lemma {:induction false} RunInv(w: Worker, es: seq<Event>)
    requires Inv(w)
    ensures Inv(Run(w, es))
    decreases |es|
  {
    if es != [] {
      StepInv(w, es[0]);
      RunInv(Step(w, es[0]), es[1..]);
    }
  }

  /**
   For every interleaving: once an advance has returned, no frame of an older
   producer is inserted, and if it was a reset, none is left behind it either.
   */
  lemma BarrierHolds(es: seq<Event>, a: nat)
    requires var w := Run(NewWorker, es); a < |w.advances| && w.advances[a].stage == Returned
    ensures var w := Run(NewWorker, es);
            && (w.current != [] ==> w.current[0].generation >= w.advances[a].target)
            && (w.advances[a].reset ==> forall f :: f in w.held ==> f.generation >= w.advances[a].target)
  {
    RunInv(NewWorker, es);
  }

  /**
   The bump alone is not enough: a batch of generation 1 that passed its test keeps
   inserting after the generation has moved to 2, until the barrier is reached.
   */
  lemma BumpAloneIsNotABarrier(w: Worker, f: Frame, rest: seq<Frame>, reset: bool)
    requires w.current == [] && w.queue != [] && w.queue[0] == Batch(w.generation, [f] + rest)
    ensures var v := Step(Step(w, Take), Bump(reset));
            v.generation == w.generation + 1 && f in Step(v, InsertNext).held
  {
    var v := Step(Step(w, Take), Bump(reset));
    assert v.current[0] == f;
  }

  // ---- ownership ----

  /** How often f is in the queued batches. */
  function InQueue(q: seq<Work>, f: Frame): nat {
    if q == [] then 0 else InQueue(q[..|q| - 1], f) + InWork(q[|q| - 1], f)
  }

  function InWork(x: Work, f: Frame): nat {
    if x.Batch? then multiset(x.frames)[f] else 0
  }

  function InProducers(ps: seq<Producer>, f: Frame): nat {
    if ps == [] then 0 else InProducers(ps[..|ps| - 1], f) + multiset(ps[|ps| - 1].pending)[f]
  }

  /** How often the worker and its producers account for buffer f. */
  function Owned(w: Worker, f: Frame): nat {
    InProducers(w.producers, f) + InQueue(w.queue, f) + multiset(w.current)[f] + w.held[f] + w.released[f]
  }

  lemma {:induction false} UpdateProducer(ps: seq<Producer>, p: nat, q: Producer, f: Frame)
    requires p < |ps|
    ensures InProducers(ps[p := q], f) + multiset(ps[p].pending)[f] == InProducers(ps, f) + multiset(q.pending)[f]
  {
    var n := |ps| - 1;
    if p == n {
      assert ps[p := q][..n] == ps[..n];
    } else {
      UpdateProducer(ps[..n], p, q, f);
      assert ps[p := q][..n] == ps[..n][p := q];
    }
  }

  lemma AppendWork(q: seq<Work>, x: Work, f: Frame)
    ensures InQueue(q + [x], f) == InQueue(q, f) + InWork(x, f)
  {
    assert (q + [x])[..|q|] == q;
  }

  lemma {:induction false} TakeWork(q: seq<Work>, f: Frame)
    requires q != []
    ensures InQueue(q, f) == InWork(q[0], f) + InQueue(q[1..], f)
  {
    if |q| > 1 {
      var n := |q| - 1;
      TakeWork(q[..n], f);
      assert q[..n][1..] == q[1..][..n - 1];
    }
  }

  lemma FlushedOwned(w: Worker, p: nat, f: Frame)
    requires p < |w.producers|
    ensures Owned(Flushed(w, p), f) == Owned(w, f)
  {
    hide InQueue, InProducers;
    var q := w.producers[p];
    UpdateProducer(w.producers, p, q.(pending := []), f);
    AppendWork(w.queue, Batch(q.generation, q.pending), f);
  }

  lemma PushOwned(w: Worker, p: nat, id: nat, f: Frame)
    ensures Owned(Step(w, Push(p, id)), f) == Owned(w, f) + Pushed(w, Push(p, id), f)
  {
    hide InQueue, InProducers, Flushed;
    if p < |w.producers| && |w.producers[p].pending| < BATCH_CAP {
      var q := w.producers[p];
      var g := Frame(q.generation, id);
      var r := q.(pending := q.pending + [g]);
      assert multiset(r.pending)[f] == multiset(q.pending)[f] + if f == g then 1 else 0;
      UpdateProducer(w.producers, p, r, f);
      FlushedOwned(w.(producers := w.producers[p := r]), p, f);
    }
  }

  lemma TakeOwned(w: Worker, f: Frame)
    requires w.current == [] && w.queue != []
    ensures Owned(Taken(w), f) == Owned(w, f)
  {
    hide InQueue, InProducers;
    TakeWork(w.queue, f);
  }

  /** How often a step brings in buffer f. */
  function Pushed(w: Worker, e: Event, f: Frame): nat {
    if && e.Push? && e.producer < |w.producers| && |w.producers[e.producer].pending| < BATCH_CAP
       && f == Frame(w.producers[e.producer].generation, e.id)
    then 1 else 0
  }

  /** Every buffer stays accounted for exactly as often as it was pushed, stale generations and resets included. */
  lemma StepConserves(w: Worker, e: Event, f: Frame)
    ensures Owned(Step(w, e), f) == Owned(w, f) + Pushed(w, e, f)
  {
    hide Step, Owned;
    if e.Push? {
      PushOwned(w, e.producer, e.id, f);
    } else {
      OtherOwned(w, e, f);
    }
  }

  /** Nothing but a push brings a new buffer in. */
  lemma OtherOwned(w: Worker, e: Event, f: Frame)
    requires !e.Push?
    ensures Owned(Step(w, e), f) == Owned(w, f)
  {
    hide InQueue, InProducers, Flushed, Taken;
    match e
    case NewProducer => NewProducerOwned(w, f);
    case Flush(p) => if p < |w.producers| { FlushedOwned(w, p, f); }
    case Bump(reset) =>
    case QueueBarrier(a) => BarrierOwned(w, a, f);
    case Take => if w.current == [] && w.queue != [] { TakeOwned(w, f); }
    case InsertNext => InsertOwned(w, f);
  }

  lemma NewProducerOwned(w: Worker, f: Frame)
    ensures Owned(Step(w, NewProducer), f) == Owned(w, f)
  {
    hide InQueue, InProducers;
    AppendProducer(w.producers, Producer(w.generation, []), f);
  }

  lemma BarrierOwned(w: Worker, a: nat, f: Frame)
    ensures Owned(Step(w, QueueBarrier(a)), f) == Owned(w, f)
  {
    hide InQueue, InProducers;
    if a < |w.advances| {
      AppendWork(w.queue, Barrier(a, w.advances[a].reset), f);
    }
  }

  lemma InsertOwned(w: Worker, f: Frame)
    ensures Owned(Step(w, InsertNext), f) == Owned(w, f)
  {
    hide InQueue, InProducers;
    if w.current != [] {
      FirstOf(w.current, f);
    }
  }

  lemma FirstOf(fs: seq<Frame>, f: Frame)
    requires fs != []
    ensures multiset(fs)[f] == multiset(fs[1..])[f] + if fs[0] == f then 1 else 0
  {
    assert fs == [fs[0]] + fs[1..];
  }

  lemma AppendProducer(ps: seq<Producer>, q: Producer, f: Frame)
    ensures InProducers(ps + [q], f) == InProducers(ps, f) + multiset(q.pending)[f]
  {
    assert (ps + [q])[..|ps|] == ps;
  }

  function AllPushed(w: Worker, es: seq<Event>, f: Frame): nat
    decreases |es|
  {
    if es == [] then 0 else Pushed(w, es[0], f) + AllPushed(Step(w, es[0]), es[1..], f)
  }

  lemma {:induction false} RunConserves(w: Worker, es: seq<Event>, f: Frame)
    ensures Owned(Run(w, es), f) == Owned(w, f) + AllPushed(w, es, f)
    decreases |es|
  {
    if es != [] {
      StepConserves(w, es[0], f);
      RunConserves(Step(w, es[0]), es[1..], f);
    }
  }
}
