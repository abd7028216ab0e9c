/**
 Ownership on the receive path.  Every buffer that enters a batch, and every buffer
 made by a reconstruction, is afterwards in exactly one place: held in the reorder
 buffer, ready, handed to the delivery queue, or released.
 */
module RxOwnership {
  import opened FecControl
  import opened FecEncoder
  import opened GroupDecoder
  import opened Reorder
  import opened RxPath

  /** All buffers the receive path accounts for, with multiplicity. */
  ghost function Owned(s: Rx): multiset<VpnFrame> {
    Bag(s.order.buffered) + multiset(s.ready) + multiset(Concat(s.handed)) + s.released
  }

  /** The frame reconstructed while the first frame of a batch is processed, if any. */
  function MadeByFirst(s: Rx, f: VpnFrame): seq<VpnFrame>
    requires s.Sane()
  {
    if s.fec.None? then []
    else if f.n > 0 then AsSeq(s.fec.value.OnData(f.n, f.data, s.order.expected).1)
    else if ParseControl(f.data).ParityFrame? then AsSeq(s.fec.value.OnParity(f.data, s.order.expected).1)
    else []
  }

  function AsSeq(x: Option<VpnFrame>): seq<VpnFrame> {
    match x case None => [] case Some(f) => [f]
  }

  /** All frames reconstructed while a batch is processed. */
  function Made(s: Rx, fs: seq<VpnFrame>): seq<VpnFrame>
    requires s.Sane()
    decreases |fs|
  {
    if fs == [] || s.First(fs).None? then [] else MadeByFirst(s, fs[0]) + Made(s.First(fs).value, fs[1..])
  }

  lemma OwnedInsert(s: Rx, f: VpnFrame)
    requires s.Sane()
    ensures Owned(s.Insert(f)) == Owned(s) + multiset{f}
  {
    hide Reorder<VpnFrame>.Insert, Bag;
    InsertConserves(s.order, f.n, f);
    var (o, out, gone) := s.order.Insert(f.n, f);
    var t := s.Insert(f);
    assert multiset(t.ready) == multiset(s.ready) + multiset(out) && t.released == s.released + multiset(gone);
    Rearrange(Bag(s.order.buffered), multiset{f}, Bag(o.buffered), multiset(out), multiset(gone),
              multiset(s.ready), multiset(Concat(s.handed)), s.released);
  }

  lemma Rearrange<T(!new)>(a: multiset<T>, f: multiset<T>, b: multiset<T>, out: multiset<T>, gone: multiset<T>,
                     ready: multiset<T>, handed: multiset<T>, released: multiset<T>)
    requires a + f == b + out + gone
    ensures b + (ready + out) + handed + (released + gone) == (a + ready + handed + released) + f
  {
    forall x: T
      ensures (b + (ready + out) + handed + (released + gone))[x] == ((a + ready + handed + released) + f)[x]
    {
      assert (a + f)[x] == (b + out + gone)[x];
    }
  }

  lemma OwnedFlush(s: Rx)
    ensures Owned(s.Flush()) == Owned(s)
  {
    if s.ready != [] {
      assert (s.handed + [s.ready])[..|s.handed|] == s.handed;
    }
  }

  lemma OwnedRelease(s: Rx, fs: seq<VpnFrame>)
    ensures Owned(s.Release(fs)) == Owned(s) + multiset(fs)
  {
  }

  lemma OwnedPair(s: Rx, f: VpnFrame, rec: Option<VpnFrame>)
    requires s.Sane()
    ensures Owned(s.InsertPair(f, rec)) == Owned(s) + multiset{f} + multiset(AsSeq(rec))
  {
    hide Rx.Insert, Owned;
    OwnedInsert(s, f);
    match rec
    case None =>
    case Some(g) =>
      if g.n < f.n {
        OwnedInsert(s, g);
        OwnedInsert(s.Insert(g), f);
      } else if g.n > f.n {
        OwnedInsert(s.Insert(f), g);
      } else {
        OwnedRelease(s.Insert(f), [g]);
      }
  }

  lemma OwnedData(s: Rx, f: VpnFrame)
    requires s.Sane() && f.n > 0
    ensures Owned(s.OnDataFrame(f)) == Owned(s) + multiset{f} + multiset(MadeByFirst(s, f))
  {
    hide Rx.InsertPair, Decoder.OnData;
    match s.fec
    case None => OwnedPair(s, f, None);
    case Some(d) =>
      var (e, rec) := d.OnData(f.n, f.data, s.order.expected);
      OwnedPair(s.(fec := Some(e)), f, rec);
  }

  lemma OwnedControl(s: Rx, f: VpnFrame)
    requires s.Sane() && f.n == 0 && s.OnControlFrame(f).Some?
    ensures Owned(s.OnControlFrame(f).value) == Owned(s) + multiset{f} + multiset(MadeByFirst(s, f))
  {
    hide Rx.Insert, Rx.Flush, Decoder.OnParity, Decoder.OnMode;
    var d := s.fec.value;
    match ParseControl(f.data)
    case ModeFrame(c) =>
      OwnedRelease(s.(fec := Some(d.OnMode(c, s.order.expected))), [f]);
    case ParityFrame =>
      var (e, rec) := d.OnParity(f.data, s.order.expected);
      var t := s.(fec := Some(e));
      OwnedRelease(t, [f]);
      if rec.Some? {
        OwnedInsert(t.Release([f]), rec.value);
        OwnedFlush(t.Release([f]).Insert(rec.value));
      }
  }

  lemma OwnedFirst(s: Rx, fs: seq<VpnFrame>)
    requires s.Sane() && fs != [] && s.First(fs).Some?
    ensures Owned(s.First(fs).value) == Owned(s) + multiset{fs[0]} + multiset(MadeByFirst(s, fs[0]))
  {
    hide Rx.OnDataFrame, Rx.OnControlFrame, Rx.Flush, Owned, MadeByFirst;
    if fs[0].n == 0 {
      OwnedControl(s, fs[0]);
    } else {
      OwnedData(s, fs[0]);
      OwnedFlush(s.OnDataFrame(fs[0]));
    }
  }

  /** Conservation over a whole batch, on the success and the protocol-error paths alike. */
  lemma {:induction false} ProcessConserves(s: Rx, fs: seq<VpnFrame>)
    requires s.Sane()
    ensures Owned(s.Process(fs).0) == Owned(s) + multiset(fs) + multiset(Made(s, fs))
    decreases |fs|
  {
    hide Rx.First, Owned, MadeByFirst;
    if fs != [] {
      assert fs == [fs[0]] + fs[1..];
      match s.First(fs)
      case None => OwnedRelease(s, fs);
      case Some(t) =>
        OwnedFirst(s, fs);
        ProcessConserves(t, fs[1..]);
    }
  }

  /** The gap timer creates and loses nothing. */
  lemma ExpireConservesOwned(s: Rx)
    ensures Owned(s.Expire()) == Owned(s)
  {
    hide Reorder<VpnFrame>.Expire, Bag, Rx.Flush;
    ExpireConserves(s.order);
    var (o, out) := s.order.Expire();
    OwnedFlush(s.(order := o, ready := s.ready + out));
  }

  // ---- why the lower number goes first ----

  /**
   Inserting the lower of two frames first never makes the higher one late or a
   duplicate if it was not already.
   */
  lemma LowerFirstIsSafe<F>(r: Reorder<F>, a: nat, b: nat, f: F)
    requires r.Valid() && 0 < a < b <= LAST_ORDERED
    requires !FateOf(r, b).Late? && !FateOf(r, b).Duplicate? && b !in r.buffered
    ensures var s := r.Insert(a, f).0; s.Valid() && !FateOf(s, b).Late? && !FateOf(s, b).Duplicate?
  {
    hide Reorder<F>.Insert;
    InsertValid(r, a, f);
    InsertEffect(r, a, f);
    var (s, out, gone) := r.Insert(a, f);
    if FateOf(r, a).Due? {
      assert b - a < |out| ==> FrameAt(r.buffered[a := f], a, out, b - a);
    }
  }

  /** The other way round the lower frame is lost when nothing was expected yet. */
  lemma HigherFirstLosesLower<F>(r: Reorder<F>, a: nat, b: nat, f: F)
    requires r.Valid() && r.expected == 0 && 0 < a < b <= LAST_ORDERED
    ensures FateOf(r, a).Due?
    ensures var s := r.Insert(b, f).0; s.Valid() && FateOf(s, a).Late?
  {
    InsertValid(r, b, f);
    InsertEffect(r, b, f);
  }

  predicate Accepted(fate: Fate) {
    fate == Held || fate == Due
  }

  lemma FittingMonotone(size: nat, more: nat, far: nat, near: nat)
    requires WindowSize(size) && WindowSize(more) && size <= more && near <= far && Fitting(size, far).Some?
    ensures Fitting(more, near).Some?
  {
    hide Grown;
  }

  /** After the lower one the higher one is still accepted. */
  lemma HigherStillAccepted<F>(r: Reorder<F>, a: nat, b: nat, f: F)
    requires r.Valid() && 0 < a < b <= LAST_ORDERED && b - a < MAX_GROUP
    requires Accepted(FateOf(r, a)) && Accepted(FateOf(r, b))
    ensures var s := r.Insert(a, f).0; s.Valid() && Accepted(FateOf(s, b))
  {
    hide Reorder<F>.Insert, Fitting;
    LowerFirstIsSafe(r, a, b, f);
    InsertValid(r, a, f);
    InsertEffect(r, a, f);
    var s := r.Insert(a, f).0;
    if r.expected == 0 {
      assert Fitting(s.size, b - s.expected).Some? by { NearFits(s.size, b - s.expected); }
    } else {
      FittingMonotone(r.size, s.size, b - r.expected, b - s.expected);
    }
  }

  lemma NearFits(size: nat, distance: nat)
    requires WindowSize(size) && distance < WINDOW
    ensures Fitting(size, distance).Some?
  {
    hide Grown;
  }

  /**
   A frame and the one rebuilt with its help, both acceptable before: neither makes the other late, a
   duplicate or unreachable, and nothing is released.
   */
  lemma PairKeepsBoth(s: Rx, f: VpnFrame, g: VpnFrame)
    requires s.Sane() && s.order.Valid() && f.n != g.n
    requires 0 < f.n <= LAST_ORDERED && 0 < g.n <= LAST_ORDERED && f.n < g.n + MAX_GROUP && g.n < f.n + MAX_GROUP
    requires Accepted(FateOf(s.order, f.n)) && Accepted(FateOf(s.order, g.n))
    ensures s.InsertPair(f, Some(g)).released == s.released
  {
    hide Reorder<VpnFrame>.Insert;
    var lower, higher := if g.n < f.n then g else f, if g.n < f.n then f else g;
    InsertValid(s.order, lower.n, lower);
    HigherStillAccepted(s.order, lower.n, higher.n, lower);
    InsertValid(s.Insert(lower).order, higher.n, higher);
  }
}
