/**
 The session worker as it runs: one actor owns the decoder and the reorder buffer
 and works through batches of frames with index loops.  Processing a batch is
 proved to be the receive path's Process, whatever the frames hold, up to the frame
 that finds the sequence numbers used up.
 */
module RxWorker {
  import opened Wire
  import opened FecControl
  import opened FecParity
  import opened FecEncoder
  import opened GroupDecoder
  import opened FecDecoder
  import opened Reorder
  import opened ReorderRing
  import opened RxPath

  // ---- what the reorder buffer can take ----

  /** The buffer has not run out of numbers with frames waiting (Reorder.InsertSoundIff says when it does). */
  ghost predicate Takes(s: Rx, f: VpnFrame) {
    s.order.Sound() && f.n < U32
  }

  ghost predicate TakesPair(s: Rx, f: VpnFrame, rec: Option<VpnFrame>)
    requires s.Sane()
  {
    match rec
    case None => Takes(s, f)
    case Some(g) =>
      if g.n < f.n then Takes(s, g) && Takes(s.Insert(g), f)
      else Takes(s, f) && (g.n > f.n ==> Takes(s.Insert(f), g))
  }

  ghost predicate TakesData(s: Rx, f: VpnFrame)
    requires s.Sane()
  {
    match s.fec
    case None => TakesPair(s, f, None)
    case Some(d) =>
      var (e, rec) := d.OnData(f.n, f.data, s.order.expected);
      f.n < U32 && TakesPair(s.(fec := Some(e)), f, rec)
  }

  ghost predicate TakesControl(s: Rx, f: VpnFrame)
    requires s.Sane()
  {
    s.fec.Some? && ParseControl(f.data).ParityFrame? ==>
      var rec := s.fec.value.OnParity(f.data, s.order.expected).1; rec.Some? ==> Takes(s, rec.value)
  }

  /** Every frame of the batch, and whatever is rebuilt on the way, can be taken when its turn comes. */
  ghost predicate TakesAll(s: Rx, fs: seq<VpnFrame>)
    requires s.Sane()
    decreases |fs|
  {
    fs != [] ==>
      && (if fs[0].n == 0 then TakesControl(s, fs[0]) else TakesData(s, fs[0]))
      && (s.First(fs).Some? ==> TakesAll(s.First(fs).value, fs[1..]))
  }

  /** The same for a run of data frames, without the flush at its end. */
  ghost predicate TakesRun(s: Rx, fs: seq<VpnFrame>)
    requires s.Sane()
    decreases |fs|
  {
    fs != [] ==> TakesData(s, fs[0]) && TakesRun(s.OnDataFrame(fs[0]), fs[1..])
  }

  /** A batch that starts with a maximal run of data frames. */
  lemma {:induction false} TakesSplit(s: Rx, fs: seq<VpnFrame>, m: nat)
    requires s.Sane() && 0 < m <= |fs| && (forall i :: 0 <= i < m ==> fs[i].n > 0) && (m < |fs| ==> fs[m].n == 0)
    requires TakesAll(s, fs)
    ensures TakesRun(s, fs[..m]) && TakesAll(s.Feed(fs[..m]).Flush(), fs[m..])
    decreases m
  {
    hide Rx.OnDataFrame, Rx.Flush, Rx.OnControlFrame, TakesData, TakesControl;
    var t := s.OnDataFrame(fs[0]);
    if m == 1 {
      assert fs[..1][1..] == [];
      assert s.Feed(fs[..1]) == t.Feed([]);
      assert s.First(fs) == Some(t.Flush());
    } else {
      assert fs[..m][1..] == fs[1..][..m - 1] && fs[1..][m - 1..] == fs[m..];
      assert s.First(fs) == Some(t);
      TakesSplit(t, fs[1..], m - 1);
    }
  }

  // ---- numbers below the last one can always be taken ----

  /** The frame, and whatever could be rebuilt with it, has a number below the last one. */
  ghost predicate BelowTop(s: Rx, f: VpnFrame)
    requires s.Sane()
  {
    if f.n != 0 then f.n < TOP && (s.fec.Some? ==> GroupStart(f.n, s.fec.value.k) + s.fec.value.k <= TOP)
    else
      s.fec.Some? && ParseControl(f.data).ParityFrame? ==>
        var h := ParseHeader(f.data, s.fec.value.k); h.Some? ==> h.value + s.fec.value.k <= TOP
  }

  ghost predicate AllBelowTop(s: Rx, fs: seq<VpnFrame>)
    requires s.Sane()
  {
    forall i :: 0 <= i < |fs| ==> BelowTop(s, fs[i])
  }

  ghost predicate Low(s: Rx) {
    s.order.Sound() && TOP !in s.order.buffered
  }

  lemma InsertLow(s: Rx, f: VpnFrame)
    requires s.Sane() && Low(s) && f.n < TOP
    ensures Takes(s, f) && Low(s.Insert(f))
  {
    hide Reorder<VpnFrame>.Insert, Reorder<VpnFrame>.Sound;
    InsertSound(s.order, f.n, f);
  }

  lemma PairLow(s: Rx, f: VpnFrame, rec: Option<VpnFrame>)
    requires s.Sane() && Low(s) && f.n < TOP && (rec.Some? ==> rec.value.n < TOP)
    ensures TakesPair(s, f, rec) && Low(s.InsertPair(f, rec))
  {
    hide Rx.Insert, Takes;
    match rec
    case None => InsertLow(s, f);
    case Some(g) =>
      if g.n < f.n {
        InsertLow(s, g);
        InsertLow(s.Insert(g), f);
      } else {
        InsertLow(s, f);
        if g.n > f.n {
          InsertLow(s.Insert(f), g);
        }
      }
  }

  lemma DataLow(s: Rx, f: VpnFrame)
    requires s.Sane() && Low(s) && f.n != 0 && BelowTop(s, f)
    ensures TakesData(s, f) && Low(s.OnDataFrame(f))
  {
    hide Rx.InsertPair, TakesPair, Decoder.OnData, Reorder<VpnFrame>.Sound, GroupStart;
    match s.fec
    case None => PairLow(s, f, None);
    case Some(d) =>
      DataNumber(d, f.n, f.data, s.order.expected);
      var (e, rec) := d.OnData(f.n, f.data, s.order.expected);
      PairLow(s.(fec := Some(e)), f, rec);
  }

  lemma ControlLow(s: Rx, f: VpnFrame)
    requires s.Sane() && Low(s) && f.n == 0 && BelowTop(s, f)
    ensures TakesControl(s, f) && (s.OnControlFrame(f).Some? ==> Low(s.OnControlFrame(f).value))
  {
    hide Rx.Insert, Decoder.OnParity, Decoder.OnMode, Reorder<VpnFrame>.Sound, ParseHeader;
    if s.fec.Some? && ParseControl(f.data).ParityFrame? {
      ParityNumber(s.fec.value, f.data, s.order.expected);
      var (e, rec) := s.fec.value.OnParity(f.data, s.order.expected);
      if rec.Some? {
        InsertLow(s.(fec := Some(e)).Release([f]), rec.value);
      }
    }
  }

  /** A batch whose groups all end below the last number can be taken, and leaves the buffer sound. */
  lemma {:induction false} BelowTopTakes(s: Rx, fs: seq<VpnFrame>)
    requires s.Sane() && Low(s) && AllBelowTop(s, fs)
    ensures TakesAll(s, fs) && Low(s.Process(fs).0)
    decreases |fs|
  {
    hide Rx.OnDataFrame, Rx.OnControlFrame, TakesData, TakesControl, Reorder<VpnFrame>.Sound, BelowTop;
    if fs != [] {
      assert BelowTop(s, fs[0]);
      if fs[0].n == 0 {
        ControlLow(s, fs[0]);
      } else {
        DataLow(s, fs[0]);
      }
      match s.First(fs)
      case None =>
      case Some(t) =>
        BelowTopLater(s, t, fs);
        assert AllBelowTop(t, fs[1..]);
        BelowTopTakes(t, fs[1..]);
    }
  }

  /** The frames that may come depend on the group size only. */
  lemma BelowTopLater(s: Rx, t: Rx, fs: seq<VpnFrame>)
    requires s.Sane() && t.Sane() && s.SameFec(t) && AllBelowTop(s, fs)
    ensures AllBelowTop(t, fs)
  {
    hide ParseHeader, GroupStart;
    forall i | 0 <= i < |fs| ensures BelowTop(t, fs[i]) {
      assert BelowTop(s, fs[i]);
    }
  }

  class RxSessionWorker {
    const reorder: ReorderBuffer<VpnFrame>
    /** The decoder of the session; null without negotiated FEC. */
    const fec: FecDecoder?
    /** Batches handed to the delivery queue. */
    var handed: seq<seq<VpnFrame>>
    /** Buffers given back to the pool, for specification only. */
    ghost var released: multiset<VpnFrame>

    ghost function Parts(): set<object?>
      reads this, reorder, fec
    {
      {this, reorder, reorder.ring, reorder.seqSlots} +
      if fec != null then {fec, fec.doneRing, fec.fence} + fec.cells else {}
    }

    /** The decoder and the reorder buffer share nothing. */
    ghost predicate Valid()
      reads this, reorder, fec, Parts()
    {
      && reorder.Drained()
      && (fec != null ==> fec.Valid() && fec.doneRing != reorder.seqSlots)
    }

    ghost function State(): (s: Rx)
      reads this, reorder, fec, Parts()
      requires Valid()
      ensures s.Sane() && (s.fec.Some? <==> fec != null) && s.order.expected == reorder.expectedSeq
    {
      Rx(if fec != null then Some(fec.State()) else None,
         reorder.State(), Flatten(reorder.pending), handed, released)
    }

    constructor (r: ReorderBuffer<VpnFrame>, d: FecDecoder?)
      requires r.Drained() && (d != null ==> d.Valid() && d.doneRing != r.seqSlots)
      ensures Valid() && reorder == r && fec == d
      ensures State() == Rx(if d != null then Some(d.State()) else None, r.State(), Flatten(r.pending), [], multiset{})
    {
      reorder, fec, handed := r, d, [];
      released := multiset{};
    }

    /** Buffers go back to the pool. */
    method GiveBack(fs: seq<VpnFrame>)
      requires Valid()
      modifies this`released
      ensures Valid() && Parts() == old(Parts())
      ensures State() == old(State()).Release(fs)
    {
      hide Flatten, FecDecoder.Valid, FecDecoder.State, ReorderBuffer<VpnFrame>.Drained;
      released := released + multiset(fs);
    }

    /** One frame into the reorder buffer. */
    method InsertBuffered(f: VpnFrame)
      requires Valid() && Takes(State(), f)
      modifies this`released, reorder, reorder.ring, reorder.seqSlots
      ensures Valid() && (reorder.ring == old(reorder.ring) || fresh(reorder.ring))
      ensures reorder.seqSlots == old(reorder.seqSlots) || fresh(reorder.seqSlots)
      ensures State() == old(State()).Insert(f)
    {
      hide Reorder<VpnFrame>.Insert, Reorder<VpnFrame>.Sound, Flatten, FecDecoder.Valid, FecDecoder.State,
           ReorderBuffer<VpnFrame>.Drained, ReorderBuffer<VpnFrame>.Valid;
      reorder.SoundIsValid();
      var gone := reorder.Insert(f.n, f);
      released := released + multiset(gone);
    }

    /** Hands the frames that are in order to the delivery queue. */
    method Flush()
      requires Valid()
      modifies this`handed, reorder`pending
      ensures Valid() && Parts() == old(Parts())
      ensures State() == old(State()).Flush()
    {
      hide Stores, Reorder<VpnFrame>.Sound, FecDecoder.Valid, FecDecoder.State;
      var chain := reorder.pending;
      reorder.pending := [];
      if chain != [] {
        FlattenNonEmpty(chain);
        handed := handed + [Flatten(chain)];
      }
    }

    static lemma FlattenNonEmpty(chunks: seq<seq<VpnFrame>>)
      requires Chain(chunks) && chunks != []
      ensures Flatten(chunks) != []
    {
    }

    /** The original and what was reconstructed with its help, lower number first. */
    method InsertPair(f: VpnFrame, rec: Option<VpnFrame>)
      requires Valid() && TakesPair(State(), f, rec)
      modifies this`released, reorder, reorder.ring, reorder.seqSlots
      ensures Valid() && (reorder.ring == old(reorder.ring) || fresh(reorder.ring))
      ensures reorder.seqSlots == old(reorder.seqSlots) || fresh(reorder.seqSlots)
      ensures State() == old(State()).InsertPair(f, rec)
    {
      hide Rx.Insert, Takes, Valid, State, Parts;
      match rec {
        case None =>
          InsertBuffered(f);
        case Some(g) =>
          if g.n < f.n {
            InsertBuffered(g);
            InsertBuffered(f);
          } else {
            InsertBuffered(f);
            if g.n > f.n {
              InsertBuffered(g);
            } else {
              GiveBack([g]);
            }
          }
      }
    }

    /** A data frame: through the decoder, then into the reorder buffer with what it completed. */
    method OnDataFrame(f: VpnFrame)
      requires Valid() && f.n != 0 && TakesData(State(), f)
      modifies Parts()
      ensures Valid() && fresh(Parts() - old(Parts()))
      ensures State() == old(State()).OnDataFrame(f)
    {
      hide Rx.InsertPair, TakesPair, Takes, Decoder.OnData, Valid, State;
      var rec: Option<VpnFrame> := None;
      if fec != null {
        rec := Decode(f);
      }
      InsertPair(f, rec);
    }

    /** The decoder's share of a data frame; the reorder buffer is not touched. */
    method Decode(f: VpnFrame) returns (rec: Option<VpnFrame>)
      requires Valid() && fec != null && f.n < U32
      modifies fec, fec.doneRing, fec.cells
      ensures Valid() && fresh(Parts() - old(Parts()))
      ensures var (e, r) := old(State()).fec.value.OnData(f.n, f.data, old(reorder.expectedSeq));
              State() == old(State()).(fec := Some(e)) && rec == r
    {
      hide Flatten, Decoder.OnData, Decoder.Valid, Stores, FecDecoder.Consistent;
      rec := fec.OnData(f.n, f.data, reorder.expectedSeq);
    }

    /** A control frame; false at a protocol error. */
    method OnControlFrame(f: VpnFrame) returns (ok: bool)
      requires Valid() && f.n == 0 && TakesControl(State(), f)
      modifies Parts()
      ensures Valid() && fresh(Parts() - old(Parts()))
      ensures match old(State()).OnControlFrame(f)
              case None => !ok && State() == old(State()).Release([f])
              case Some(s) => ok && State() == s
    {
      hide Rx.Insert, Rx.Flush, Decoder.OnParity, Decoder.OnMode, Valid, State;
      if fec == null {
        GiveBack([f]);
        return false;
      }
      var rec;
      ok, rec := DecodeControl(f);
      GiveBack([f]);
      if ok && rec.Some? {
        InsertBuffered(rec.value);
        Flush();
      }
    }

    /** The decoder's share of a control frame. */
    method DecodeControl(f: VpnFrame) returns (ok: bool, rec: Option<VpnFrame>)
      requires Valid() && fec != null
      modifies fec, fec.doneRing, fec.fence, fec.cells
      ensures Valid() && fresh(Parts() - old(Parts()))
      ensures var d := old(State()).fec.value; var expected := old(reorder.expectedSeq);
              match ParseControl(f.data)
              case Bad => !ok && rec == None && State() == old(State())
              case ParityFrame => ok && rec == d.OnParity(f.data, expected).1 &&
                                  State() == old(State()).(fec := Some(d.OnParity(f.data, expected).0))
              case ModeFrame(c) => ok && rec == None && State() == old(State()).(fec := Some(d.OnMode(c, expected)))
    {
      hide Flatten, Decoder.OnParity, Decoder.OnMode, Decoder.Valid, Stores, FecDecoder.Consistent;
      ok, rec := fec.OnControl(f.data, reorder.expectedSeq);
    }

    /** The data frames i .. j-1 of a batch. */
    method DataRun(frames: seq<VpnFrame>, i: nat, j: nat)
      requires Valid() && i <= j <= |frames| && TakesRun(State(), frames[i..j])
      requires forall x :: i <= x < j ==> frames[x].n != 0
      modifies Parts()
      ensures Valid() && fresh(Parts() - old(Parts()))
      ensures State() == old(State()).Feed(frames[i..j])
    {
      hide Rx.OnDataFrame, TakesData, Valid, State;
      var x := i;
      while x < j
        invariant i <= x <= j && Valid() && fresh(Parts() - old(Parts()))
        invariant TakesRun(State(), frames[x..j])
        invariant State().Feed(frames[x..j]) == old(State()).Feed(frames[i..j])
      {
        assert frames[x..j][1..] == frames[x + 1..j];
        OnDataFrame(frames[x]);
        x := x + 1;
      }
    }

    /** The end of the run of data frames that starts at i. */
    static method RunEnd(frames: seq<VpnFrame>, i: nat) returns (j: nat)
      requires i < |frames| && frames[i].n != 0
      ensures i < j <= |frames| && (forall x :: i <= x < j ==> frames[x].n != 0)
      ensures j < |frames| ==> frames[j].n == 0
    {
      j := i + 1;
      while j < |frames| && frames[j].n != 0
        invariant i < j <= |frames|
        invariant forall x :: i <= x < j ==> frames[x].n != 0
      {
        j := j + 1;
      }
    }

    /** The control frame at position i; at a protocol error everything after it is released. */
    method ControlAt(frames: seq<VpnFrame>, i: nat) returns (ok: bool)
      requires Valid() && i < |frames| && frames[i].n == 0 && TakesAll(State(), frames[i..])
      modifies Parts()
      ensures Valid() && fresh(Parts() - old(Parts()))
      ensures ok ==> TakesAll(State(), frames[i + 1..])
      ensures if ok then old(State()).Process(frames[i..]) == State().Process(frames[i + 1..])
              else old(State()).Process(frames[i..]) == (State(), false)
    {
      hide Rx.OnControlFrame, Rx.OnDataFrame, TakesControl, TakesData, Valid, State, Rx.Flush;
      ok := OnControlFrame(frames[i]);
      assert frames[i..][1..] == frames[i + 1..];
      if !ok {
        ReleaseAll(old(State()), frames[i..]);
        GiveBack(frames[i + 1..]);
      }
    }

    static lemma RunFrom(s: Rx, frames: seq<VpnFrame>, i: nat, j: nat)
      requires s.Sane() && i < j <= |frames| && TakesAll(s, frames[i..])
      requires (forall x :: i <= x < j ==> frames[x].n != 0) && (j < |frames| ==> frames[j].n == 0)
      ensures TakesRun(s, frames[i..j])
      ensures var t := s.Feed(frames[i..j]).Flush();
              TakesAll(t, frames[j..]) && s.Process(frames[i..]) == t.Process(frames[j..])
    {
      hide *;
      ProcessRun(s, frames[i..], j - i);
      TakesSplit(s, frames[i..], j - i);
      assert frames[i..][..j - i] == frames[i..j] && frames[i..][j - i..] == frames[j..];
    }

    /** The run of data frames at position i, and the flush that ends it. */
    method RunAt(frames: seq<VpnFrame>, i: nat) returns (j: nat)
      requires Valid() && i < |frames| && frames[i].n != 0 && TakesAll(State(), frames[i..])
      modifies Parts()
      ensures Valid() && fresh(Parts() - old(Parts()))
      ensures i < j <= |frames| && TakesAll(State(), frames[j..])
      ensures old(State()).Process(frames[i..]) == State().Process(frames[j..])
    {
      hide Rx.OnDataFrame, Rx.Feed, Rx.Process, Rx.Flush, TakesAll, TakesRun, Valid, State;
      j := RunEnd(frames, i);
      RunFrom(State(), frames, i, j);
      DataRun(frames, i, j);
      Flush();
    }

    /** One batch: runs of data frames and controls in turn. */
    method Process(frames: seq<VpnFrame>) returns (ok: bool)
      requires Valid() && TakesAll(State(), frames)
      modifies Parts()
      ensures Valid() && fresh(Parts() - old(Parts()))
      ensures (State(), ok) == old(State()).Process(frames)
    {
      hide Rx.First, TakesAll, Valid, State;
      var i := 0;
      assert frames[0..] == frames;
      while i < |frames|
        invariant 0 <= i <= |frames| && Valid() && fresh(Parts() - old(Parts()))
        invariant TakesAll(State(), frames[i..])
        invariant old(State()).Process(frames) == State().Process(frames[i..])
      {
        if frames[i].n == 0 {
          ok := ControlAt(frames, i);
          if !ok {
            return false;
          }
          i := i + 1;
        } else {
          i := RunAt(frames, i);
        }
      }
      return true;
    }

    method ExpireOrder(due: bool)
      requires Valid() && State().order.Sound()
      modifies reorder, reorder.ring, reorder.seqSlots
      ensures Valid() && Parts() == old(Parts())
      ensures var s := old(State()); var (o, out) := s.order.Expire();
              State() == if due then s.(order := o, ready := s.ready + out) else s
    {
      hide Stores, Flatten, Reorder<VpnFrame>.Expire, Reorder<VpnFrame>.Sound, FecDecoder.Valid, FecDecoder.State, Distance, InWindow;
      reorder.ExpireGap(due);
      assert Flatten(old(reorder.pending)) + [] == Flatten(old(reorder.pending));
    }

    /** The gap timer: a due gap is given up and what it held back is delivered. */
    method GapTimer(due: bool)
      requires Valid() && State().order.Sound()
      modifies this`handed, reorder, reorder.ring, reorder.seqSlots
      ensures Valid() && Parts() == old(Parts())
      ensures State() == if due then old(State()).Expire() else old(State())
    {
      hide Flatten, Reorder<VpnFrame>.Expire, Reorder<VpnFrame>.Sound, FecDecoder.Valid, FecDecoder.State, ReorderBuffer<VpnFrame>.Drained;
      var gap := reorder.gapSet;
      if !gap {
        ExpireIdle(reorder.State());
      }
      ExpireOrder(due);
      assert Flatten(old(reorder.pending)) + [] == Flatten(old(reorder.pending));
      if due && gap {
        Flush();
      }
    }

    method ResetDecoder()
      requires Valid()
      modifies if fec != null then {fec, fec.doneRing, fec.fence} + fec.cells else {}
      ensures Valid() && Parts() == old(Parts())
      ensures State() == old(State()).(fec := if fec != null then Some(old(State()).fec.value.Reset()) else None)
    {
      hide Stores, Flatten, Decoder.Valid, Decoder.Reset, Reorder<VpnFrame>.Sound;
      if fec != null {
        fec.Reset();
      }
    }

    method ResetOrder()
      requires Valid()
      modifies this`released, reorder, reorder.ring, reorder.seqSlots
      ensures Valid() && Parts() == old(Parts())
      ensures State() == old(State()).(order := old(State()).order.Reset(), ready := [], released := released)
      ensures released == old(released) + Bag(old(State()).order.buffered) + multiset(old(State()).ready)
    {
      hide Stores, Flatten, Bag, Decoder.Valid, FecDecoder.Valid, FecDecoder.State, ReorderBuffer<VpnFrame>.Drained,
           ReorderBuffer<VpnFrame>.Drainable, ReorderBuffer<VpnFrame>.Valid;
      reorder.DrainedMeans();
      var gone := reorder.Reset();
      reorder.DrainedMeans();
      released := released + multiset(gone);
      FlattenNone();
    }

    /** An epoch change: decoder and reorder buffer forget everything, and every frame held is released. */
    method Reset()
      requires Valid()
      modifies Parts()
      ensures Valid() && Parts() == old(Parts())
      ensures State().fec == (if fec != null then Some(old(State()).fec.value.Reset()) else None)
      ensures State().order == old(State()).order.Reset() && State().ready == [] && handed == old(handed)
      ensures released == old(released) + Bag(old(State()).order.buffered) + multiset(old(State()).ready)
    {
      hide Flatten, Bag, FecDecoder.Valid, FecDecoder.State, ReorderBuffer<VpnFrame>.Drained, Decoder.Reset;
      ResetDecoder();
      ResetOrder();
    }

    static lemma FlattenNone()
      ensures Flatten<VpnFrame>([]) == []
    {
    }
  }
}
