/**
 The reorder buffer as it runs: a ring of slots indexed by sequence number modulo
 the window, a parallel array of the numbers stored, and a chain of 64-frame
 chunks of frames ready for delivery.  Every method is proved to act as the
 simple form does, for numbers of any size around the 32-bit circle; in particular
 two frames never compete for a slot.
 */
module ReorderRing {
  import opened Wire
  import opened Division
  import opened FecControl
  import opened Reorder

  const CHUNK := 64

  // ---- the chunk chain ----

  function Flatten<F>(chunks: seq<seq<F>>): seq<F> {
    if chunks == [] then [] else Flatten(chunks[..|chunks| - 1]) + chunks[|chunks| - 1]
  }

  /** All chunks but the last are full, and the last is not empty. */
  predicate Chain<F>(chunks: seq<seq<F>>) {
    && (forall i :: 0 <= i < |chunks| - 1 ==> |chunks[i]| == CHUNK)
    && (chunks != [] ==> 0 < |chunks[|chunks| - 1]| <= CHUNK)
  }

  function Push<F>(chunks: seq<seq<F>>, f: F): (r: seq<seq<F>>)
    requires Chain(chunks)
    ensures Chain(r)
    ensures Flatten(r) == Flatten(chunks) + [f]
  {
    if chunks == [] || |chunks[|chunks| - 1]| == CHUNK then
      assert (chunks + [[f]])[..|chunks|] == chunks;
      chunks + [[f]]
    else
      var last := chunks[|chunks| - 1];
      var r := chunks[..|chunks| - 1] + [last + [f]];
      assert r[..|r| - 1] == chunks[..|chunks| - 1];
      r
  }

  // ---- slots ----

  /** The slot of a number: its low bits, the window size being a power of two. */
  function Slot(n: nat, size: nat): (i: nat)
    requires size > 0
    ensures i < size
  {
    n % size
  }

  /** Numbers less than a window apart have different slots. */
  lemma SlotsDiffer(a: nat, b: nat, size: nat)
    requires size > 0 && a < b < a + size
    ensures a % size != b % size
  {
    if a % size == b % size {
      DivMod(a, size);
      DivMod(b, size);
      assert b - a == (b / size - a / size) * size;
      var q := b / size - a / size;
      if q >= 1 {
        AtLeastOnce(q, size);
      } else if q <= -1 {
        AtLeastOnce(-q, size);
      }
    }
  }

  /** Windows divide the circle of numbers: going round does not change the slot. */
  lemma SlotRound(n: nat, size: nat)
    requires WindowSize(size)
    ensures Slot(n + U32, size) == Slot(n, size)
  {
    var c :=
      if size == 2048 then 2097152 else if size == 4096 then 1048576 else if size == 8192 then 524288
      else if size == 16384 then 262144 else if size == 32768 then 131072 else 65536;
    assert c * size == U32;
    DivMod(n, size);
    Decompose(n + U32, size, n / size + c, n % size);
  }

  lemma SlotAhead(e: nat, size: nat, n: nat)
    requires WindowSize(size) && e < U32 && n < U32
    ensures Slot(n, size) == Slot(e + Distance(n, e), size)
  {
    hide Slot;
    MoveTo(n, e);
    if n < e {
      SlotRound(n, size);
    }
  }

  /** Two numbers of one window have different slots. */
  lemma SlotsDistinct(e: nat, size: nat, a: nat, b: nat)
    requires WindowSize(size) && e < U32 && a < U32 && b < U32
    requires Distance(a, e) < size && Distance(b, e) < size && Slot(a, size) == Slot(b, size)
    ensures a == b
  {
    hide Slot, Distance;
    SlotAhead(e, size, a);
    SlotAhead(e, size, b);
    var x, y := e + Distance(a, e), e + Distance(b, e);
    if x < y {
      SlotsApart(x, y, size);
    } else if y < x {
      SlotsApart(y, x, size);
    }
    MoveTo(a, e);
    MoveTo(b, e);
  }

  lemma SlotsApart(a: nat, b: nat, size: nat)
    requires size > 0 && a < b < a + size
    ensures Slot(a, size) != Slot(b, size)
  {
    SlotsDiffer(a, b, size);
  }

  /** The slot of n holds n and its frame f. */
  ghost predicate Placed<F>(r: seq<Option<F>>, q: seq<nat>, n: nat, f: F)
    requires 0 < |r| == |q|
  {
    r[Slot(n, |r|)] == Some(f) && q[Slot(n, |r|)] == n
  }

  /** An occupied slot holds a number of m that belongs there. */
  ghost predicate Occupant<F>(r: seq<Option<F>>, q: seq<nat>, m: map<nat, F>, i: nat)
    requires 0 < |r| == |q| && i < |r|
  {
    r[i].Some? ==> q[i] in m && Slot(q[i], |r|) == i
  }

  /** The slots r with numbers q store exactly the numbers of m that pass the filter p. */
  ghost predicate StoresSome<F>(r: seq<Option<F>>, q: seq<nat>, m: map<nat, F>, p: set<nat>) {
    && 0 < |r| == |q|
    && (forall n :: n in m && n in p ==> Placed(r, q, n, m[n]))
    && (forall i :: 0 <= i < |r| ==> Occupant(r, q, m, i) && (r[i].Some? ==> q[i] in p))
  }

  ghost predicate Stores<F>(r: seq<Option<F>>, q: seq<nat>, m: map<nat, F>) {
    StoresSome(r, q, m, m.Keys)
  }

  /** The numbers of m are in the window from e on. */
  ghost predicate Within<F>(m: map<nat, F>, e: nat, size: nat) {
    WindowSize(size) && e < U32 && InWindow(m, e, size)
  }

  /** The slot of an in-window number is occupied exactly when that number is stored. */
  lemma SlotIffStored<F>(r: seq<Option<F>>, q: seq<nat>, m: map<nat, F>, e: nat, n: nat)
    requires Stores(r, q, m) && Within(m, e, |r|) && n < U32 && Distance(n, e) < |r|
    ensures 0 < |r| == |q|
    ensures r[Slot(n, |r|)].Some? <==> n in m
    ensures n in m ==> Placed(r, q, n, m[n])
  {
    hide Slot, Distance;
    var i := Slot(n, |r|);
    if n !in m && r[i].Some? {
      assert Occupant(r, q, m, i);
      SlotsDistinct(e, |r|, n, q[i]);
    }
  }

  lemma PlaceStores<F>(r: seq<Option<F>>, q: seq<nat>, m: map<nat, F>, p: set<nat>, n: nat, f: F)
    requires StoresSome(r, q, m, p) && r[Slot(n, |r|)].None? && (n in m ==> m[n] == f)
    ensures StoresSome(r[Slot(n, |r|) := Some(f)], q[Slot(n, |r|) := n], m[n := f], p + {n})
  {
    hide Slot;
    var i := Slot(n, |r|);
    var r', q', m' := r[i := Some(f)], q[i := n], m[n := f];
    forall x | x in m' && x in p + {n}
      ensures Placed(r', q', x, m'[x])
    {
      if x != n {
        assert Placed(r, q, x, m[x]);
      }
    }
    forall j | 0 <= j < |r'|
      ensures Occupant(r', q', m', j) && (r'[j].Some? ==> q'[j] in p + {n})
    {
      assert Occupant(r, q, m, j);
    }
  }

  lemma TakeStores<F>(r: seq<Option<F>>, q: seq<nat>, m: map<nat, F>, n: nat)
    requires Stores(r, q, m) && n in m
    ensures Stores(r[Slot(n, |r|) := None], q[Slot(n, |r|) := 0], m - {n})
  {
    hide Slot;
    var i := Slot(n, |r|);
    assert Placed(r, q, n, m[n]);
    var r', q', m' := r[i := None], q[i := 0], m - {n};
    forall x | x in m'
      ensures Placed(r', q', x, m'[x])
    {
      assert Placed(r, q, x, m[x]);
    }
    forall j | 0 <= j < |r'|
      ensures Occupant(r', q', m', j)
    {
      assert Occupant(r, q, m, j);
    }
  }

  /** The numbers whose old slot is below i. */
  ghost function Below<F>(m: map<nat, F>, size: nat, i: nat): set<nat>
    requires size > 0
  {
    set n | n in m && Slot(n, size) < i
  }

  /** Rehashing slot i never collides: its new slot is still free. */
  lemma RehashStep<F>(r: seq<Option<F>>, q: seq<nat>, m: map<nat, F>, e: nat, r2: seq<Option<F>>, q2: seq<nat>, i: nat)
    requires Stores(r, q, m) && Within(m, e, |r|) && |r| <= |r2| && WindowSize(|r2|) && i < |r|
    requires StoresSome(r2, q2, m, Below(m, |r|, i))
    ensures r[i].None? ==> Below(m, |r|, i + 1) == Below(m, |r|, i)
    ensures r[i].Some? ==>
              && q[i] in m && r[i] == Some(m[q[i]])
              && r2[Slot(q[i], |r2|)].None?
              && Below(m, |r|, i + 1) == Below(m, |r|, i) + {q[i]}
  {
    hide Slot, Distance;
    assert Occupant(r, q, m, i);
    forall n | n in m
      ensures Slot(n, |r|) == i ==> r[i].Some? && q[i] == n
    {
      assert Placed(r, q, n, m[n]);
    }
    if r[i].Some? {
      var n := q[i];
      assert Placed(r, q, n, m[n]);
      var j := Slot(n, |r2|);
      if r2[j].Some? {
        assert Occupant(r2, q2, m, j);
        SlotsDistinct(e, |r2|, n, q2[j]);
      }
    }
  }

  lemma WiderWindow<F>(m: map<nat, F>, e: nat, size: nat, wider: nat)
    requires InWindow(m, e, size) && size <= wider
    ensures InWindow(m, e, wider)
  {
    hide Distance;
  }

  lemma RehashStart<F>(r: seq<Option<F>>, q: seq<nat>, m: map<nat, F>, r2: seq<Option<F>>, q2: seq<nat>)
    requires Stores(r, q, m) && |r| <= |r2| == |q2| && forall i :: 0 <= i < |r2| ==> r2[i].None?
    ensures |r| > 0 && StoresSome(r2, q2, m, Below(m, |r|, 0))
  {
    hide Slot;
    assert Below(m, |r|, 0) == {};
  }

  lemma RehashEnd<F>(r2: seq<Option<F>>, q2: seq<nat>, m: map<nat, F>, size: nat)
    requires size > 0 && StoresSome(r2, q2, m, Below(m, size, size))
    ensures Stores(r2, q2, m)
  {
    hide Slot, StoresSome;
    assert Below(m, size, size) == m.Keys;
  }

  /** An occupied slot names the frame it holds. */
  lemma OccupantOf<F>(r: seq<Option<F>>, q: seq<nat>, m: map<nat, F>, i: nat)
    requires Stores(r, q, m) && i < |r| && r[i].Some?
    ensures q[i] in m && Slot(q[i], |r|) == i && r[i] == Some(m[q[i]])
  {
    hide Slot;
    assert Occupant(r, q, m, i);
  }

  lemma NothingStored<F>(r: seq<Option<F>>, q: seq<nat>, m: map<nat, F>)
    requires Stores(r, q, m) && forall i :: 0 <= i < |r| ==> r[i].None?
    ensures m == map[]
  {
    assert forall n :: n in m ==> Placed(r, q, n, m[n]);
  }

  /**
   The last number is one too many: delivered with frame 5 waiting behind it, it leaves a
   buffer that takes any number for the next one.  Frame 2053 shares its slot with frame 5:
   the simple form delivers it, and TopNumberRefused shows the ring refusing it.
   */
  lemma TopNumberClashes<F>(a: F, b: F, c: F, d: F)
    ensures var r := Empty<F>().Insert(TOP - 1, a).0.Insert(5, b).0.Insert(TOP, c).0;
            && r.expected == 0 && 5 in r.buffered && !r.Sound()
            && Slot(2053, r.size) == Slot(5, r.size) && r.Insert(2053, d).1 == [d]
  {
    var r1, r2, r3 := TopStates(a, b, c);
    RunEnds(r3.buffered[2053 := d], 2053, 5);
  }

  lemma TopStates<F>(a: F, b: F, c: F) returns (r1: Reorder<F>, r2: Reorder<F>, r3: Reorder<F>)
    ensures r1 == Empty<F>().Insert(TOP - 1, a).0 == Reorder(TOP, WINDOW, map[], false)
    ensures r2 == r1.Insert(5, b).0 == Reorder(TOP, WINDOW, map[5 := b], true)
    ensures r3 == r2.Insert(TOP, c).0 == Reorder(0, WINDOW, map[5 := b], false)
  {
    r1 := Empty<F>().Insert(TOP - 1, a).0;
    InsertFirst(TOP - 1, a);
    DrainSingle(Reorder(TOP - 1, WINDOW, Empty<F>().buffered[TOP - 1 := a], false), TOP - 1, a);
    r2 := r1.Insert(5, b).0;
    assert r1.buffered[5 := b] == map[5 := b];
    r3 := r2.Insert(TOP, c).0;
    RunEnds(r2.buffered[TOP := c], TOP, 5);
    assert r2.buffered[TOP := c] - {TOP} == map[5 := b];
  }

  /** A run of one frame, with one other frame around. */
  lemma RunEnds<F>(b: map<nat, F>, e: nat, other: nat)
    requires e in b && b.Keys == {e, other} && other != e && other != e + 1
    ensures Run(b, e) == [b[e]] && Rest(b, e) == b - {e}
  {
    var c := b - {e};
    assert e + 1 !in c;
    assert Run(c, e + 1) == [] && Rest(c, e + 1) == c;
  }

  // ---- the drain, one frame at a time ----

  function Next(e: nat): nat {
    (e + 1) % U32
  }

  /** From b and e the drain has delivered done and come to c and at. */
  ghost predicate SoFar<F>(b: map<nat, F>, e: nat, c: map<nat, F>, at: nat, done: seq<F>) {
    && (forall n :: n in c ==> 0 < n < U32)
    && at == (e + |done|) % U32 && done + Run(c, at) == Run(b, e) && Rest(c, at) == Rest(b, e)
  }

  lemma NoneDrained<F>(b: map<nat, F>, e: nat)
    requires e < U32 && forall n :: n in b ==> 0 < n < U32
    ensures SoFar(b, e, b, e, [])
  {
    hide Run, Rest;
    assert [] + Run(b, e) == Run(b, e);
  }

  /** After the last number the run is over: number 0 is never held. */
  lemma DrainedStep<F>(b: map<nat, F>, e: nat, c: map<nat, F>, at: nat, done: seq<F>)
    requires SoFar(b, e, c, at, done) && at in c
    ensures SoFar(b, e, c - {at}, Next(at), done + [c[at]])
  {
    RunStep(c, at);
    hide Run, Rest;
    var tail := Run(c - {at}, Next(at));
    assert done + ([c[at]] + tail) == (done + [c[at]]) + tail;
  }

  lemma {:induction false} RunStep<F>(b: map<nat, F>, e: nat)
    requires e in b && forall n :: n in b ==> 0 < n < U32
    ensures Run(b, e) == [b[e]] + Run(b - {e}, Next(e)) && Rest(b, e) == Rest(b - {e}, Next(e))
  {
    var c := b - {e};
    assert Run(b, e) == [b[e]] + Run(c, e + 1) && Rest(b, e) == Rest(c, e + 1);
    assert Next(e) == e + 1 || (Next(e) !in c && e + 1 !in c);
  }

  lemma AllDrained<F>(b: map<nat, F>, e: nat, c: map<nat, F>, at: nat, done: seq<F>)
    requires SoFar(b, e, c, at, done) && at !in c
    ensures done == Run(b, e) && c == Rest(b, e) && at == (e + |done|) % U32
  {
    assert done + [] == done;
  }

  class ReorderBuffer<F(0)> {
    var expectedSeq: nat
    var ring: array<Option<F>>
    var seqSlots: array<nat>
    var buffered: nat
    var pending: seq<seq<F>>
    var gapSet: bool
    var gapEvents: nat
    var timeoutFlushes: nat
    var skippedFrames: nat
    /** What the ring holds, for specification only. */
    ghost var held: map<nat, F>

    ghost function State(): Reorder<F>
      reads this
    {
      Reorder(expectedSeq, ring.Length, held, gapSet)
    }

    /** The ring stores exactly the held frames. */
    ghost predicate Stored()
      reads this, ring, seqSlots
    {
      && ring as object != seqSlots
      && Stores(ring[..], seqSlots[..], held)
      && buffered == |held|
    }

    ghost predicate Valid()
      reads this, ring, seqSlots
    {
      Stored() && State().Sound() && Chain(pending)
    }

    constructor ()
      ensures Valid() && State() == Empty() && pending == [] && fresh(ring) && fresh(seqSlots)
    {
      expectedSeq, buffered, gapSet := 0, 0, false;
      gapEvents, timeoutFlushes, skippedFrames := 0, 0, 0;
      ring := new Option<F>[WINDOW](_ => None);
      seqSlots := new nat[WINDOW](_ => 0);
      pending := [];
      held := map[];
    }

    /** Puts a frame into its empty slot. */
    method Place(n: nat, f: F)
      requires Stored() && n !in held && ring[Slot(n, ring.Length)].None?
      modifies this`buffered, this`held, ring, seqSlots
      ensures Stored() && held == old(held)[n := f]
    {
      hide Slot;
      var i := Slot(n, ring.Length);
      PlaceStores(ring[..], seqSlots[..], held, held.Keys, n, f);
      ring[i] := Some(f);
      seqSlots[i] := n;
      buffered := buffered + 1;
      held := held[n := f];
      assert held.Keys == old(held).Keys + {n} && |held| == |held.Keys| && |old(held)| == |old(held).Keys|;
      assert ring[..] == old(ring[..])[i := Some(f)] && seqSlots[..] == old(seqSlots[..])[i := n];
    }

    /** Empties the slot of a held number. */
    method TakeOut(n: nat) returns (f: F)
      requires Stored() && n in held
      modifies this`buffered, this`held, ring, seqSlots
      ensures Stored() && held == old(held) - {n} && f == old(held)[n]
      ensures ring[..] == old(ring[..])[Slot(n, ring.Length) := None]
    {
      hide Slot;
      assert Placed(ring[..], seqSlots[..], n, held[n]);
      TakeStores(ring[..], seqSlots[..], held, n);
      RemoveOne(held, n);
      var i := Slot(n, ring.Length);
      f := ring[i].value;
      ring[i] := None;
      seqSlots[i] := 0;
      buffered := buffered - 1;
      held := held - {n};
      assert ring[..] == old(ring[..])[i := None] && seqSlots[..] == old(seqSlots[..])[i := 0];
    }

    /** Doubles the window until it exceeds need and rehashes every frame, if the maximum allows it. */
    method GrowWindow(need: nat) returns (ok: bool)
      requires Stored() && ring.Length <= need && Within(held, expectedSeq, ring.Length)
      modifies this`ring, this`seqSlots
      ensures Stored()
      ensures ok <==> old(ring.Length) < MAX_WINDOW && Grown(old(ring.Length), need).Some?
      ensures if ok then fresh(ring) && fresh(seqSlots) && ring.Length == Grown(old(ring.Length), need).value
              else ring == old(ring) && seqSlots == old(seqSlots)
    {
      if ring.Length >= MAX_WINDOW {
        return false;
      }
      var newSize := ring.Length;
      while newSize <= need && newSize < MAX_WINDOW
        invariant WindowSize(newSize) && newSize >= ring.Length
        invariant Grown(ring.Length, need) == Grown(newSize, need)
        decreases MAX_WINDOW - newSize
      {
        newSize := 2 * newSize;
      }
      if newSize <= need {
        return false;
      }
      Rehash(newSize);
      return true;
    }

    method Rehash(newSize: nat)
      requires Stored() && newSize >= ring.Length && WindowSize(newSize) && Within(held, expectedSeq, ring.Length)
      modifies this`ring, this`seqSlots
      ensures Stored() && ring.Length == newSize && fresh(ring) && fresh(seqSlots)
    {
      hide Slot, Stores, StoresSome, Below, Within, WindowSize;
      var newRing := new Option<F>[newSize](_ => None);
      var newSeqs := new nat[newSize](_ => 0);
      RehashStart(ring[..], seqSlots[..], held, newRing[..], newSeqs[..]);
      var i := 0;
      while i < ring.Length
        modifies newRing, newSeqs
        invariant 0 <= i <= ring.Length && 0 < ring.Length && Stored()
        invariant StoresSome(newRing[..], newSeqs[..], held, Below(held, ring.Length, i))
      {
        MoveSlot(newRing, newSeqs, i);
        i := i + 1;
      }
      RehashEnd(newRing[..], newSeqs[..], held, ring.Length);
      ring, seqSlots := newRing, newSeqs;
    }

    /** Copies the frame in slot i, if there is one, to its slot in the new ring. */
    method MoveSlot(newRing: array<Option<F>>, newSeqs: array<nat>, i: nat)
      requires Stored() && Within(held, expectedSeq, ring.Length) && i < ring.Length
      requires newRing.Length >= ring.Length && WindowSize(newRing.Length)
      requires newRing != ring && newRing as object != seqSlots && newSeqs != seqSlots && newRing as object != newSeqs
      requires newSeqs as object != ring
      requires StoresSome(newRing[..], newSeqs[..], held, Below(held, ring.Length, i))
      modifies newRing, newSeqs
      ensures StoresSome(newRing[..], newSeqs[..], held, Below(held, ring.Length, i + 1))
    {
      hide Slot, Below, Within, WindowSize, Placed, Occupant;
      RehashStep(ring[..], seqSlots[..], held, expectedSeq, newRing[..], newSeqs[..], i);
      if ring[i].Some? {
        var n := seqSlots[i];
        var j := Slot(n, newRing.Length);
        PlaceStores(newRing[..], newSeqs[..], held, Below(held, ring.Length, i), n, ring[i].value);
        assert held[n := held[n]] == held;
        newRing[j] := ring[i];
        newSeqs[j] := n;
        assert newRing[..] == old(newRing[..])[j := ring[i]] && newSeqs[..] == old(newSeqs[..])[j := n];
      }
    }

    /** Keeps the gap flag in step with what is held. */
    method RefreshGap()
      requires Stored() && Within(held, expectedSeq, ring.Length) && expectedSeq !in held
      modifies this`gapSet, this`gapEvents
      ensures Stored() && (gapSet <==> held != map[] && expectedSeq != 0)
    {
      MoveTo(expectedSeq, expectedSeq);
      SlotIffStored(ring[..], seqSlots[..], held, expectedSeq, expectedSeq);
      var hasGap := buffered > 0 && expectedSeq != 0 && ring[Slot(expectedSeq, ring.Length)].None?;
      if hasGap {
        if !gapSet {
          gapSet := true;
          gapEvents := gapEvents + 1;
        }
      } else {
        gapSet := false;
      }
      hide Slot, Stores;
    }

    /** Held numbers are in the window, the expected one included. */
    ghost predicate Drainable()
      reads this, ring, seqSlots
    {
      Stored() && Chain(pending) && Within(held, expectedSeq, ring.Length)
    }

    /** Nothing held is due, and the gap flag is right. */
    ghost predicate Drained()
      reads this, ring, seqSlots
    {
      Drainable() && expectedSeq !in held && (gapSet <==> held != map[] && expectedSeq != 0)
    }

    /** A drained buffer is valid, unless the numbers ran out with frames waiting. */
    lemma DrainedIsValid()
      ensures Drained() ==> Valid() || (expectedSeq == 0 && held != map[])
      ensures Valid() ==> Drained()
    {
      hide Distance, Stores;
      if expectedSeq < U32 {
        MoveTo(expectedSeq, expectedSeq);
        forall n | n in held && n < U32 && n != expectedSeq ensures Distance(n, expectedSeq) > 0 {
          MoveTo(n, expectedSeq);
        }
      }
    }

    lemma DrainedMeans()
      ensures Drained() ==> Drainable()
      ensures Valid() ==> Drained()
    {
      DrainedIsValid();
    }

    lemma SoundIsValid()
      requires Drained() && State().Sound()
      ensures Valid()
    {
    }

    /** Moves the consecutive frames from the expected number on to the delivery chain. */
    method Drain()
      requires Drainable()
      modifies this`expectedSeq, this`buffered, this`pending, this`gapSet, this`gapEvents, this`held, ring, seqSlots
      ensures Drained()
      ensures State() == old(State()).Drain().0
      ensures Flatten(pending) == Flatten(old(pending)) + old(State()).Drain().1
    {
      hide Slot, Stores, Run, Rest, Flatten;
      ghost var was := State();
      gapSet := false;
      ghost var done := DrainRun();
      assert done == Run(was.buffered, was.expected);
      RefreshGap();
    }

    /** The loop of the drain: it ends because every turn takes one buffered frame. */
    method DrainRun() returns (ghost done: seq<F>)
      requires Drainable()
      modifies this`expectedSeq, this`buffered, this`pending, this`held, ring, seqSlots
      ensures Drainable() && expectedSeq !in held
      ensures done == Run(old(held), old(expectedSeq)) && held == Rest(old(held), old(expectedSeq))
      ensures expectedSeq == (old(expectedSeq) + |done|) % U32
      ensures Flatten(pending) == Flatten(old(pending)) + done
    {
      hide *;
      done := [];
      DueSlot();
      NoneDrained(held, expectedSeq);
      while ring[Slot(expectedSeq, ring.Length)].Some?
        invariant Drainable() && 0 < ring.Length
        invariant ring[Slot(expectedSeq, ring.Length)].Some? <==> expectedSeq in held
        invariant SoFar(old(held), old(expectedSeq), held, expectedSeq, done)
        invariant Flatten(pending) == Flatten(old(pending)) + done
        decreases buffered
      {
        DrainedStep(old(held), old(expectedSeq), held, expectedSeq, done);
        done := done + [held[expectedSeq]];
        DrainOne();
        DueSlot();
      }
      AllDrained(old(held), old(expectedSeq), held, expectedSeq, done);
    }

    /** The slot of the expected number is occupied exactly when its frame is held. */
    lemma DueSlot()
      requires Drainable()
      ensures expectedSeq < U32 && 0 < ring.Length && forall n :: n in held ==> 0 < n < U32
      ensures ring[Slot(expectedSeq, ring.Length)].Some? <==> expectedSeq in held
    {
      hide Slot, Stores, Distance;
      MoveTo(expectedSeq, expectedSeq);
      SlotIffStored(ring[..], seqSlots[..], held, expectedSeq, expectedSeq);
    }

    /** One turn of the drain. */
    method DrainOne()
      requires Drainable() && expectedSeq in held
      modifies this`expectedSeq, this`buffered, this`pending, this`held, ring, seqSlots
      ensures Drainable() && expectedSeq == Next(old(expectedSeq)) && buffered == old(buffered) - 1
      ensures held == old(held) - {old(expectedSeq)}
      ensures Flatten(pending) == Flatten(old(pending)) + [old(held)[old(expectedSeq)]]
    {
      hide Slot, Stores, Push, Chain, Flatten, Distance;
      var f := TakeOut(expectedSeq);
      pending := Push(pending, f);
      forall n | n in held ensures Distance(n, Next(expectedSeq)) < ring.Length {
        OneFurther(n, expectedSeq);
      }
      expectedSeq := Next(expectedSeq);
    }

    /** Makes the window reach the given distance, if it can. */
    method Reach(distance: nat) returns (ok: bool)
      requires Stored() && WindowSize(ring.Length) && (ring.Length <= distance ==> Within(held, expectedSeq, ring.Length))
      modifies this`ring, this`seqSlots
      ensures Stored() && (ring == old(ring) || fresh(ring)) && (seqSlots == old(seqSlots) || fresh(seqSlots))
      ensures distance < old(ring.Length) ==> ring == old(ring) && seqSlots == old(seqSlots)
      ensures match Fitting(old(ring.Length), distance)
              case None => !ok && ring.Length == old(ring.Length)
              case Some(w) => ok && ring.Length == w
    {
      hide Stores;
      if distance < ring.Length {
        return true;
      }
      if distance >= MAX_WINDOW {
        return false;
      }
      ok := GrowWindow(distance + 1);
    }

    /** Puts an in-window frame into its empty slot; delivers if it is the expected one. */
    method Store(n: nat, f: F)
      requires Drainable() && 0 < n < U32 && Distance(n, expectedSeq) < ring.Length && ring[Slot(n, ring.Length)].None?
      requires 0 < expectedSeq && expectedSeq !in held && n !in held
      modifies this`expectedSeq, this`buffered, this`pending, this`gapSet, this`gapEvents, this`held, ring, seqSlots
      ensures Drained()
      ensures var r := old(State()); var s := r.(buffered := r.buffered[n := f]);
              && State() == (if n == r.expected then s.Drain().0 else s.(gap := true))
              && Flatten(pending) == Flatten(old(pending)) + if n == r.expected then s.Drain().1 else []
    {
      hide Slot, Stores, Distance, Reorder<F>.Drain, Flatten;
      Place(n, f);
      if n == expectedSeq {
        DrainIgnoresGap(State(), old(gapSet));
        Drain();
      } else {
        assert n in held;
        RefreshGap();
        assert Flatten(old(pending)) + [] == Flatten(old(pending));
      }
    }

    /**
     Accepts one frame; the frame comes back when it is not kept.  The buffer is valid again
     unless the last number was delivered with frames waiting behind it.  A buffer left so
     still refuses a frame whose slot is taken.
     */
    method Insert(n: nat, f: F) returns (released: seq<F>)
      requires Drained() && n < U32 && (Valid() || (n > 0 && ring[Slot(n, ring.Length)].Some?))
      modifies this, ring, seqSlots
      ensures (ring == old(ring) || fresh(ring)) && (seqSlots == old(seqSlots) || fresh(seqSlots))
      ensures old(Valid()) ==>
                && Drained() && (Valid() || (expectedSeq == 0 && held != map[]))
                && State() == old(State()).Insert(n, f).0
                && Flatten(pending) == Flatten(old(pending)) + old(State()).Insert(n, f).1
                && released == old(State()).Insert(n, f).2
      ensures !old(Valid()) ==> released == [f] && held == old(held) && pending == old(pending) && expectedSeq == n
    {
      hide Slot, Stores, Reorder<F>.Insert, Distance, Flatten, Chain;
      DrainedIsValid();
      assert Flatten(pending) + [] == Flatten(pending);
      if n == 0 {
        InsertNone(State(), f);
        return [f];
      }
      if expectedSeq == 0 {
        InsertStart(State(), n, f);
        expectedSeq := n;
        MoveTo(n, n);
      }
      released := Admit(n, f);
      DrainedIsValid();
    }

    static lemma InsertNone(r: Reorder<F>, f: F)
      requires WindowSize(r.size)
      ensures r.Insert(0, f) == (r, [], [f])
    {
    }

    /** The first number decides where to start. */
    static lemma InsertStart(r: Reorder<F>, n: nat, f: F)
      requires WindowSize(r.size) && r.expected == 0 < n
      ensures r.Insert(n, f) == r.(expected := n).Insert(n, f)
    {
    }

    /** Nothing held is due, and there is a gap exactly when something is held. */
    ghost predicate Waiting()
      reads this
    {
      InWindow(held, expectedSeq, ring.Length) && expectedSeq !in held && (gapSet <==> held != map[])
    }

    /** Accepts one frame once there is an expected number. */
    method Admit(n: nat, f: F) returns (released: seq<F>)
      requires Stored() && Chain(pending) && WindowSize(ring.Length) && 0 < n < U32 && 0 < expectedSeq < U32
      requires (n == expectedSeq && ring[Slot(n, ring.Length)].Some?) || Waiting()
      modifies this, ring, seqSlots
      ensures (ring == old(ring) || fresh(ring)) && (seqSlots == old(seqSlots) || fresh(seqSlots))
      ensures old(n == expectedSeq && ring[Slot(n, ring.Length)].Some?) ==>
                released == [f] && held == old(held) && pending == old(pending) && expectedSeq == n
      ensures old(Waiting()) ==>
                && Drained()
                && State() == old(State()).Insert(n, f).0
                && Flatten(pending) == Flatten(old(pending)) + old(State()).Insert(n, f).1
                && released == old(State()).Insert(n, f).2
    {
      hide Slot, Stores, Reorder<F>.Drain, Distance, Flatten, Chain, InWindow, Fitting, WindowSize;
      assert Flatten(pending) + [] == Flatten(pending);
      MoveTo(n, expectedSeq);
      var diff := Distance(n, expectedSeq);
      if diff >= U32 / 2 {
        return [f];
      }
      var ok := Reach(diff);
      if !ok {
        return [f];
      }
      if InWindow(held, expectedSeq, old(ring.Length)) {
        WiderWindow(held, expectedSeq, old(ring.Length), ring.Length);
        SlotIffStored(ring[..], seqSlots[..], held, expectedSeq, n);
      }
      if ring[Slot(n, ring.Length)].Some? {
        return [f];
      }
      Store(n, f);
      return [];
    }

    /** Gives up on the numbers before the first occupied slot once the gap has lasted long enough. */
    method ExpireGap(due: bool)
      requires Valid()
      modifies this, ring, seqSlots
      ensures Drained() && (Valid() || (expectedSeq == 0 && held != map[]))
      ensures ring == old(ring) && seqSlots == old(seqSlots)
      ensures State() == if due then old(State()).Expire().0 else old(State())
      ensures Flatten(pending) == Flatten(old(pending)) + if due then old(State()).Expire().1 else []
      ensures skippedFrames == old(skippedFrames) + if due then old(State()).Skipped() else 0
      ensures timeoutFlushes == old(timeoutFlushes) + if due && old(gapSet) then 1 else 0
    {
      hide Slot, Stores, Distance, Reorder<F>.Drain, Flatten, Chain, ToNearest;
      DrainedIsValid();
      if !gapSet || !due || buffered == 0 || expectedSeq == 0 {
        return;
      }
      DueSlot();
      if ring[Slot(expectedSeq, ring.Length)].Some? {
        return;
      }
      Skip();
      DrainedIsValid();
    }

    /** Moves to the first occupied slot and delivers from there. */
    method Skip()
      requires Valid() && gapSet
      modifies this, ring, seqSlots
      ensures Drained() && ring == old(ring) && seqSlots == old(seqSlots)
      ensures State() == old(State()).Expire().0 && Flatten(pending) == Flatten(old(pending)) + old(State()).Expire().1
      ensures skippedFrames == old(skippedFrames) + old(State()).Skipped() && timeoutFlushes == old(timeoutFlushes) + 1
    {
      hide Slot, Stores, Distance, Reorder<F>.Drain, Flatten, IsNearest;
      DrainedIsValid();
      var skipped := FirstOccupied();
      NearestWindow(held, expectedSeq, ring.Length, skipped);
      assert skipped == State().Skipped();
      gapSet := false;
      if skipped > 0 {
        expectedSeq := (expectedSeq + skipped) % U32;
        timeoutFlushes := timeoutFlushes + 1;
        skippedFrames := skippedFrames + skipped;
        DrainIgnoresGap(State(), true);
        Drain();
      }
    }

    static lemma DrainIgnoresGap(r: Reorder<F>, gap: bool)
      ensures r.Drain() == r.(gap := gap).Drain()
    {
    }

    /** The distance to the first occupied slot. */
    method FirstOccupied() returns (skipped: nat)
      requires Valid() && gapSet
      ensures skipped > 0 && IsNearest(skipped, held.Keys, expectedSeq)
    {
      hide Slot, Stores, Distance;
      ghost var n :| n in held;
      var i := 1;
      while i < ring.Length
        invariant 1 <= i <= ring.Length
        invariant forall x :: x in held ==> i <= Distance(x, expectedSeq)
      {
        var at := (expectedSeq + i) % U32;
        BackFrom(expectedSeq, i);
        SlotIffStored(ring[..], seqSlots[..], held, expectedSeq, at);
        if ring[Slot(at, ring.Length)].Some? {
          assert at in held.Keys;
          return i;
        }
        forall x | x in held ensures i + 1 <= Distance(x, expectedSeq) {
          MoveTo(x, expectedSeq);
        }
        i := i + 1;
      }
      assert false;
    }

    static lemma BackFrom(e: nat, i: nat)
      requires e < U32 && i < U32
      ensures Distance((e + i) % U32, e) == i
    {
    }

    /** Moving to the nearest frame keeps the others in the window. */
    static lemma NearestWindow(b: map<nat, F>, e: nat, size: nat, d: nat)
      requires Within(b, e, size) && b != map[] && IsNearest(d, b.Keys, e)
      ensures Within(b, (e + d) % U32, size)
      ensures forall c: nat :: IsNearest(c, b.Keys, e) ==> c == d
    {
      hide Distance;
      var m :| m in b.Keys && Distance(m, e) == d;
      MoveTo(m, e);
      forall n | n in b ensures Distance(n, m) < size {
        FromNearest(n, m, e);
      }
    }

    /** Forgets everything at an epoch change; all frames are released. */
    method Reset() returns (released: seq<F>)
      requires Drainable()
      modifies this, ring, seqSlots
      ensures Valid() && ring == old(ring) && seqSlots == old(seqSlots)
      ensures State() == old(State()).Reset() && pending == []
      ensures multiset(released) == Bag(old(held)) + multiset(Flatten(old(pending)))
    {
      hide Slot, Stores, Bag;
      expectedSeq := 0;
      var fromRing := ReleaseRing();
      released := fromRing + Flatten(pending);
      gapSet := false;
      pending := [];
    }

    /** Empties every slot. */
    method ReleaseRing() returns (released: seq<F>)
      requires Stored()
      modifies this`buffered, this`held, ring, seqSlots
      ensures Stored() && held == map[]
      ensures multiset(released) == Bag(old(held))
    {
      hide Stores, Bag;
      released := ReleaseSlots();
      buffered := 0;
    }

    method ReleaseSlots() returns (released: seq<F>)
      requires Stored()
      modifies this`buffered, this`held, ring, seqSlots
      ensures Stored() && held == map[]
      ensures multiset(released) == Bag(old(held))
    {
      hide Stored, Bag;
      released := [];
      var i := 0;
      BagNone();
      while i < ring.Length
        invariant 0 <= i <= ring.Length && Stored()
        invariant forall x :: 0 <= x < i ==> ring[x].None?
        invariant multiset(released) + Bag(held) == Bag(old(held))
      {
        var out := ReleaseSlot(i);
        released := released + out;
        i := i + 1;
      }
      NothingLeft();
    }

    lemma NothingLeft()
      requires Stored() && forall i :: 0 <= i < ring.Length ==> ring[i].None?
      ensures held == map[]
    {
      NothingStored(ring[..], seqSlots[..], held);
    }

    method ReleaseSlot(i: nat) returns (out: seq<F>)
      requires Stored() && i < ring.Length
      modifies this`buffered, this`held, ring, seqSlots
      ensures Stored() && ring[..] == old(ring[..])[i := None]
      ensures multiset(out) + Bag(held) == Bag(old(held))
    {
      assert seqSlots.Length == ring.Length;
      hide Slot, Bag, Stores;
      if ring[i].None? {
        return [];
      }
      var n := seqSlots[i];
      OccupantOf(ring[..], seqSlots[..], held, i);
      BagRemove(held, n);
      var f := TakeOut(n);
      return [f];
    }

    static lemma BagNone()
      ensures Bag<F>(map[]) == multiset{}
    {
    }
  }

  /** The four insertions of TopNumberClashes on the ring: the last frame comes back. */
  method TopNumberRefused<F(0)>(a: F, b: F, c: F, d: F) returns (released: seq<F>)
    ensures released == [d]
  {
    hide Reorder<F>.Insert, Stores, Slot, Chain, Flatten, Distance, WindowSize;
    ghost var r1, r2, r3 := TopStates(a, b, c);
    var buffer := new ReorderBuffer<F>();
    buffer.DrainedIsValid();
    released := buffer.Insert(TOP - 1, a);
    released := buffer.Insert(5, b);
    released := buffer.Insert(TOP, c);
    SlotTaken(buffer.ring[..], buffer.seqSlots[..], buffer.held);
    released := buffer.Insert(2053, d);
  }

  lemma SlotTaken<F>(r: seq<Option<F>>, q: seq<nat>, m: map<nat, F>)
    requires Stores(r, q, m) && 5 in m && |r| == 2048
    ensures r[Slot(2053, 2048)].Some?
  {
    assert Placed(r, q, 5, m[5]);
  }
}
