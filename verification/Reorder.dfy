/**
 The reorder buffer in its simple form: the next expected sequence number and a
 finite map from sequence number to frame.

 Sequence numbers are 32-bit and compared by signed difference, so a number far
 behind looks like one ahead once the distance wraps.  The claims are made for
 numbers up to LAST_ORDERED; WrapBreaksOrder shows that the bound is exact.
 */
module Reorder {
  import opened Wire
  import opened FecControl

  const WINDOW := 2048
  const MAX_WINDOW := 65536
  /** The largest number for which an old frame can never pass for a new one. */
  const LAST_ORDERED := U32 - MAX_WINDOW

  /** Unsigned 32-bit difference n - e. */
  function Distance(n: nat, e: nat): nat {
    (n - e) % U32
  }

  /** Window sizes are powers of two between 2048 and 65536. */
  predicate WindowSize(size: nat) {
    size in {2048, 4096, 8192, 16384, 32768, 65536}
  }

  /** Doubles the window until it exceeds need, or gives up at the maximum. */
  function Grown(size: nat, need: nat): (r: Option<nat>)
    requires WindowSize(size)
    ensures r.Some? ==> WindowSize(r.value) && r.value > need && r.value >= size
    ensures r.None? <==> need >= MAX_WINDOW
    ensures r.Some? && size <= need ==> r.value <= 2 * need
    decreases MAX_WINDOW - size
  {
    if size > need then Some(size) else if size == MAX_WINDOW then None else Grown(2 * size, need)
  }

  /**
   The window for a frame at the given distance.  Growing asks for one slot more
   than needed, so distance 65535 fits only a window already at the maximum.
   */
  function Fitting(size: nat, distance: nat): (r: Option<nat>)
    requires WindowSize(size)
    ensures r.Some? ==> WindowSize(r.value) && distance < r.value && size <= r.value
    ensures r.None? <==> distance >= MAX_WINDOW || (distance == MAX_WINDOW - 1 && size < MAX_WINDOW)
  {
    if distance < size then Some(size)
    else if distance >= MAX_WINDOW || size >= MAX_WINDOW then None
    else Grown(size, distance + 1)
  }

  /** The frames from e on, as far as they are consecutive. */
  function Run<F>(b: map<nat, F>, e: nat): seq<F>
    decreases |b|
  {
    if e in b then
      assert b.Keys - {e} < b.Keys;
      RemoveOne(b, e);
      [b[e]] + Run(b - {e}, e + 1)
    else []
  }

  lemma RemoveOne<F>(b: map<nat, F>, e: nat)
    requires e in b
    ensures |b - {e}| == |b| - 1
  {
    assert (b - {e}).Keys == b.Keys - {e};
    assert |b| == |b.Keys| && |b - {e}| == |(b - {e}).Keys|;
  }

  /** What remains after the run. */
  function Rest<F>(b: map<nat, F>, e: nat): map<nat, F>
    decreases |b|
  {
    if e in b then RemoveOne(b, e); Rest(b - {e}, e + 1) else b
  }

  datatype Reorder<F> = Reorder(expected: nat, size: nat, buffered: map<nat, F>, gap: bool)
  {
    /** Nothing buffered is due, nothing is outside the window, and the gap flag tells the truth. */
    ghost predicate Valid() {
      && WindowSize(size)
      && expected <= LAST_ORDERED + 1
      && (expected == 0 ==> buffered == map[])
      && (forall n :: n in buffered ==> expected < n < expected + size && n <= LAST_ORDERED)
      && (gap <==> buffered != map[])
    }

    /**
     The same for numbers of any size, the window taken around the 32-bit circle.  Enough for
     the ring; only the order of delivery needs more.
     */
    ghost predicate Sound() {
      && WindowSize(size) && expected < U32
      && (expected == 0 ==> buffered == map[])
      && (forall n :: n in buffered ==> 0 < n < U32 && 0 < Distance(n, expected) < size)
      && (gap <==> buffered != map[])
    }

    /** The frames that become deliverable leave in order. */
    function Drain(): (Reorder<F>, seq<F>) {
      var out := Run(buffered, expected);
      var rest := Rest(buffered, expected);
      var e := (expected + |out|) % U32;
      (Reorder(e, size, rest, rest != map[] && e != 0), out)
    }

    /** Inserts frame f with number n: the new state, the frames delivered, the frames released. */
    function Insert(n: nat, f: F): (r: (Reorder<F>, seq<F>, seq<F>))
      requires WindowSize(size)
      ensures WindowSize(r.0.size) && r.0.size >= size
    {
      if n == 0 then (this, [], [f])
      else
        var e := if expected == 0 then n else expected;
        var d := Distance(n, e);
        if d >= U32 / 2 then (this.(expected := e), [], [f])
        else
          match Fitting(size, d)
          case None => (this.(expected := e), [], [f])
          case Some(w) =>
            if n in buffered then (Reorder(e, w, buffered, gap), [], [f])
            else
              var s := Reorder(e, w, buffered[n := f], gap);
              if n == e then (s.Drain().0, s.Drain().1, []) else (s.(gap := true), [], [])
    }

    /** Nothing to give up on: no gap, or the expected frame is here. */
    predicate Idle() {
      !gap || buffered == map[] || expected == 0 || expected in buffered
    }

    /** Gives up on the missing numbers before the nearest buffered one. */
    function Expire(): (Reorder<F>, seq<F>) {
      if Idle() then (this, []) else this.(expected := (expected + Skipped()) % U32).Drain()
    }

    /** How many numbers the expiry skips. */
    function Skipped(): nat {
      if Idle() then 0
      else
        NearestExists(buffered.Keys, expected);
        ToNearest(buffered.Keys, expected)
    }

    function Reset(): Reorder<F> {
      Reorder(0, size, map[], false)
    }
  }

  function Empty<F>(): Reorder<F> {
    Reorder(0, WINDOW, map[], false)
  }

  predicate IsSmallest(m: nat, s: set<nat>) {
    m in s && forall n :: n in s ==> m <= n
  }

  lemma SmallestExists(s: set<nat>)
    requires s != {}
    ensures exists m :: IsSmallest(m, s)
  {
    var m :| m in s;
    if s != {m} {
      SmallestExists(s - {m});
      var m' :| IsSmallest(m', s - {m});
      assert forall n :: n in s ==> n == m || n in s - {m};
      assert IsSmallest(if m < m' then m else m', s);
    } else {
      assert IsSmallest(m, s);
    }
  }

  function Smallest(s: set<nat>): (m: nat)
    requires exists m :: IsSmallest(m, s)
    ensures IsSmallest(m, s)
  {
    SmallestUnique(s);
    var m :| IsSmallest(m, s);
    m
  }

  lemma SmallestUnique(s: set<nat>)
    ensures forall a, b :: IsSmallest(a, s) && IsSmallest(b, s) ==> a == b
  {
  }

  /** d is how far the nearest of the numbers is ahead of e. */
  predicate IsNearest(d: nat, s: set<nat>, e: nat) {
    (exists n :: n in s && Distance(n, e) == d) && forall n :: n in s ==> d <= Distance(n, e)
  }

  lemma {:induction false} NearestExists(s: set<nat>, e: nat)
    requires s != {}
    ensures exists d :: IsNearest(d, s, e)
    decreases |s|
  {
    var m :| m in s;
    if s == {m} {
      assert IsNearest(Distance(m, e), s, e);
    } else {
      NearestExists(s - {m}, e);
      var d :| IsNearest(d, s - {m}, e);
      assert forall n :: n in s ==> n == m || n in s - {m};
      assert IsNearest(if Distance(m, e) < d then Distance(m, e) else d, s, e);
    }
  }

  function ToNearest(s: set<nat>, e: nat): (d: nat)
    requires exists d :: IsNearest(d, s, e)
    ensures IsNearest(d, s, e)
  {
    var d: nat :| IsNearest(d, s, e);
    d
  }

  /** Moving ahead by the distance leads to the number. */
  lemma MoveTo(n: nat, e: nat)
    requires n < U32 && e < U32
    ensures Distance(n, e) < U32 && (e + Distance(n, e)) % U32 == n
    ensures Distance(n, e) == 0 <==> n == e
    ensures Distance(n, e) == if n >= e then n - e else n + U32 - e
  {
  }

  /** One number further, everything else is one nearer. */
  lemma OneFurther(n: nat, e: nat)
    requires n < U32 && e < U32 && n != e
    ensures Distance(n, (e + 1) % U32) == Distance(n, e) - 1
  {
  }

  // ---- order and contents, for every insertion and expiry ----

  /** Frame i of out is the one numbered e + i in b. */
  ghost predicate FrameAt<F>(b: map<nat, F>, e: nat, out: seq<F>, i: nat) {
    i < |out| && e + i in b && out[i] == b[e + i]
  }

  /** A run is the consecutive frames from e, up to the first absent number. */
  lemma {:induction false} RunIsConsecutive<F>(b: map<nat, F>, e: nat)
    ensures forall i :: 0 <= i < |Run(b, e)| ==> FrameAt(b, e, Run(b, e), i)
    ensures e + |Run(b, e)| !in b
    decreases |b|
  {
    if e in b {
      RemoveOne(b, e);
      var c := b - {e};
      RunIsConsecutive(c, e + 1);
      var out := Run(b, e);
      assert out == [b[e]] + Run(c, e + 1);
      forall i | 0 <= i < |out|
        ensures FrameAt(b, e, out, i)
      {
        if i > 0 {
          assert FrameAt(c, e + 1, Run(c, e + 1), i - 1);
        }
      }
    }
  }

  /** The rest is everything outside the run. */
  lemma {:induction false} RestIsOutside<F>(b: map<nat, F>, e: nat)
    ensures forall n :: n in Rest(b, e) <==> n in b && !(e <= n < e + |Run(b, e)|)
    ensures forall n :: n in Rest(b, e) ==> Rest(b, e)[n] == b[n]
    decreases |b|
  {
    if e in b {
      RemoveOne(b, e);
      RestIsOutside(b - {e}, e + 1);
      assert |Run(b, e)| == 1 + |Run(b - {e}, e + 1)|;
    }
  }

  /** What the drain delivers, and that nothing due is left behind. */
  lemma DrainValid<F>(r: Reorder<F>)
    requires WindowSize(r.size) && 0 < r.expected <= LAST_ORDERED + 1
    requires forall n :: n in r.buffered ==> r.expected <= n < r.expected + r.size && n <= LAST_ORDERED
    ensures r.Drain().0.Valid()
    ensures r.Drain().0.size == r.size
    ensures Delivers(r.buffered, r.expected, r.Drain().1, r.Drain().0)
  {
    RunIsConsecutive(r.buffered, r.expected);
    RestIsOutside(r.buffered, r.expected);
    var out := Run(r.buffered, r.expected);
    if out != [] {
      assert FrameAt(r.buffered, r.expected, out, |out| - 1);
    }
  }

  /** For ordered numbers the 32-bit test accepts exactly the frames ahead of or at the expected one. */
  lemma DistanceOrdered(n: nat, e: nat)
    requires 0 < n <= LAST_ORDERED && 0 < e <= LAST_ORDERED + 1
    ensures n >= e ==> Distance(n, e) == n - e
    ensures n < e ==> Distance(n, e) >= MAX_WINDOW
  {
  }

  /** The outcomes of an insertion. */
  datatype Fate = Late | Beyond | Duplicate | Held | Due

  function FateOf<F>(r: Reorder<F>, n: nat): Fate
    requires WindowSize(r.size)
  {
    var e := if r.expected == 0 then n else r.expected;
    if n < e then Late
    else if Fitting(r.size, n - e).None? then Beyond
    else if n in r.buffered then Duplicate
    else if n == e then Due
    else Held
  }

  /** Insertion keeps the buffer valid; a frame is released exactly when it is late, beyond reach or a duplicate. */
  lemma InsertValid<F>(r: Reorder<F>, n: nat, f: F)
    requires r.Valid() && 0 < n <= LAST_ORDERED
    ensures var (s, out, gone) := r.Insert(n, f);
            && s.Valid()
            && (FateOf(r, n) in {Held, Due} <==> gone == []) && (gone == [] || gone == [f])
            && (FateOf(r, n).Due? <==> out != [])
  {
    var e := if r.expected == 0 then n else r.expected;
    DistanceOrdered(n, e);
    if FateOf(r, n).Due? {
      var w := Fitting(r.size, n - e).value;
      var s := Reorder(e, w, r.buffered[n := f], r.gap);
      DrainValid(s);
      assert Run(s.buffered, e) != [];
    }
  }

  /** From number m on, out holds the consecutive frames of b, and s keeps all the later ones. */
  ghost predicate Delivers<F>(b: map<nat, F>, m: nat, out: seq<F>, s: Reorder<F>) {
    && s.expected == m + |out|
    && (forall i :: 0 <= i < |out| ==> FrameAt(b, m, out, i))
    && (forall n :: n in s.buffered <==> n in b && n >= s.expected)
    && (forall n :: n in s.buffered ==> s.buffered[n] == b[n])
  }

  /** A held frame joins the map; a due frame leaves with everything consecutive behind it. */
  lemma InsertEffect<F>(r: Reorder<F>, n: nat, f: F)
    requires r.Valid() && 0 < n <= LAST_ORDERED
    ensures var (s, out, gone) := r.Insert(n, f); var e := if r.expected == 0 then n else r.expected;
            match FateOf(r, n)
            case Held => out == [] && s.expected == e && s.buffered == r.buffered[n := f]
            case Due => n == e && Delivers(r.buffered[n := f], e, out, s)
            case _ => out == [] && s.expected == e && s.buffered == r.buffered
  {
    var e := if r.expected == 0 then n else r.expected;
    DistanceOrdered(n, e);
    if FateOf(r, n).Due? {
      DrainValid(Reorder(e, Fitting(r.size, n - e).value, r.buffered[n := f], r.gap));
    }
  }

  /** For ordered numbers the nearest is the smallest. */
  lemma NearestIsSmallest<F>(r: Reorder<F>) returns (m: nat)
    requires r.Valid() && r.gap
    ensures m == r.expected + r.Skipped() && IsSmallest(m, r.buffered.Keys) && !r.Idle() && m <= LAST_ORDERED
    ensures forall n :: r.expected <= n < m ==> n !in r.buffered
  {
    hide Distance;
    m := r.expected + r.Skipped();
    forall n | n in r.buffered ensures Distance(n, r.expected) == n - r.expected {
      DistanceOrdered(n, r.expected);
    }
  }

  /**
   An expiry moves exactly to the smallest buffered number, skips exactly the absent
   numbers before it, loses no buffered frame and always delivers something.
   */
  lemma ExpireEffect<F>(r: Reorder<F>)
    requires r.Valid() && r.gap
    ensures var (s, out) := r.Expire(); var m := r.expected + r.Skipped();
            && s.Valid()
            && IsSmallest(m, r.buffered.Keys)
            && r.Skipped() >= 1 && (forall n :: r.expected <= n < m ==> n !in r.buffered)
            && out != [] && s.expected > r.expected
            && Delivers(r.buffered, m, out, s)
  {
    hide Run, Rest, Reorder<F>.Drain, Reorder<F>.Idle, Delivers, ToNearest;
    var m := NearestIsSmallest(r);
    DrainValid(r.(expected := m));
    DrainFirst(r.(expected := m));
  }

  lemma DrainFirst<F>(r: Reorder<F>)
    requires r.expected in r.buffered
    ensures r.Drain().1 != []
  {
  }

  /** Without a gap the expiry does nothing. */
  lemma ExpireIdle<F>(r: Reorder<F>)
    requires !r.gap
    ensures r.Expire() == (r, []) && r.Skipped() == 0
  {
  }

  /**
   One number past LAST_ORDERED the order breaks: number 1, four billion frames old,
   is taken for a frame ahead and delivered after the newest one.
   */
  lemma WrapBreaksOrder<F>(first: F, newest: F, ancient: F)
    ensures var b := LAST_ORDERED + 1;
            var r1 := Empty<F>().Insert(b - 40000, first).0;
            var r2 := r1.Insert(b, newest).0;
            var r3 := r2.Expire().0;
            var r4 := r3.Insert(1, ancient).0;
            r2.Expire().1 == [newest] && r4.Expire().1 == [ancient]
  {
    var b := LAST_ORDERED + 1;
    var a := b - 40000;
    var r1 := Empty<F>().Insert(a, first).0;
    InsertFirst(a, first);
    DrainSingle(Reorder(a, WINDOW, Empty<F>().buffered[a := first], false), a, first);
    assert r1 == Reorder(a + 1, 2048, map[], false);
    assert Grown(32768, 40000) == Some(65536) && Grown(16384, 40000) == Some(65536) && Grown(8192, 40000) == Some(65536);
    var r2 := r1.Insert(b, newest).0;
    assert r2 == Reorder(a + 1, 65536, r1.buffered[b := newest], true);
    ExpireSingle(r2, b, newest);
    var r3 := r2.Expire().0;
    var r4 := r3.Insert(1, ancient).0;
    assert r4 == Reorder(b + 1, 65536, r3.buffered[1 := ancient], true);
    ExpireSingle(r4, 1, ancient);
  }

  /** The first frame sets the expected number and is delivered at once. */
  lemma InsertFirst<F>(n: nat, f: F)
    requires 0 < n
    ensures Empty<F>().Insert(n, f).0 == Reorder(n, WINDOW, Empty<F>().buffered[n := f], false).Drain().0
  {
    assert Distance(n, n) == 0;
    assert Fitting(WINDOW, 0) == Some(WINDOW);
  }

  lemma ExpireSingle<F>(r: Reorder<F>, n: nat, f: F)
    requires r.gap && r.buffered == map[n := f] && 0 < r.expected < U32 && r.expected != n && n + 1 < U32
    ensures r.Expire() == (Reorder(n + 1, r.size, map[], false), [f])
  {
    hide Distance, Reorder<F>.Drain;
    assert n in r.buffered.Keys;
    MoveTo(n, r.expected);
    DrainSingle(r.(expected := n), n, f);
  }

  lemma DrainSingle<F>(r: Reorder<F>, n: nat, f: F)
    requires r.buffered == map[n := f] && r.expected == n && n + 1 < U32
    ensures r.Drain() == (Reorder(n + 1, r.size, map[], false), [f])
  {
    var none := r.buffered - {n};
    assert none == map[];
    assert Run(none, n + 1) == [] && Rest(none, n + 1) == none;
    assert Run(r.buffered, n) == [f] + Run(none, n + 1) == [f];
    assert Rest(r.buffered, n) == none;
    assert r.Drain().0.expected == n + 1;
  }

  // ---- numbers of any size ----

  const TOP := U32 - 1

  lemma ValidIsSound<F>(r: Reorder<F>)
    requires r.Valid()
    ensures r.Sound()
  {
    hide Distance;
    forall n | n in r.buffered ensures 0 < Distance(n, r.expected) < r.size {
      DistanceOrdered(n, r.expected);
    }
  }

  /** Frames in the window from the expected number on, that one included. */
  ghost predicate InWindow<F>(b: map<nat, F>, e: nat, size: nat) {
    forall n :: n in b ==> 0 < n < U32 && Distance(n, e) < size
  }

  /** A run ends at the last number at most; before it, what remains is in the window. */
  lemma {:induction false} RunWindow<F>(b: map<nat, F>, e: nat, size: nat)
    requires 0 < e < U32 && InWindow(b, e, size) && size > 0
    ensures var q, rest := e + |Run(b, e)|, Rest(b, e);
            q <= U32 && (q < U32 ==> q !in rest && InWindow(rest, q, size))
    decreases |b|
  {
    hide Distance;
    if e in b {
      RemoveOne(b, e);
      var c := b - {e};
      if e < TOP {
        forall n | n in c ensures 0 < n < U32 && Distance(n, e + 1) < size {
          OneFurther(n, e);
        }
        RunWindow(c, e + 1, size);
      } else {
        assert U32 !in c;
        assert Run(c, e + 1) == [];
      }
    }
  }

  /** Every number from e to the last one is there, and some frame waits behind the last one. */
  ghost predicate Exhausts<F>(b: map<nat, F>, e: nat) {
    (forall i :: e <= i <= TOP ==> i in b) && exists m :: m in b && m < e
  }

  lemma RunToTop<F>(b: map<nat, F>, e: nat)
    requires 0 < e < U32 && forall n :: n in b ==> 0 < n < U32
    ensures e + |Run(b, e)| == U32 <==> forall i :: e <= i <= TOP ==> i in b
    ensures e + |Run(b, e)| == U32 ==> forall n :: n in Rest(b, e) <==> n in b && n < e
  {
    RunIsConsecutive(b, e);
    RestIsOutside(b, e);
    var out := Run(b, e);
    forall i | e <= i < e + |out| ensures i in b {
      assert FrameAt(b, e, out, i - e);
    }
  }

  lemma DrainSoundIff<F>(r: Reorder<F>)
    requires WindowSize(r.size) && 0 < r.expected < U32 && InWindow(r.buffered, r.expected, r.size)
    ensures r.Drain().0.Sound() <==> !Exhausts(r.buffered, r.expected)
  {
    hide Distance, Run, Rest;
    RunWindow(r.buffered, r.expected, r.size);
    RunToTop(r.buffered, r.expected);
    var s := r.Drain().0;
    if s.expected != 0 {
      forall n | n in s.buffered ensures Distance(n, s.expected) > 0 {
        MoveTo(n, s.expected);
      }
    }
  }

  /** The insertion delivers the last number with frames waiting behind it. */
  ghost predicate RunsOut<F>(r: Reorder<F>, n: nat, f: F) {
    var e := if r.expected == 0 then n else r.expected;
    0 < n == e && Exhausts(r.buffered[n := f], e)
  }

  /** Insertion keeps the buffer sound exactly when it does not run out of numbers with frames waiting. */
  lemma InsertSoundIff<F>(r: Reorder<F>, n: nat, f: F)
    requires r.Sound() && n < U32
    ensures r.Insert(n, f).0.Sound() <==> !RunsOut(r, n, f)
  {
    hide Distance, Fitting, Reorder<F>.Drain, Exhausts;
    var e := if r.expected == 0 then n else r.expected;
    if n > 0 {
      MoveTo(n, e);
      var d := Distance(n, e);
      if n == e {
        assert n !in r.buffered;
        DrainSoundIff(Reorder(e, Fitting(r.size, d).value, r.buffered[n := f], r.gap));
      }
    }
  }

  lemma ExpireSoundIff<F>(r: Reorder<F>)
    requires r.Sound()
    ensures r.Expire().0.Sound() <==> r.Idle() || !Exhausts(r.buffered, (r.expected + r.Skipped()) % U32)
  {
    hide Distance, Reorder<F>.Drain, Exhausts;
    if !r.Idle() {
      var d := r.Skipped();
      var m :| m in r.buffered && Distance(m, r.expected) == d;
      MoveTo(m, r.expected);
      forall n | n in r.buffered ensures Distance(n, m) < r.size {
        FromNearest(n, m, r.expected);
      }
      DrainSoundIff(r.(expected := m));
    }
  }

  /** So any number but the last keeps it sound. */
  lemma InsertSound<F>(r: Reorder<F>, n: nat, f: F)
    requires r.Sound() && TOP !in r.buffered && n < TOP
    ensures r.Insert(n, f).0.Sound() && TOP !in r.Insert(n, f).0.buffered
  {
    hide Distance, Fitting, Run, Rest;
    InsertSoundIff(r, n, f);
    assert !Exhausts(r.buffered[n := f], n) by { assert TOP !in r.buffered[n := f]; }
    var e := if r.expected == 0 then n else r.expected;
    RestIsOutside(r.buffered[n := f], e);
  }

  lemma FromNearest(n: nat, m: nat, e: nat)
    requires n < U32 && m < U32 && e < U32 && Distance(m, e) <= Distance(n, e)
    ensures Distance(n, m) == Distance(n, e) - Distance(m, e)
  {
    MoveTo(n, e);
    MoveTo(m, e);
    MoveTo(n, m);
  }

  // ---- ownership: no frame is lost or duplicated ----

  /** The frames of a map, with multiplicity. */
  ghost function Bag<F>(b: map<nat, F>): multiset<F>
    decreases |b|
  {
    if b == map[] then multiset{}
    else
      assert b.Keys != {} by { var k :| k in b; assert k in b.Keys; }
      SmallestExists(b.Keys);
      var k := Smallest(b.Keys);
      RemoveOne(b, k);
      multiset{b[k]} + Bag(b - {k})
  }

  lemma {:induction false} BagRemove<F>(b: map<nat, F>, n: nat)
    requires n in b
    ensures Bag(b) == Bag(b - {n}) + multiset{b[n]}
    decreases |b|
  {
    assert n in b.Keys;
    SmallestExists(b.Keys);
    var k := Smallest(b.Keys);
    if k != n {
      RemoveOne(b, k);
      BagRemove(b - {k}, n);
      var c := b - {n};
      assert IsSmallest(k, c.Keys);
      SmallestUnique(c.Keys);
      assert c - {k} == (b - {k}) - {n};
      assert Bag(c) == multiset{c[k]} + Bag(c - {k});
    }
  }

  lemma BagInsert<F>(b: map<nat, F>, n: nat, f: F)
    requires n !in b
    ensures Bag(b[n := f]) == Bag(b) + multiset{f}
  {
    BagRemove(b[n := f], n);
    assert b[n := f] - {n} == b;
  }

  lemma {:induction false} BagRun<F>(b: map<nat, F>, e: nat)
    ensures Bag(b) == Bag(Rest(b, e)) + multiset(Run(b, e))
    decreases |b|
  {
    if e in b {
      RemoveOne(b, e);
      BagRemove(b, e);
      BagRun(b - {e}, e + 1);
    }
  }

  /** Every inserted frame is afterwards held, delivered or released, exactly once. */
  lemma InsertConserves<F>(r: Reorder<F>, n: nat, f: F)
    requires WindowSize(r.size)
    ensures var (s, out, gone) := r.Insert(n, f);
            Bag(r.buffered) + multiset{f} == Bag(s.buffered) + multiset(out) + multiset(gone)
  {
    hide Run, Rest, Bag, Fitting, Distance;
    var (s, out, gone) := r.Insert(n, f);
    InsertMoves(r, n, f);
    hide Reorder<F>.Insert;
    if gone == [] {
      BagInsert(r.buffered, n, f);
      BagRun(r.buffered[n := f], n);
    }
  }

  /** A frame comes back, is kept, or leaves with the run behind it. */
  lemma InsertMoves<F>(r: Reorder<F>, n: nat, f: F)
    requires WindowSize(r.size)
    ensures var (s, out, gone) := r.Insert(n, f); var b := r.buffered[n := f];
            || (gone == [f] && out == [] && s.buffered == r.buffered)
            || (gone == [] && n !in r.buffered && out == [] && s.buffered == b)
            || (gone == [] && n !in r.buffered && out == Run(b, n) && s.buffered == Rest(b, n))
  {
    hide Run, Rest, Fitting, Distance;
  }

  /** An expiry only moves frames from held to delivered. */
  lemma ExpireConserves<F>(r: Reorder<F>)
    ensures Bag(r.buffered) == Bag(r.Expire().0.buffered) + multiset(r.Expire().1)
  {
    hide Bag, Run, Rest, ToNearest, Distance;
    if !r.Idle() {
      BagRun(r.buffered, (r.expected + r.Skipped()) % U32);
    }
  }
}
