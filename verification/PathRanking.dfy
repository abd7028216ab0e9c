/** Which paths the scheduler considers, and how it ranks them. */
module PathRanking {
  import opened Wire
  import opened FecControl

  const UNKNOWN_RTT := 50_000  // microseconds
  const RTT_HYSTERESIS := 5_000
  const NO_RTT := U32 - 1      // the largest 32-bit value, also the mark for "nothing measured"

  /** One path as a scheduling decision sees it. */
  datatype View = View(queueLen: nat, queueCap: nat, rtt: nat, rate: nat)
  {
    predicate HasRoom() {
      queueCap != 0 && queueLen < queueCap - 2
    }

    /** Not measured yet: no usable round-trip time, or no delivery rate. */
    predicate FairStart() {
      rtt == 0 || rtt == UNKNOWN_RTT || rate == 0
    }

    /** A measurement that counts: the largest value cannot be told from none. */
    predicate Measured() {
      HasRoom() && !FairStart() && rtt < NO_RTT
    }

    /** Room, but the one measurement that never counts and never fits the envelope. */
    predicate Stalled() {
      HasRoom() && !FairStart() && rtt == NO_RTT
    }

    predicate Eligible(minRtt: nat) {
      HasRoom() && (FairStart() || rtt <= Envelope(minRtt))
    }

    function RankedRtt(minRtt: nat): nat {
      if FairStart() then minRtt else rtt
    }
  }

  function Envelope(minRtt: nat): nat {
    minRtt + if minRtt / 4 > RTT_HYSTERESIS then minRtt / 4 else RTT_HYSTERESIS
  }

  /** The smallest measured round-trip time, or the bootstrap value when nothing is measured. */
  ghost predicate IsMinRtt(vs: seq<View>, m: nat) {
    && (forall i :: 0 <= i < |vs| && vs[i].Measured() ==> m <= vs[i].rtt)
    && ((exists i :: 0 <= i < |vs| && vs[i].Measured() && vs[i].rtt == m)
        || (m == UNKNOWN_RTT && forall i :: 0 <= i < |vs| ==> !vs[i].Measured()))
  }

  method MinRtt(vs: seq<View>) returns (healthy: nat, m: nat)
    requires forall i :: 0 <= i < |vs| ==> vs[i].rtt < U32
    ensures IsMinRtt(vs, m)
    ensures healthy > 0 <==> exists i :: 0 <= i < |vs| && vs[i].HasRoom()
  {
    healthy := 0;
    var least := NO_RTT;
    for k := 0 to |vs|
      invariant forall i :: 0 <= i < k && vs[i].Measured() ==> least <= vs[i].rtt
      invariant least == NO_RTT || exists i :: 0 <= i < k && vs[i].Measured() && vs[i].rtt == least
      invariant healthy > 0 <==> exists i :: 0 <= i < k && vs[i].HasRoom()
    {
      if vs[k].HasRoom() {
        healthy := healthy + 1;
        if !vs[k].FairStart() && vs[k].rtt < least {
          least := vs[k].rtt;
        }
      }
    }
    m := if least == NO_RTT then UNKNOWN_RTT else least;
  }

  /** There is a candidate exactly when some path with room is not stalled. */
  lemma SomeEligible(vs: seq<View>, m: nat)
    requires IsMinRtt(vs, m) && forall i :: 0 <= i < |vs| ==> vs[i].rtt < U32
    ensures (exists i :: 0 <= i < |vs| && vs[i].Eligible(m)) <==> (exists i :: 0 <= i < |vs| && vs[i].HasRoom() && !vs[i].Stalled())
  {
    if i :| 0 <= i < |vs| && vs[i].HasRoom() && !vs[i].Stalled() {
      if !vs[i].FairStart() {
        assert vs[i].Measured();
        var k :| 0 <= k < |vs| && vs[k].Measured() && vs[k].rtt == m;
        assert vs[k].Eligible(m);
      } else {
        assert vs[i].Eligible(m);
      }
    } else {
      forall i | 0 <= i < |vs| ensures !vs[i].Eligible(m) {
        if vs[i].HasRoom() {
          assert vs[i].Stalled();
          assert forall j :: 0 <= j < |vs| ==> !vs[j].Measured();
        }
      }
    }
  }

  // ---- the fallback picker ----

  /** Round trip plus a penalty for a long queue, capped; a path without room scores worst. */
  function FallbackScore(v: View): (r: nat)
    ensures r <= NO_RTT
  {
    if !v.HasRoom() then NO_RTT
    else
      var score := v.rtt + if v.queueLen > 10 then (v.queueLen - 10) * 1000 else 0;
      if score > NO_RTT then NO_RTT else score
  }

  /** The first of the paths with the lowest score. */
  ghost predicate FirstBest(vs: seq<View>, i: nat) {
    && i < |vs| && FallbackScore(vs[i]) < NO_RTT
    && (forall j :: 0 <= j < |vs| ==> FallbackScore(vs[i]) <= FallbackScore(vs[j]))
    && (forall j :: 0 <= j < i ==> FallbackScore(vs[i]) < FallbackScore(vs[j]))
  }

  /** Path c has room and is nearly as good as path i. */
  predicate NearlyAsGood(vs: seq<View>, i: nat, c: nat)
    requires i < |vs| && c < |vs|
  {
    && vs[c].HasRoom()
    && FallbackScore(vs[c]) <= FallbackScore(vs[i]) + if vs[c].rtt / 8 > RTT_HYSTERESIS then vs[c].rtt / 8 else RTT_HYSTERESIS
  }

  method LowestScore(vs: seq<View>) returns (best: Option<nat>)
    ensures best.Some? ==> FirstBest(vs, best.value)
    ensures best.None? <==> forall i :: 0 <= i < |vs| ==> FallbackScore(vs[i]) == NO_RTT
  {
    best := None;
    for k := 0 to |vs|
      invariant best.Some? ==> best.value < k && FirstBest(vs[..k], best.value)
      invariant best.None? <==> forall i :: 0 <= i < k ==> FallbackScore(vs[i]) == NO_RTT
    {
      if FallbackScore(vs[k]) < (if best.Some? then FallbackScore(vs[best.value]) else NO_RTT) {
        best := Some(k);
      }
    }
    assert vs[..|vs|] == vs;
  }

  /** base is the unloaded quality: half the round trip plus the service time of this batch. */
  datatype Candidate = Candidate(path: nat, base: nat, rtt: nat)

  predicate Before(x: Candidate, y: Candidate) {
    x.base < y.base || (x.base == y.base && x.rtt < y.rtt)
  }

  predicate Ranked(cs: seq<Candidate>) {
    forall i, j :: 0 <= i < j < |cs| ==> !Before(cs[j], cs[i])
  }

  predicate DistinctPaths(cs: seq<Candidate>) {
    forall i, j :: 0 <= i < j < |cs| ==> cs[i].path != cs[j].path
  }

  lemma Moved(cs: seq<Candidate>, j: nat, i: nat, out: seq<Candidate>)
    requires j <= i < |cs|
    requires out == cs[..j] + [cs[i]] + cs[j..i] + cs[i + 1..]
    ensures multiset(out) == multiset(cs)
  {
    assert cs == cs[..j] + cs[j..i] + [cs[i]] + cs[i + 1..];
  }

  lemma MovedDistinct(was: seq<Candidate>, cs: seq<Candidate>, i: nat, j: nat)
    requires j <= i < |was| == |cs| && DistinctPaths(was)
    requires forall k :: 0 <= k < j ==> cs[k] == was[k]
    requires cs[j] == was[i]
    requires forall k :: j < k <= i ==> cs[k] == was[k - 1]
    requires forall k :: i < k < |cs| ==> cs[k] == was[k]
    ensures DistinctPaths(cs)
  {
  }

  /** Insertion sort by base quality, then round-trip time. */
  method Rank(cands: seq<Candidate>) returns (cs: seq<Candidate>)
    ensures Ranked(cs) && multiset(cs) == multiset(cands) && |cs| == |cands|
    ensures DistinctPaths(cands) ==> DistinctPaths(cs)
  {
    cs := cands;
    var i := 1;
    while i < |cs|
      invariant |cs| == |cands| && multiset(cs) == multiset(cands)
      invariant DistinctPaths(cands) ==> DistinctPaths(cs)
      invariant 1 <= i && (|cs| > 0 ==> i <= |cs|)
      invariant |cs| > 0 ==> Ranked(cs[..i])
    {
      ghost var was := cs;
      var x := cs[i];
      var j := i;
      while j > 0 && Before(x, cs[j - 1])
        invariant 0 <= j <= i < |cs| == |was|
        invariant forall k :: 0 <= k < j ==> cs[k] == was[k]
        invariant forall k :: j < k <= i ==> cs[k] == was[k - 1] && Before(x, was[k - 1])
        invariant forall k :: i < k < |cs| ==> cs[k] == was[k]
      {
        assert cs[j - 1] == was[j - 1];
        cs := cs[j := cs[j - 1]];
        j := j - 1;
      }
      assert j > 0 ==> cs[j - 1] == was[j - 1] && !Before(x, was[j - 1]);
      cs := cs[j := x];
      assert cs == was[..j] + [was[i]] + was[j..i] + was[i + 1..];
      Moved(was, j, i, cs);
      if DistinctPaths(was) {
        MovedDistinct(was, cs, i, j);
      }
      InsertedRanked(was, cs, i, j);
      i := i + 1;
    }
  }

  lemma InsertedRanked(was: seq<Candidate>, cs: seq<Candidate>, i: nat, j: nat)
    requires j <= i < |was| == |cs| && Ranked(was[..i])
    requires forall k :: 0 <= k < j ==> cs[k] == was[k]
    requires cs[j] == was[i]
    requires forall k :: j < k <= i ==> cs[k] == was[k - 1] && Before(was[i], was[k - 1])
    requires j > 0 ==> !Before(was[i], was[j - 1])
    ensures Ranked(cs[..i + 1])
  {
    assert forall a, b :: 0 <= a < b < i ==> !Before(was[b], was[a]) by {
      forall a, b | 0 <= a < b < i ensures !Before(was[b], was[a]) {
        assert was[..i][a] == was[a] && was[..i][b] == was[b];
      }
    }
    forall a, b | 0 <= a < b <= i ensures !Before(cs[b], cs[a]) {
      if b == j && a < j - 1 {
        assert !Before(was[j - 1], was[a]);
      }
    }
  }

  // ---- how many paths share ----

  const PRESSURE_2 := 24 * 1024
  const PRESSURE_3 := 96 * 1024
  const PRESSURE_4 := 256 * 1024
  const DEMAND_2 := 40_000_000
  const DEMAND_3 := 100_000_000
  const DEMAND_4 := 180_000_000

  function ActiveTarget(pressure: nat, demand: nat, eligible: nat): (n: nat)
    ensures n <= 4 && n <= eligible && (eligible > 0 ==> n > 0)
    ensures n >= 2 <==> eligible >= 2 && (pressure >= PRESSURE_2 || demand >= DEMAND_2)
    ensures n >= 3 <==> eligible >= 3 && (pressure >= PRESSURE_3 || demand >= DEMAND_3)
    ensures n >= 4 <==> eligible >= 4 && (pressure >= PRESSURE_4 || demand >= DEMAND_4)
  {
    var want :=
      if pressure >= PRESSURE_4 || demand >= DEMAND_4 then 4
      else if pressure >= PRESSURE_3 || demand >= DEMAND_3 then 3
      else if pressure >= PRESSURE_2 || demand >= DEMAND_2 then 2
      else 1;
    if want > eligible then eligible else want
  }

  /** More load never means fewer paths. */
  lemma ActiveTargetMonotone(pressure: nat, demand: nat, morePressure: nat, moreDemand: nat, eligible: nat, more: nat)
    requires pressure <= morePressure && demand <= moreDemand && eligible <= more
    ensures ActiveTarget(pressure, demand, eligible) <= ActiveTarget(morePressure, moreDemand, more)
  {
  }

  const STICKY_MIN := 500
  const STICKY_MAX := 5_000

  /** How much worse the current path may be and still be kept. */
  function StickySlack(rtt: nat): (s: nat)
    ensures STICKY_MIN <= s <= STICKY_MAX
    ensures s > STICKY_MIN ==> s <= rtt / 16
    ensures s < STICKY_MAX ==> s >= rtt / 16
  {
    var slack := rtt / 16;
    if slack < STICKY_MIN then STICKY_MIN else if slack > STICKY_MAX then STICKY_MAX else slack
  }
}
