/**
 The scheduler's logical service debt.

 Every active path carries a debt in nanoseconds; dispatching a batch charges the
 chosen path, and the whole active set is rebased so that the least debt is zero.
 Decided is what one scheduling decision does to the debts, independent of how the
 decision is computed.
 */
module FairShare {
  import opened Wire

  const FALLBACK_RATE := 25_000_000  // bytes per second
  const CARRY_BONUS := 150_000       // nanoseconds
  const NS_PER_BYTE := 40
  const MAX_BYTES := 0x4_0000_0000

  function ServiceNS(bytes: nat, rate: nat): nat {
    if bytes == 0 then 0
    else (bytes * 1_000_000_000 % U64) / if rate == 0 then FALLBACK_RATE else rate
  }

  /** At the common rate the charge is a scaled byte count. */
  lemma ServiceIsPerByte(bytes: nat)
    requires bytes <= MAX_BYTES
    ensures ServiceNS(bytes, FALLBACK_RATE) == NS_PER_BYTE * bytes
  {
    assert bytes * 1_000_000_000 == NS_PER_BYTE * bytes * FALLBACK_RATE;
  }

  datatype Path = Path(active: bool, debt: int)

  type Paths = map<nat, Path>

  /** A path that was not active joins at the epoch. */
  function Joined(p: Path, epoch: int): int {
    if p.active then p.debt else epoch
  }

  /** The least debt among the members that were active, zero if none was. */
  ghost predicate IsEpoch(ps: Paths, members: set<nat>, epoch: int)
    requires members <= ps.Keys
  {
    && (forall i :: i in members && ps[i].active ==> epoch <= ps[i].debt)
    && ((exists i :: i in members && ps[i].active && ps[i].debt == epoch)
        || (epoch == 0 && forall i :: i in members ==> !ps[i].active))
  }

  /** Debts after joining and rebasing, before the charge. */
  ghost predicate Rebased(ps: Paths, members: set<nat>, qs: Paths, epoch: int)
    requires members <= ps.Keys
  {
    && qs.Keys == ps.Keys
    && IsEpoch(ps, members, epoch)
    && (forall i :: i in qs ==> qs[i] == if i in members then Path(true, Joined(ps[i], epoch) - epoch) else Path(false, 0))
  }

  /** What the scheduler reads of a path: bytes queued, and whether a partial segment waits. */
  datatype Load = Load(queued: nat, carry: bool)

  function Score(p: Path, l: Load): int {
    p.debt + ServiceNS(l.queued, FALLBACK_RATE) - if l.carry then CARRY_BONUS else 0
  }

  ghost predicate IsBest(qs: Paths, loads: map<nat, Load>, members: set<nat>, chosen: nat)
    requires members <= qs.Keys && members <= loads.Keys
  {
    chosen in members && forall i :: i in members ==> Score(qs[chosen], loads[chosen]) <= Score(qs[i], loads[i])
  }

  function Charged(p: Path, bytes: nat): Path {
    p.(debt := p.debt + ServiceNS(bytes, FALLBACK_RATE))
  }

  /** One decision: alone, a path starts from zero; several share, and the best one is charged. */
  ghost predicate Decided(ps: Paths, loads: map<nat, Load>, members: set<nat>, chosen: nat, bytes: nat, rs: Paths) {
    && members <= ps.Keys && members <= loads.Keys && chosen in members
    && if members == {chosen} then
         rs.Keys == ps.Keys && forall i :: i in rs ==> rs[i] == Path(i == chosen, 0)
       else
         exists qs, epoch ::
           && Rebased(ps, members, qs, epoch)
           && IsBest(qs, loads, members, chosen)
           && rs == qs[chosen := Charged(qs[chosen], bytes)]
  }

  // ---- the bound ----

  function Spread(maxQueue: nat, maxBatch: nat): nat {
    NS_PER_BYTE * (maxQueue + maxBatch) + CARRY_BONUS
  }

  predicate Bounded(ps: Paths, bound: int) {
    forall i :: i in ps ==> (if ps[i].active then 0 <= ps[i].debt <= bound else ps[i].debt == 0)
  }

  lemma EpochInRange(ps: Paths, members: set<nat>, epoch: int, bound: nat)
    requires members <= ps.Keys && IsEpoch(ps, members, epoch) && Bounded(ps, bound)
    ensures 0 <= epoch <= bound
  {
  }

  lemma RebasedBounded(ps: Paths, members: set<nat>, qs: Paths, epoch: int, bound: nat)
    requires members <= ps.Keys && Rebased(ps, members, qs, epoch) && Bounded(ps, bound)
    ensures Bounded(qs, bound)
    ensures members != {} ==> exists i :: i in members && qs[i].debt == 0
  {
    EpochInRange(ps, members, epoch, bound);
    if members != {} {
      var i :| i in members && Joined(ps[i], epoch) == epoch;
      assert qs[i].debt == 0;
    }
  }

  /** The best path owes at most what a queue and a carry bonus can hide. */
  lemma BestOwesLittle(qs: Paths, loads: map<nat, Load>, members: set<nat>, chosen: nat, maxQueue: nat)
    requires members <= qs.Keys && members <= loads.Keys && IsBest(qs, loads, members, chosen)
    requires maxQueue <= MAX_BYTES && forall i :: i in members ==> loads[i].queued <= maxQueue
    requires exists i :: i in members && qs[i].debt == 0
    ensures qs[chosen].debt <= NS_PER_BYTE * maxQueue + CARRY_BONUS
  {
    hide ServiceNS;
    var i :| i in members && qs[i].debt == 0;
    assert Score(qs[chosen], loads[chosen]) <= Score(qs[i], loads[i]);
    ServiceIsPerByte(loads[i].queued);
    ServiceIsPerByte(loads[chosen].queued);
  }

  lemma DecisionBounded(ps: Paths, loads: map<nat, Load>, members: set<nat>, chosen: nat, bytes: nat, rs: Paths,
                        maxQueue: nat, maxBatch: nat)
    requires Decided(ps, loads, members, chosen, bytes, rs)
    requires maxQueue <= MAX_BYTES && forall i :: i in members ==> loads[i].queued <= maxQueue
    requires bytes <= maxBatch <= MAX_BYTES
    requires Bounded(ps, Spread(maxQueue, maxBatch))
    ensures Bounded(rs, Spread(maxQueue, maxBatch))
  {
    hide ServiceNS, IsBest;
    if members != {chosen} {
      var qs, epoch :| Rebased(ps, members, qs, epoch) && IsBest(qs, loads, members, chosen)
                       && rs == qs[chosen := Charged(qs[chosen], bytes)];
      RebasedBounded(ps, members, qs, epoch, Spread(maxQueue, maxBatch));
      KeysOf(ps, members, qs, epoch);
      BestOwesLittle(qs, loads, members, chosen, maxQueue);
      ServiceIsPerByte(bytes);
    }
  }

  lemma KeysOf(ps: Paths, members: set<nat>, qs: Paths, epoch: int)
    requires members <= ps.Keys && Rebased(ps, members, qs, epoch)
    ensures qs.Keys == ps.Keys && forall i :: i in members ==> qs[i].active
    ensures forall i, j :: i in members && j in members ==>
              qs[i].debt - qs[j].debt == Joined(ps[i], epoch) - Joined(ps[j], epoch)
  {
  }

  // ---- runs ----

  datatype Event =
    | Join(path: nat)
    | Leave(path: nat)
    | Decide(loads: map<nat, Load>, members: set<nat>, chosen: nat, bytes: nat)
    | Clear  // no path is in measure: all leave the active set, and nothing is charged

  ghost predicate Next(ps: Paths, ev: Event, rs: Paths) {
    match ev
    case Join(i) => i !in ps && rs == ps[i := Path(false, 0)]
    case Leave(i) => rs == ps - {i}
    case Decide(loads, members, chosen, bytes) => Decided(ps, loads, members, chosen, bytes, rs)
    case Clear => Cleared(ps, rs)
  }

  predicate Cleared(ps: Paths, rs: Paths) {
    rs.Keys == ps.Keys && forall i :: i in rs ==> rs[i] == Path(false, 0)
  }

  predicate Within(ev: Event, maxQueue: nat, maxBatch: nat) {
    ev.Decide? ==> ev.bytes <= maxBatch && forall i :: i in ev.members && i in ev.loads ==> ev.loads[i].queued <= maxQueue
  }

  /** states[k] is the table before events[k]. */
  ghost predicate Run(states: seq<Paths>, evs: seq<Event>, maxQueue: nat, maxBatch: nat) {
    && |states| == |evs| + 1 && states[0] == map[]
    && maxQueue <= MAX_BYTES && maxBatch <= MAX_BYTES
    && forall k :: 0 <= k < |evs| ==> Within(evs[k], maxQueue, maxBatch) && Next(states[k], evs[k], states[k + 1])
  }

  lemma {:induction false} RunBounded(states: seq<Paths>, evs: seq<Event>, maxQueue: nat, maxBatch: nat, k: nat)
    requires Run(states, evs, maxQueue, maxBatch) && k <= |evs|
    ensures Bounded(states[k], Spread(maxQueue, maxBatch))
    decreases k
  {
    hide Decided;
    if k > 0 {
      RunBounded(states, evs, maxQueue, maxBatch, k - 1);
      assert Within(evs[k - 1], maxQueue, maxBatch) && Next(states[k - 1], evs[k - 1], states[k]);
      var ev := evs[k - 1];
      if ev.Decide? {
        assert ev.members <= ev.loads.Keys by { MembersLoaded(states[k - 1], ev, states[k]); }
        DecisionBounded(states[k - 1], ev.loads, ev.members, ev.chosen, ev.bytes, states[k], maxQueue, maxBatch);
      }
    }
  }

  lemma MembersLoaded(ps: Paths, ev: Event, rs: Paths)
    requires ev.Decide? && Decided(ps, ev.loads, ev.members, ev.chosen, ev.bytes, rs)
    ensures ev.members <= ev.loads.Keys && ev.members <= ps.Keys
  {
  }

  /**
   In every state of every run the debts of two active paths differ by at most 40 ns per byte of
   the largest queue and the largest batch, plus the carry bonus, and no debt is negative.
   */
  lemma DebtsStayClose(states: seq<Paths>, evs: seq<Event>, maxQueue: nat, maxBatch: nat, k: nat, i: nat, j: nat)
    requires Run(states, evs, maxQueue, maxBatch) && k <= |evs|
    requires i in states[k] && j in states[k] && states[k][i].active && states[k][j].active
    ensures 0 <= states[k][i].debt
    ensures states[k][i].debt - states[k][j].debt <= NS_PER_BYTE * (maxQueue + maxBatch) + CARRY_BONUS
  {
    RunBounded(states, evs, maxQueue, maxBatch, k);
  }

  // ---- equal shares ----

  /** Bytes charged to path i over the events. */
  function Assigned(evs: seq<Event>, i: nat): nat {
    if evs == [] then 0
    else Assigned(evs[..|evs| - 1], i)
         + var ev := evs[|evs| - 1]; if ev.Decide? && ev.chosen == i then ev.bytes else 0
  }

  /** Both paths take part in every decision. */
  predicate Together(ev: Event, i: nat, j: nat) {
    match ev
    case Join(x) => x != i && x != j
    case Leave(x) => x != i && x != j
    case Decide(loads, members, chosen, bytes) => i in members && j in members
    case Clear => false
  }

  lemma DecisionCharges(ps: Paths, ev: Event, rs: Paths, i: nat, j: nat)
    requires ev.Decide? && Next(ps, ev, rs) && Together(ev, i, j) && i != j && ev.bytes <= MAX_BYTES
    requires i in ps && j in ps && ps[i].active && ps[j].active
    ensures i in rs && j in rs && rs[i].active && rs[j].active
    ensures (rs[i].debt - rs[j].debt) - (ps[i].debt - ps[j].debt)
            == NS_PER_BYTE * ((if ev.chosen == i then ev.bytes else 0) - (if ev.chosen == j then ev.bytes else 0))
  {
    hide ServiceNS, IsBest;
    assert i in ev.members && j in ev.members && ev.members != {ev.chosen};
    var qs, epoch :| Rebased(ps, ev.members, qs, epoch) && IsBest(qs, ev.loads, ev.members, ev.chosen)
                     && rs == qs[ev.chosen := Charged(qs[ev.chosen], ev.bytes)];
    KeysOf(ps, ev.members, qs, epoch);
    ServiceIsPerByte(ev.bytes);
  }

  lemma {:induction false} ChargesAddUp(states: seq<Paths>, evs: seq<Event>, maxQueue: nat, maxBatch: nat, a: nat, b: nat, i: nat, j: nat)
    requires Run(states, evs, maxQueue, maxBatch) && a <= b <= |evs| && i != j
    requires i in states[a] && j in states[a] && states[a][i].active && states[a][j].active
    requires forall k :: a <= k < b ==> Together(evs[k], i, j)
    ensures i in states[b] && j in states[b] && states[b][i].active && states[b][j].active
    ensures (states[b][i].debt - states[b][j].debt) - (states[a][i].debt - states[a][j].debt)
            == NS_PER_BYTE * (Assigned(evs[a..b], i) - Assigned(evs[a..b], j))
    decreases b
  {
    hide Decided, Together;
    if a < b {
      ChargesAddUp(states, evs, maxQueue, maxBatch, a, b - 1, i, j);
      var ev := evs[b - 1];
      assert Within(ev, maxQueue, maxBatch) && Next(states[b - 1], ev, states[b]) && Together(ev, i, j);
      assert evs[a..b][..b - a - 1] == evs[a..b - 1] && evs[a..b][b - a - 1] == ev;
      if ev.Decide? {
        DecisionCharges(states[b - 1], ev, states[b], i, j);
      } else {
        assert !ev.Clear? && ev.path != i && ev.path != j by { Apart(ev, i, j); }
      }
    } else {
      assert evs[a..b] == [];
    }
  }

  lemma Apart(ev: Event, i: nat, j: nat)
    requires Together(ev, i, j) && !ev.Decide?
    ensures !ev.Clear? && ev.path != i && ev.path != j
  {
  }

  /** Two paths that stay in the active set carry equal bytes, up to a fixed slack, however long that lasts. */
  lemma EqualShares(states: seq<Paths>, evs: seq<Event>, maxQueue: nat, maxBatch: nat, a: nat, b: nat, i: nat, j: nat)
    requires Run(states, evs, maxQueue, maxBatch) && a <= b <= |evs| && i != j
    requires i in states[a] && j in states[a] && states[a][i].active && states[a][j].active
    requires forall k :: a <= k < b ==> Together(evs[k], i, j)
    ensures NS_PER_BYTE * (Assigned(evs[a..b], i) - Assigned(evs[a..b], j)) <= 2 * Spread(maxQueue, maxBatch)
  {
    hide Run, Together;
    ChargesAddUp(states, evs, maxQueue, maxBatch, a, b, i, j);
    RunBounded(states, evs, maxQueue, maxBatch, a);
    RunBounded(states, evs, maxQueue, maxBatch, b);
  }
}
