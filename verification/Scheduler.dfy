/**
 The adaptive scheduler: picks the path for a batch and keeps the debts of the
 paths that share the load.
 */
module Scheduler {
  import opened Wire
  import opened FecControl
  import opened FairShare
  import opened PathRanking

  class Backend {
    var queueLen: nat
    var queueCap: nat
    var rttUs: nat
    var rateBytesPerSec: nat
    var queuedBytes: nat
    var carryPending: bool
    var active: bool
    var virtualFinishNS: int

    constructor (capacity: nat)
      ensures queueCap == capacity && queueLen == 0 && rttUs == 0 && rateBytesPerSec == 0
      ensures queuedBytes == 0 && !carryPending && !active && virtualFinishNS == 0
    {
      queueLen, queueCap, rttUs, rateBytesPerSec, queuedBytes := 0, capacity, 0, 0, 0;
      carryPending, active, virtualFinishNS := false, false, 0;
    }

    function View(): View
      reads this
    {
      PathRanking.View.View(queueLen, queueCap, rttUs, rateBytesPerSec)
    }

    function Load(): Load
      reads this
    {
      FairShare.Load.Load(queuedBytes, carryPending)
    }

    function Path(): Path
      reads this
    {
      FairShare.Path.Path(active, virtualFinishNS)
    }
  }

  function ServiceUS(bytes: nat, rate: nat): nat {
    if bytes == 0 then 0
    else (bytes * 1_000_000 % U64) / if rate == 0 then FALLBACK_RATE else rate
  }

  predicate Separate(bs: seq<Backend>) {
    forall i, j :: 0 <= i < j < |bs| ==> bs[i] != bs[j]
  }

  function Views(bs: seq<Backend>): (vs: seq<View>)
    reads bs
    ensures |vs| == |bs|
  {
    seq(|bs|, i requires 0 <= i < |bs| reads bs => bs[i].View())
  }

  ghost function Debts(bs: seq<Backend>): (ps: Paths)
    reads bs
    ensures forall i: nat :: i in ps <==> i < |bs|
  {
    map i: nat | i < |bs| :: bs[i].Path()
  }

  ghost function Loads(bs: seq<Backend>): (ls: map<nat, Load>)
    reads bs
    ensures forall i: nat :: i in ls <==> i < |bs|
  {
    map i: nat | i < |bs| :: bs[i].Load()
  }

  predicate IsCandidate(vs: seq<View>, c: Candidate, minRtt: nat, bytes: nat) {
    && c.path < |vs| && vs[c.path].Eligible(minRtt)
    && c.rtt == vs[c.path].RankedRtt(minRtt)
    && c.base == c.rtt / 2 + ServiceUS(bytes, FALLBACK_RATE)
  }

  ghost function Members(cs: seq<Candidate>, n: nat): set<nat>
    requires n <= |cs|
  {
    set k | 0 <= k < n :: cs[k].path
  }

  // ---- single steps ----

  method SetPath(bs: seq<Backend>, i: nat, active: bool, debt: int)
    requires i < |bs| && Separate(bs)
    modifies bs[i]
    ensures Debts(bs) == old(Debts(bs))[i := Path(active, debt)]
    ensures Views(bs) == old(Views(bs)) && Loads(bs) == old(Loads(bs))
  {
    bs[i].active := active;
    bs[i].virtualFinishNS := debt;
    forall k | 0 <= k < |bs| && k != i ensures bs[k] != bs[i] {}
  }

  /** The candidates among the first k paths. */
  ghost predicate Collected(vs: seq<View>, cs: seq<Candidate>, minRtt: nat, bytes: nat, k: nat)
    requires k <= |vs|
  {
    && (forall j :: 0 <= j < |cs| ==> IsCandidate(vs, cs[j], minRtt, bytes) && cs[j].path < k)
    && DistinctPaths(cs)
    && (forall i :: 0 <= i < k && vs[i].Eligible(minRtt) ==> HasPath(cs, i))
  }

  ghost predicate HasPath(cs: seq<Candidate>, i: nat) {
    exists j :: 0 <= j < |cs| && cs[j].path == i
  }

  lemma CollectMore(vs: seq<View>, cs: seq<Candidate>, minRtt: nat, bytes: nat, c: Candidate)
    requires c.path < |vs| && Collected(vs, cs, minRtt, bytes, c.path) && IsCandidate(vs, c, minRtt, bytes)
    ensures Collected(vs, cs + [c], minRtt, bytes, c.path + 1)
  {
    hide IsCandidate, View.Eligible;
    var more := cs + [c];
    assert more[|cs|].path == c.path;
    forall i | 0 <= i < c.path && vs[i].Eligible(minRtt) ensures HasPath(more, i) {
      assert HasPath(cs, i);
      var j :| 0 <= j < |cs| && cs[j].path == i;
      assert more[j].path == i;
    }
  }

  lemma CollectedNone(vs: seq<View>, minRtt: nat, bytes: nat)
    ensures Collected(vs, [], minRtt, bytes, 0)
  {
  }

  /** Paths that are not eligible leave the active set. */
  method Collect(bs: seq<Backend>, minRtt: nat, bytes: nat) returns (cs: seq<Candidate>)
    requires Separate(bs)
    modifies bs
    ensures Views(bs) == old(Views(bs)) && Loads(bs) == old(Loads(bs))
    ensures Collected(Views(bs), cs, minRtt, bytes, |bs|)
    ensures forall i: nat :: i < |bs| ==>
              Debts(bs)[i] == if Views(bs)[i].Eligible(minRtt) then old(Debts(bs))[i] else Path(false, 0)
  {
    hide View.Eligible, Views, Loads, Debts, Separate, Collected;
    ghost var vs, ds := Views(bs), Debts(bs);
    cs := [];
    CollectedNone(vs, minRtt, bytes);
    for k := 0 to |bs|
      invariant Views(bs) == vs && Loads(bs) == old(Loads(bs))
      invariant forall i: nat :: i < k ==> Debts(bs)[i] == if vs[i].Eligible(minRtt) then ds[i] else Path(false, 0)
      invariant forall i: nat :: k <= i < |bs| ==> Debts(bs)[i] == ds[i]
      invariant Collected(vs, cs, minRtt, bytes, k)
    {
      cs := Consider(bs, k, minRtt, bytes, cs);
    }
  }

  /** Path k becomes a candidate, or leaves the active set. */
  method Consider(bs: seq<Backend>, k: nat, minRtt: nat, bytes: nat, cs: seq<Candidate>) returns (more: seq<Candidate>)
    requires k < |bs| && Separate(bs) && Collected(Views(bs), cs, minRtt, bytes, k)
    modifies bs
    ensures Views(bs) == old(Views(bs)) && Loads(bs) == old(Loads(bs))
    ensures Collected(Views(bs), more, minRtt, bytes, k + 1)
    ensures Debts(bs) == if Views(bs)[k].Eligible(minRtt) then old(Debts(bs)) else old(Debts(bs))[k := Path(false, 0)]
  {
    hide ServiceUS, View.Eligible, View.RankedRtt, Loads, Debts, Separate, Collected;
    ghost var vs := Views(bs);
    var v := bs[k].View();
    assert v == vs[k];
    hide Views;
    if v.Eligible(minRtt) {
      var rtt := v.RankedRtt(minRtt);
      var c := Candidate(k, rtt / 2 + ServiceUS(bytes, FALLBACK_RATE), rtt);
      CollectMore(vs, cs, minRtt, bytes, c);
      more := cs + [c];
    } else {
      CollectNone(vs, cs, minRtt, bytes, k);
      more := cs;
      SetPath(bs, k, false, 0);
    }
  }

  lemma CollectNone(vs: seq<View>, cs: seq<Candidate>, minRtt: nat, bytes: nat, k: nat)
    requires k < |vs| && Collected(vs, cs, minRtt, bytes, k) && !vs[k].Eligible(minRtt)
    ensures Collected(vs, cs, minRtt, bytes, k + 1)
  {
    hide IsCandidate;
  }

  // ---- sharing among the n best candidates ----

  /** The candidates name distinct paths of the list. */
  predicate Named(cs: seq<Candidate>, size: nat) {
    DistinctPaths(cs) && forall k :: 0 <= k < |cs| ==> cs[k].path < size
  }

  lemma MemberIndex(cs: seq<Candidate>, n: nat, i: nat) returns (k: nat)
    requires n <= |cs| && i in Members(cs, n)
    ensures k < n && cs[k].path == i
  {
    k :| 0 <= k < n && cs[k].path == i;
  }

  lemma MembersGrow(cs: seq<Candidate>, n: nat)
    requires n < |cs|
    ensures Members(cs, n + 1) == Members(cs, n) + {cs[n].path}
    ensures DistinctPaths(cs) ==> cs[n].path !in Members(cs, n)
  {
  }

  /** The least debt among those of the n candidates that are active already. */
  method FindEpoch(bs: seq<Backend>, cs: seq<Candidate>, n: nat) returns (epoch: int)
    requires n <= |cs| && Named(cs, |bs|)
    ensures Members(cs, n) <= Debts(bs).Keys && IsEpoch(Debts(bs), Members(cs, n), epoch)
  {
    var found := false;
    epoch := 0;
    ghost var ds := Debts(bs);
    for k := 0 to n
      invariant Members(cs, k) <= ds.Keys
      invariant found ==> exists i :: i in Members(cs, k) && ds[i].active && ds[i].debt == epoch
      invariant forall i :: i in Members(cs, k) && ds[i].active ==> found && epoch <= ds[i].debt
      invariant !found ==> epoch == 0
    {
      var b := bs[cs[k].path];
      MembersGrow(cs, k);
      assert ds[cs[k].path] == b.Path() && cs[k].path in Members(cs, k + 1);
      if b.active && (!found || b.virtualFinishNS < epoch) {
        epoch := b.virtualFinishNS;
        found := true;
      }
    }
  }

  /** Members become active, joining at the epoch if they were not; the other candidates leave. */
  method Activate(bs: seq<Backend>, cs: seq<Candidate>, n: nat, epoch: int)
    requires n <= |cs| && Named(cs, |bs|) && Separate(bs)
    modifies bs
    ensures Views(bs) == old(Views(bs)) && Loads(bs) == old(Loads(bs))
    ensures forall i: nat :: i < |bs| ==>
              Debts(bs)[i] == if i in Members(cs, n) then Path(true, Joined(old(Debts(bs))[i], epoch))
                              else if i in Members(cs, |cs|) then Path(false, 0)
                              else old(Debts(bs))[i]
  {
    hide Loads, Views, Members, Separate;
    ghost var ds := Debts(bs);
    NoneYet(cs);
    for k := 0 to |cs|
      invariant Views(bs) == old(Views(bs)) && Loads(bs) == old(Loads(bs))
      invariant forall i: nat :: i < |bs| ==>
                  Debts(bs)[i] == if i !in Members(cs, k) then ds[i]
                                  else if i in Members(cs, n) then Path(true, Joined(ds[i], epoch))
                                  else Path(false, 0)
    {
      var at := cs[k].path;
      MembersGrow(cs, k);
      assert Debts(bs)[at] == ds[at];
      assert (at in Members(cs, n)) == (k < n) by { MemberBelow(cs, n, k); }
      if k >= n {
        SetPath(bs, at, false, 0);
      } else {
        SetPath(bs, at, true, if bs[at].active then bs[at].virtualFinishNS else epoch);
      }
    }
    MembersInList(cs, n, |bs|);
  }

  lemma NoneYet(cs: seq<Candidate>)
    ensures Members(cs, 0) == {}
  {
  }

  lemma MemberBelow(cs: seq<Candidate>, n: nat, k: nat)
    requires n <= |cs| && k < |cs| && DistinctPaths(cs)
    ensures cs[k].path in Members(cs, n) <==> k < n
  {
    if cs[k].path in Members(cs, n) {
      var j := MemberIndex(cs, n, cs[k].path);
    }
  }

  method LeastDebt(bs: seq<Backend>, cs: seq<Candidate>, n: nat) returns (least: int)
    requires 0 < n <= |cs| && Named(cs, |bs|)
    ensures exists i :: i in Members(cs, n) && i in Debts(bs) && Debts(bs)[i].debt == least
    ensures forall i :: i in Members(cs, n) ==> i in Debts(bs) && least <= Debts(bs)[i].debt
  {
    ghost var ds := Debts(bs);
    least := bs[cs[0].path].virtualFinishNS;
    MembersGrow(cs, 0);
    assert cs[0].path in Members(cs, 1) && ds[cs[0].path].debt == least;
    for k := 1 to n
      invariant exists i :: i in Members(cs, k) && i in ds && ds[i].debt == least
      invariant forall i :: i in Members(cs, k) ==> i in ds && least <= ds[i].debt
    {
      MembersGrow(cs, k);
      var at := cs[k].path;
      assert at in Members(cs, k + 1) && ds[at].debt == bs[at].virtualFinishNS;
      if bs[at].virtualFinishNS < least {
        least := bs[at].virtualFinishNS;
      }
    }
  }

  /** Every member's debt goes down by the same amount. */
  method Rebase(bs: seq<Backend>, cs: seq<Candidate>, n: nat, least: int)
    requires n <= |cs| && Named(cs, |bs|) && Separate(bs)
    modifies bs
    ensures Views(bs) == old(Views(bs)) && Loads(bs) == old(Loads(bs))
    ensures forall i: nat :: i < |bs| ==> Debts(bs)[i] == Lowered(old(Debts(bs))[i], i in Members(cs, n), least)
  {
    ghost var ds := Debts(bs);
    if least != 0 {
      for k := 0 to n
        invariant Views(bs) == old(Views(bs)) && Loads(bs) == old(Loads(bs))
        invariant forall i: nat :: i < |bs| ==> Debts(bs)[i] == Lowered(ds[i], i in Members(cs, k), least)
      {
        var at := cs[k].path;
        MembersGrow(cs, k);
        assert Debts(bs)[at] == ds[at];
        SetPath(bs, at, bs[at].active, bs[at].virtualFinishNS - least);
      }
    }
  }

  function Lowered(p: Path, member: bool, least: int): Path {
    if member then p.(debt := p.debt - least) else p
  }

  function ScoreOf(b: Backend): int
    reads b
  {
    b.virtualFinishNS + ServiceNS(b.queuedBytes, FALLBACK_RATE) - if b.carryPending then CARRY_BONUS else 0
  }

  /** The member with the lowest score; among equals the shorter round trip wins. */
  method ChooseBest(bs: seq<Backend>, cs: seq<Candidate>, n: nat) returns (best: Candidate)
    requires 0 < n <= |cs| && Named(cs, |bs|)
    ensures best in cs[..n]
    ensures Members(cs, n) <= Debts(bs).Keys && Members(cs, n) <= Loads(bs).Keys
    ensures IsBest(Debts(bs), Loads(bs), Members(cs, n), best.path)
    ensures forall c :: c in cs[..n] && ScoreOf(bs[c.path]) == ScoreOf(bs[best.path]) ==> best.rtt <= c.rtt
  {
    hide ServiceNS;
    best := cs[0];
    var score := ScoreOf(bs[best.path]);
    for k := 1 to n
      invariant best in cs[..k] && score == ScoreOf(bs[best.path])
      invariant forall j :: 0 <= j < k ==> score <= ScoreOf(bs[cs[j].path])
      invariant forall j :: 0 <= j < k && ScoreOf(bs[cs[j].path]) == score ==> best.rtt <= cs[j].rtt
    {
      var s := ScoreOf(bs[cs[k].path]);
      if s < score || (s == score && cs[k].rtt < best.rtt) {
        best, score := cs[k], s;
        assert cs[..k + 1][k] == best;
      }
    }
    ghost var ps, ls := Debts(bs), Loads(bs);
    forall i | i in Members(cs, n) ensures i in ps && Score(ps[best.path], ls[best.path]) <= Score(ps[i], ls[i]) {
      var k := MemberIndex(cs, n, i);
      assert ScoreOf(bs[i]) == Score(ps[i], ls[i]);
    }
    var k :| 0 <= k < n && cs[..n][k] == best;
    assert cs[k].path in Members(cs, n);
  }

  lemma LeastIsEpoch(ps: Paths, members: set<nat>, epoch: int, qs: Paths, least: int)
    requires members <= ps.Keys && members <= qs.Keys && IsEpoch(ps, members, epoch)
    requires forall i :: i in members ==> qs[i] == Path(true, Joined(ps[i], epoch))
    requires exists i :: i in members && qs[i].debt == least
    requires forall i :: i in members ==> least <= qs[i].debt
    ensures least == epoch
  {
  }

  lemma RebasedFrom(ps: Paths, members: set<nat>, candidates: set<nat>, epoch: int, qs: Paths, rs: Paths)
    requires members <= candidates <= ps.Keys && qs.Keys == ps.Keys && rs.Keys == ps.Keys && IsEpoch(ps, members, epoch)
    requires forall i :: i in ps && i !in candidates ==> ps[i] == Path(false, 0)
    requires forall i :: i in ps ==>
               qs[i] == if i in members then Path(true, Joined(ps[i], epoch)) else if i in candidates then Path(false, 0) else ps[i]
    requires forall i :: i in ps ==> rs[i] == Lowered(qs[i], i in members, epoch)
    ensures Rebased(ps, members, rs, epoch)
  {
    hide IsEpoch;
  }

  /** The n best candidates become the active set, rebased. */
  method Level(bs: seq<Backend>, cs: seq<Candidate>, n: nat) returns (ghost epoch: int)
    requires 0 < n <= |cs| && Named(cs, |bs|) && Separate(bs)
    requires forall i: nat :: i < |bs| && i !in Members(cs, |cs|) ==> Debts(bs)[i] == Path(false, 0)
    modifies bs
    ensures Views(bs) == old(Views(bs)) && Loads(bs) == old(Loads(bs))
    ensures Members(cs, n) <= old(Debts(bs)).Keys
    ensures Rebased(old(Debts(bs)), Members(cs, n), Debts(bs), epoch)
  {
    hide IsEpoch, Separate, Members, Lowered, Rebased, Debts, Loads, Views;
    ghost var ps, members := Debts(bs), Members(cs, n);
    var start := FindEpoch(bs, cs, n);
    MembersInList(cs, n, |bs|);
    Activate(bs, cs, n, start);
    ghost var qs := Debts(bs);
    var least := LeastDebt(bs, cs, n);
    LeastIsEpoch(ps, members, start, qs, least);
    Rebase(bs, cs, n, least);
    RebasedFrom(ps, members, Members(cs, |cs|), start, qs, Debts(bs));
    epoch := start;
  }

  lemma MembersInList(cs: seq<Candidate>, n: nat, size: nat)
    requires n <= |cs| && Named(cs, size)
    ensures Members(cs, n) <= Members(cs, |cs|)
    ensures forall i :: i in Members(cs, |cs|) ==> i < size
  {
  }

  /** Several paths share: the best of the n candidates takes the batch. */
  method Share(bs: seq<Backend>, cs: seq<Candidate>, n: nat, bytes: nat) returns (best: Candidate)
    requires 2 <= n <= |cs| && Named(cs, |bs|) && Separate(bs)
    requires forall i: nat :: i < |bs| && i !in Members(cs, |cs|) ==> Debts(bs)[i] == Path(false, 0)
    modifies bs
    ensures Views(bs) == old(Views(bs)) && Loads(bs) == old(Loads(bs))
    ensures best in cs[..n]
    ensures Decided(old(Debts(bs)), Loads(bs), Members(cs, n), best.path, bytes, Debts(bs))
  {
    hide ServiceNS, Separate, Members, IsBest, IsEpoch;
    ghost var epoch := Level(bs, cs, n);
    ghost var rs := Debts(bs);
    best := ChooseBest(bs, cs, n);
    NotAlone(cs, n, best.path);
    InList(cs, n, best, |bs|);
    SetPath(bs, best.path, bs[best.path].active, bs[best.path].virtualFinishNS + ServiceNS(bytes, FALLBACK_RATE));
    assert Debts(bs) == rs[best.path := Charged(rs[best.path], bytes)];
  }

  lemma InList(cs: seq<Candidate>, n: nat, c: Candidate, size: nat)
    requires n <= |cs| && Named(cs, size) && c in cs[..n]
    ensures c.path < size && c.path in Members(cs, n)
  {
    var k :| 0 <= k < n && cs[..n][k] == c;
    assert cs[k].path in Members(cs, n);
  }

  lemma NotAlone(cs: seq<Candidate>, n: nat, i: nat)
    requires 2 <= n <= |cs| && DistinctPaths(cs)
    ensures Members(cs, n) != {i}
  {
    assert cs[0].path in Members(cs, n) && cs[1].path in Members(cs, n);
  }

  // ---- one decision ----

  /** A single path needs no debt: everything restarts from zero. */
  method Alone(bs: seq<Backend>, chosen: nat, ghost bytes: nat)
    requires chosen < |bs| && Separate(bs)
    modifies bs
    ensures Views(bs) == old(Views(bs)) && Loads(bs) == old(Loads(bs))
    ensures Decided(old(Debts(bs)), Loads(bs), {chosen}, chosen, bytes, Debts(bs))
  {
    hide Separate;
    for k := 0 to |bs|
      invariant Views(bs) == old(Views(bs)) && Loads(bs) == old(Loads(bs))
      invariant forall i: nat :: i < k ==> Debts(bs)[i] == Path(i == chosen, 0)
    {
      SetPath(bs, k, k == chosen, 0);
    }
  }

  /** Only the members' former debts matter to a decision. */
  lemma DecidedFrom(ps: Paths, cleared: Paths, loads: map<nat, Load>, members: set<nat>, chosen: nat, bytes: nat, rs: Paths)
    requires Decided(cleared, loads, members, chosen, bytes, rs)
    requires cleared.Keys == ps.Keys && forall i :: i in members ==> cleared[i] == ps[i]
    ensures Decided(ps, loads, members, chosen, bytes, rs)
  {
    hide IsBest, Charged;
    if members != {chosen} {
      var qs, epoch :| Rebased(cleared, members, qs, epoch) && IsBest(qs, loads, members, chosen)
                       && rs == qs[chosen := Charged(qs[chosen], bytes)];
      assert Rebased(ps, members, qs, epoch);
    }
  }

  /** The rank of a path, as the candidate list would hold it. */
  function Quality(vs: seq<View>, i: nat, minRtt: nat, bytes: nat): Candidate
    requires i < |vs|
  {
    var rtt := vs[i].RankedRtt(minRtt);
    Candidate(i, rtt / 2 + ServiceUS(bytes, FALLBACK_RATE), rtt)
  }

  /** Members are eligible, and no eligible path left out ranks before one of them. */
  ghost predicate Fittest(vs: seq<View>, members: set<nat>, minRtt: nat, bytes: nat) {
    && (forall i :: i in members ==> i < |vs| && vs[i].Eligible(minRtt))
    && (forall i, j: nat :: i in members && j < |vs| && vs[j].Eligible(minRtt) && j !in members ==>
          !Before(Quality(vs, j, minRtt, bytes), Quality(vs, i, minRtt, bytes)))
  }

  /** A path that is not the fittest is kept alone only if it is nearly as good as every eligible one. */
  ghost predicate Sticky(vs: seq<View>, i: nat, minRtt: nat, bytes: nat) {
    && i < |vs| && vs[i].Eligible(minRtt)
    && forall j: nat :: j < |vs| && vs[j].Eligible(minRtt) ==>
         Quality(vs, i, minRtt, bytes).base <= Quality(vs, j, minRtt, bytes).base + StickySlack(vs[i].RankedRtt(minRtt))
  }

  lemma Permuted(vs: seq<View>, cands: seq<Candidate>, cs: seq<Candidate>, minRtt: nat, bytes: nat)
    requires Collected(vs, cands, minRtt, bytes, |vs|)
    requires multiset(cs) == multiset(cands) && |cs| == |cands| && DistinctPaths(cs)
    ensures Collected(vs, cs, minRtt, bytes, |vs|)
  {
    hide IsCandidate, View.Eligible;
    forall j | 0 <= j < |cs| ensures IsCandidate(vs, cs[j], minRtt, bytes) && cs[j].path < |vs| {
      assert cs[j] in multiset(cands);
    }
    forall i | 0 <= i < |vs| && vs[i].Eligible(minRtt) ensures HasPath(cs, i) {
      assert HasPath(cands, i);
      var j :| 0 <= j < |cands| && cands[j].path == i;
      assert cands[j] in multiset(cs);
    }
  }

  lemma FittestMembers(vs: seq<View>, cs: seq<Candidate>, minRtt: nat, bytes: nat, n: nat)
    requires Collected(vs, cs, minRtt, bytes, |vs|) && Ranked(cs) && n <= |cs|
    ensures Fittest(vs, Members(cs, n), minRtt, bytes)
    ensures forall i: nat :: i in Members(cs, |cs|) <==> i < |vs| && vs[i].Eligible(minRtt)
    ensures |Members(cs, n)| == n
  {
    hide ServiceUS, View.Eligible, View.RankedRtt, Before;
    MembersCount(cs, n);
    forall i: nat | i < |vs| && vs[i].Eligible(minRtt) ensures i in Members(cs, |cs|) {
      assert HasPath(cs, i);
    }
    forall i, j: nat | i in Members(cs, n) && j < |vs| && vs[j].Eligible(minRtt) && j !in Members(cs, n)
      ensures !Before(Quality(vs, j, minRtt, bytes), Quality(vs, i, minRtt, bytes))
    {
      var a := MemberIndex(cs, n, i);
      assert HasPath(cs, j);
      var b := MemberIndex(cs, |cs|, j);
      assert b >= n && Quality(vs, i, minRtt, bytes) == cs[a] && Quality(vs, j, minRtt, bytes) == cs[b];
    }
  }

  lemma {:induction false} MembersCount(cs: seq<Candidate>, n: nat)
    requires n <= |cs| && DistinctPaths(cs)
    ensures |Members(cs, n)| == n
  {
    if n > 0 {
      MembersCount(cs, n - 1);
      MembersGrow(cs, n - 1);
      hide Members;
    }
  }

  /** How the decision's members and choice follow from what the paths looked like. */
  ghost predicate WellChosen(vs: seq<View>, members: set<nat>, chosen: nat, bytes: nat, pressure: nat, demand: nat, minRtt: nat) {
    && IsMinRtt(vs, minRtt)
    && |members| == ActiveTarget(pressure, demand, |EligibleSet(vs, minRtt)|)
    && (Fittest(vs, members, minRtt, bytes) || (members == {chosen} && Sticky(vs, chosen, minRtt, bytes)))
  }

  ghost function EligibleSet(vs: seq<View>, minRtt: nat): set<nat> {
    set i: nat | i < |vs| && vs[i].Eligible(minRtt)
  }

  /** There is room, but only on paths that never become candidates. */
  ghost predicate AllStalled(vs: seq<View>) {
    && (exists i :: 0 <= i < |vs| && vs[i].HasRoom())
    && forall i :: 0 <= i < |vs| && vs[i].HasRoom() ==> vs[i].Stalled()
  }

  lemma StalledScores(vs: seq<View>)
    requires forall i :: 0 <= i < |vs| && vs[i].HasRoom() ==> vs[i].Stalled()
    ensures forall i :: 0 <= i < |vs| ==> FallbackScore(vs[i]) == NO_RTT
  {
  }

  /** A path used alone stays the same one as long as it is nearly as good as every eligible path. */
  ghost predicate Loyal(bs: seq<Backend>, vs: seq<View>, current: Backend?, members: set<nat>, chosen: nat, minRtt: nat, bytes: nat) {
    forall p: nat :: p < |bs| && bs[p] == current && |members| == 1 && Sticky(vs, p, minRtt, bytes) ==> chosen == p
  }

  lemma SharedLoyal(bs: seq<Backend>, vs: seq<View>, members: set<nat>, chosen: nat, minRtt: nat, bytes: nat)
    requires |members| != 1
    ensures forall current :: Loyal(bs, vs, current, members, chosen, minRtt, bytes)
  {
  }

  class AsyncPort {
    var preferred: Backend?
    var activePaths: nat
    var inputRate: nat

    constructor ()
      ensures preferred == null && activePaths == 0 && inputRate == 0
    {
      preferred, activePaths, inputRate := null, 0, 0;
    }

    /** Candidate k is the first that names the current path. */
    ghost predicate IsCurrent(bs: seq<Backend>, cs: seq<Candidate>, k: nat)
      requires Named(cs, |bs|)
      reads this
    {
      k < |cs| && bs[cs[k].path] == preferred && forall j :: 0 <= j < k ==> bs[cs[j].path] != preferred
    }

    /** The current path if it is a candidate and nearly as good as the first one, which is taken otherwise. */
    method PickSingle(bs: seq<Backend>, cs: seq<Candidate>) returns (chosen: Candidate)
      requires 0 < |cs| && Named(cs, |bs|)
      ensures chosen in cs
      ensures chosen == cs[0] || chosen.base <= cs[0].base + StickySlack(chosen.rtt)
      ensures chosen == cs[0] || preferred == bs[chosen.path]
      ensures forall k :: 0 <= k < |cs| && IsCurrent(bs, cs, k) && cs[k].base <= cs[0].base + StickySlack(cs[k].rtt) ==> chosen == cs[k]
    {
      chosen := cs[0];
      if preferred != null && preferred != bs[chosen.path] {
        for k := 0 to |cs|
          invariant forall j :: 0 <= j < k ==> bs[cs[j].path] != preferred
        {
          if bs[cs[k].path] == preferred {
            if cs[k].base <= cs[0].base + StickySlack(cs[k].rtt) {
              chosen := cs[k];
            }
            return;
          }
        }
      }
    }

    /**
     The fallback: the best score, unless the current path is nearly as good; the first path
     when nobody scores.
     */
    method PickBackend(bs: seq<Backend>) returns (chosen: nat, ghost best: nat)
      requires bs != [] && Separate(bs)
      modifies this`preferred
      ensures chosen < |bs| && preferred == bs[chosen]
      ensures (forall i :: 0 <= i < |bs| ==> FallbackScore(Views(bs)[i]) == NO_RTT) ==> chosen == 0
      ensures (exists i :: 0 <= i < |bs| && FallbackScore(Views(bs)[i]) < NO_RTT) ==>
                && FirstBest(Views(bs), best)
                && (chosen == best || (bs[chosen] == old(preferred) && NearlyAsGood(Views(bs), best, chosen)))
                && (forall c: nat :: c < |bs| && bs[c] == old(preferred) && NearlyAsGood(Views(bs), best, c) ==> chosen == c)
    {
      hide FallbackScore;
      var lowest := LowestScore(Views(bs));
      if lowest.None? {
        preferred, chosen, best := bs[0], 0, 0;
        return;
      }
      chosen, best := lowest.value, lowest.value;
      ghost var vs := Views(bs);
      assert FallbackScore(vs[best]) < NO_RTT;
      if preferred != null && preferred != bs[chosen] {
        for k := 0 to |bs|
          invariant chosen == best && preferred == old(preferred)
          invariant forall j :: 0 <= j < k ==> bs[j] != preferred
        {
          if bs[k] == preferred {
            if NearlyAsGood(Views(bs), lowest.value, k) {
              chosen := k;
            }
            break;
          }
        }
      }
      preferred := bs[chosen];
      assert Views(bs) == vs;
    }

    /**
     The path for a batch.  Without room anywhere the first path is taken alone.  When every path
     with room is stalled, all paths are cleared and the fallback takes the first one.
     */
    method Pick(bs: seq<Backend>, pressure: nat, bytes: nat)
      returns (chosen: Option<nat>, ghost members: set<nat>, ghost minRtt: nat)
      requires Separate(bs) && forall i :: 0 <= i < |bs| ==> Views(bs)[i].rtt < U32
      modifies this`preferred, this`activePaths, bs
      ensures Views(bs) == old(Views(bs)) && Loads(bs) == old(Loads(bs))
      ensures chosen.None? <==> bs == []
      ensures chosen.Some? ==> chosen.value < |bs| && preferred == bs[chosen.value]
      ensures chosen.Some? && !AllStalled(Views(bs)) ==>
                |members| == activePaths && Decided(old(Debts(bs)), Loads(bs), members, chosen.value, bytes, Debts(bs))
      ensures chosen.Some? && AllStalled(Views(bs)) ==>
                chosen.value == 0 && activePaths == old(activePaths) && Cleared(old(Debts(bs)), Debts(bs))
      ensures chosen.Some? && (exists i :: 0 <= i < |bs| && Views(bs)[i].HasRoom() && !Views(bs)[i].Stalled()) ==>
                && WellChosen(Views(bs), members, chosen.value, bytes, pressure, inputRate, minRtt)
                && Loyal(bs, Views(bs), old(preferred), members, chosen.value, minRtt, bytes)
    {
      hide Decided, WellChosen, IsMinRtt, View.HasRoom, View.Stalled, Separate, Debts, Loads, Views, Loyal;
      members, minRtt := {}, 0;
      if bs == [] {
        activePaths := 0;
        return None, members, minRtt;
      }
      var vs := Views(bs);
      var healthy, least := MinRtt(vs);
      minRtt := least;
      if healthy == 0 {
        Alone(bs, 0, bytes);
        activePaths, preferred, members := 1, bs[0], {0};
        return Some(0), members, minRtt;
      }
      var at, n;
      at, members, n := PickAmong(bs, least, pressure, bytes);
      if at.Some? {
        activePaths, preferred := n, bs[at.value];
        return at, members, minRtt;
      }
      StalledScores(vs);
      var first, _ := PickBackend(bs);
      return Some(first), members, minRtt;
    }

    method PickAmong(bs: seq<Backend>, minRtt: nat, pressure: nat, bytes: nat)
      returns (chosen: Option<nat>, ghost members: set<nat>, n: nat)
      requires Separate(bs) && IsMinRtt(Views(bs), minRtt) && forall i :: 0 <= i < |bs| ==> Views(bs)[i].rtt < U32
      modifies bs
      ensures Views(bs) == old(Views(bs)) && Loads(bs) == old(Loads(bs))
      ensures chosen.Some? <==> exists i :: 0 <= i < |bs| && Views(bs)[i].HasRoom() && !Views(bs)[i].Stalled()
      ensures chosen.None? ==> forall i: nat :: i < |bs| ==> Debts(bs)[i] == Path(false, 0)
      ensures chosen.Some? ==>
                && chosen.value < |bs| && n == |members|
                && Decided(old(Debts(bs)), Loads(bs), members, chosen.value, bytes, Debts(bs))
                && WellChosen(Views(bs), members, chosen.value, bytes, pressure, inputRate, minRtt)
                && Loyal(bs, Views(bs), preferred, members, chosen.value, minRtt, bytes)
    {
      hide Decided, Fittest, Sticky, IsMinRtt, View.Eligible, Separate, Members, Collected, Debts, Loads, Views, Ranked, Loyal;
      hide View.HasRoom, View.Stalled;
      ghost var vs, ps := Views(bs), Debts(bs);
      var cs := Candidates(bs, minRtt, bytes);
      if cs == [] {
        NoneYet(cs);
        return None, {}, 0;
      }
      n := ActiveTarget(pressure, inputRate, |cs|);
      FittestMembers(vs, cs, minRtt, bytes, n);
      MembersInList(cs, n, |bs|);
      ghost var cleared := Debts(bs);
      var c;
      if n == 1 {
        c := PickSingle(bs, cs);
        members := {c.path};
        SingleFits(vs, cs, c, minRtt, bytes);
        StaysLoyal(bs, vs, cs, c, minRtt, bytes);
        Alone(bs, c.path, bytes);
      } else {
        c := Share(bs, cs, n, bytes);
        members := Members(cs, n);
        InList(cs, n, c, |bs|);
        SharedLoyal(bs, vs, members, c.path, minRtt, bytes);
      }
      chosen := Some(c.path);
      DecidedFrom(ps, cleared, Loads(bs), members, c.path, bytes, Debts(bs));
    }

    /** PickSingle keeps the current path whenever it is eligible and nearly as good as the best. */
    lemma StaysLoyal(bs: seq<Backend>, vs: seq<View>, cs: seq<Candidate>, c: Candidate, minRtt: nat, bytes: nat)
      requires Separate(bs) && |vs| == |bs| && Collected(vs, cs, minRtt, bytes, |vs|) && cs != [] && Named(cs, |bs|)
      requires forall k :: 0 <= k < |cs| && IsCurrent(bs, cs, k) && cs[k].base <= cs[0].base + StickySlack(cs[k].rtt) ==> c == cs[k]
      ensures Loyal(bs, vs, preferred, {c.path}, c.path, minRtt, bytes)
    {
      hide Sticky, StickySlack, Collected, Separate;
      forall p: nat | p < |bs| && bs[p] == preferred && Sticky(vs, p, minRtt, bytes) ensures c.path == p {
        var k := StickyFirst(bs, vs, cs, p, minRtt, bytes);
      }
    }

    /** A sticky current path is among the candidates, and nearly as good as the first one. */
    lemma StickyFirst(bs: seq<Backend>, vs: seq<View>, cs: seq<Candidate>, p: nat, minRtt: nat, bytes: nat) returns (k: nat)
      requires Separate(bs) && |vs| == |bs| && Collected(vs, cs, minRtt, bytes, |vs|) && cs != [] && Named(cs, |bs|)
      requires p < |bs| && bs[p] == preferred && Sticky(vs, p, minRtt, bytes)
      ensures k < |cs| && cs[k].path == p && IsCurrent(bs, cs, k) && cs[k].base <= cs[0].base + StickySlack(cs[k].rtt)
    {
      hide ServiceUS, View.Eligible, View.RankedRtt, StickySlack;
      assert HasPath(cs, p);
      k :| 0 <= k < |cs| && cs[k].path == p;
      assert Quality(vs, p, minRtt, bytes) == cs[k] && Quality(vs, cs[0].path, minRtt, bytes) == cs[0];
    }
  }

  /** The ranked candidates; everyone else is cleared. */
  method Candidates(bs: seq<Backend>, minRtt: nat, bytes: nat) returns (cs: seq<Candidate>)
    requires Separate(bs) && IsMinRtt(Views(bs), minRtt) && forall i :: 0 <= i < |bs| ==> Views(bs)[i].rtt < U32
    modifies bs
    ensures Views(bs) == old(Views(bs)) && Loads(bs) == old(Loads(bs))
    ensures Collected(Views(bs), cs, minRtt, bytes, |bs|) && Ranked(cs) && Named(cs, |bs|)
    ensures cs != [] <==> exists i :: 0 <= i < |bs| && Views(bs)[i].HasRoom() && !Views(bs)[i].Stalled()
    ensures |cs| == |EligibleSet(Views(bs), minRtt)|
    ensures forall i: nat :: i < |bs| ==>
              Debts(bs)[i] == if i in Members(cs, |cs|) then old(Debts(bs))[i] else Path(false, 0)
    ensures forall i :: i in Members(cs, |cs|) ==> i < |bs|
  {
    hide IsMinRtt, View.Eligible, View.HasRoom, View.Stalled, Separate, Members, Collected, Ranked, Fittest, Debts, Loads, Views;
    ghost var vs := Views(bs);
    SomeEligible(vs, minRtt);
    var cands := Collect(bs, minRtt, bytes);
    CollectedNamed(vs, cands, minRtt, bytes);
    cs := Rank(cands);
    Permuted(vs, cands, cs, minRtt, bytes);
    CollectedNamed(vs, cs, minRtt, bytes);
    FittestMembers(vs, cs, minRtt, bytes, |cs|);
    MembersInList(cs, |cs|, |bs|);
    assert EligibleSet(vs, minRtt) == Members(cs, |cs|);
  }

  lemma CollectedNamed(vs: seq<View>, cs: seq<Candidate>, minRtt: nat, bytes: nat)
    requires Collected(vs, cs, minRtt, bytes, |vs|)
    ensures Named(cs, |vs|)
    ensures (exists i :: 0 <= i < |vs| && vs[i].Eligible(minRtt)) <==> cs != []
  {
    hide View.Eligible;
    if i :| 0 <= i < |vs| && vs[i].Eligible(minRtt) {
      assert HasPath(cs, i);
    } else if cs != [] {
      assert IsCandidate(vs, cs[0], minRtt, bytes);
    }
  }

  lemma SingleFits(vs: seq<View>, cs: seq<Candidate>, c: Candidate, minRtt: nat, bytes: nat)
    requires Collected(vs, cs, minRtt, bytes, |vs|) && Ranked(cs) && c in cs
    requires c == cs[0] || c.base <= cs[0].base + StickySlack(c.rtt)
    ensures c.path < |vs| && vs[c.path].Eligible(minRtt)
    ensures Fittest(vs, {c.path}, minRtt, bytes) || Sticky(vs, c.path, minRtt, bytes)
  {
    hide ServiceUS, View.Eligible, View.RankedRtt, StickySlack;
    if c == cs[0] {
      FittestMembers(vs, cs, minRtt, bytes, 1);
      assert Members(cs, 1) == {c.path};
    } else {
      forall j: nat | j < |vs| && vs[j].Eligible(minRtt)
        ensures Quality(vs, c.path, minRtt, bytes).base <= Quality(vs, j, minRtt, bytes).base + StickySlack(vs[c.path].RankedRtt(minRtt))
      {
        assert HasPath(cs, j);
        var b :| 0 <= b < |cs| && cs[b].path == j;
        assert Quality(vs, j, minRtt, bytes) == cs[b] && Quality(vs, c.path, minRtt, bytes) == c;
      }
    }
  }
}
