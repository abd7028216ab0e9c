/**
 The XOR FEC decoder as it runs: one object per pending group with a membership
 mask and an XOR accumulator, objects recycled through a free list, creation
 order in a queue that is trimmed lazily, finished groups in a hashed ring.
 Every method is proved to act on the simple decoder exactly as its operation
 does, and live groups never share an object with each other or the free list.
 */
module FecDecoder {
  import opened Xor
  import opened Wire
  import opened FecControl
  import opened FecParity
  import opened FecEncoder
  import opened GroupDecoder

  class FecGroup {
    var start: nat
    var k: nat
    var lens: Option<seq<nat>>
    var gotMask: set<nat>
    var acc: Bytes
    var parity: Option<Bytes>

    constructor ()
      ensures fresh(this)
    {
      start, k, lens, gotMask, acc, parity := 0, 0, None, {}, [], None;
    }

    /** This object stores group g of size size, starting at s. */
    ghost predicate Stores(size: nat, s: nat, g: Group)
      reads this
    {
      && start == s
      && gotMask == g.members.Keys
      && IsFold(acc, g.members, size)
      && StoresParity(size, g.parity)
    }

    ghost predicate StoresParity(size: nat, par: Option<Parity>)
      reads this
    {
      match par
      case None => parity == None
      case Some(p) => k == size && lens == Some(p.lens) && parity == Some(p.body)
    }

    /** A cleared object stores the empty group. */
    method Init(size: nat, s: nat)
      modifies this
      ensures Stores(size, s, EmptyGroup)
    {
      start, k, lens, gotMask, acc, parity := s, 0, None, {}, [], None;
      forall i: nat ensures At([], i) == Fold(map[], size, i) { FoldEmpty(size, i); }
    }

    /** The payload of a member whose bit is already set. */
    method Absorb(size: nat, ghost g: Group, j: nat, frame: Bytes)
      requires j < size && j !in g.members && gotMask == g.members.Keys + {j}
      requires IsFold(acc, g.members, size) && StoresParity(size, g.parity)
      modifies this`acc
      ensures Stores(size, start, g.(members := g.members[j := frame]))
    {
      hide Fold;
      FoldStep(acc, g.members, size, j, frame);
      if |frame| > |acc| {
        acc := Extend(acc, |frame|);
      }
      acc := XorPrefix(acc, frame);
    }

    method SetParity(size: nat, s: nat, ghost g: Group, p: Parity)
      requires Stores(size, s, g)
      modifies this`k, this`lens, this`parity
      ensures Stores(size, s, g.(parity := Some(p)))
    {
      k, lens, parity := size, Some(p.lens), Some(p.body);
    }
  }

  class FecDecoder {
    const k: nat
    const ic: Cipher
    const fence: RxFence
    const doneRing: array<nat>
    var staticSingle: bool
    var cleanupBefore: nat
    var retiredBefore: nat
    var groups: map<nat, FecGroup>
    var groupOrder: seq<nat>
    var groupHead: nat
    var spares: seq<FecGroup>
    var recovered: nat
    var lost: nat
    /** The contents of the pending groups and the objects in use, for specification only. */
    ghost var pending: map<nat, Group>
    ghost var cells: set<FecGroup>

    ghost function State(): Decoder
      reads this, doneRing, fence
      requires groupHead <= |groupOrder|
    {
      Decoder(k, ic, pending, groupOrder[groupHead..], doneRing[..], fence.State(),
              cleanupBefore, retiredBefore, staticSingle, recovered, lost)
    }

    /** Every live group has an object of its own. */
    static ghost predicate Located(groups: map<nat, FecGroup>, live: set<nat>, cells: set<FecGroup>) {
      && groups.Keys == live
      && (forall s :: s in groups ==> groups[s] in cells)
      && (forall s, t :: s in groups && t in groups && groups[s] == groups[t] ==> s == t)
    }

    /** Free objects are distinct and not live. */
    static ghost predicate Free(spares: seq<FecGroup>, groups: map<nat, FecGroup>, cells: set<FecGroup>) {
      && |spares| <= MAX_PENDING
      && (forall i :: 0 <= i < |spares| ==> spares[i] in cells)
      && (forall i, j :: 0 <= i < |spares| && 0 <= j < |spares| && spares[i] == spares[j] ==> i == j)
      && (forall s, i :: s in groups && 0 <= i < |spares| ==> groups[s] != spares[i])
    }

    /** What the state depends on, and where the live objects are. */
    ghost predicate Shaped()
      reads this, doneRing
    {
      && GroupSize(k) && doneRing.Length == DONE_RING && groupHead <= |groupOrder|
      && groups.Keys == pending.Keys && forall s :: s in groups ==> groups[s] in cells
    }

    ghost predicate Framed()
      reads this, cells, doneRing, fence
      ensures Framed() ==> Shaped()
    {
      && GroupSize(k)
      && doneRing.Length == DONE_RING
      && fence.Valid()
      && groupHead <= |groupOrder|
      && Located(groups, pending.Keys, cells)
      && Free(spares, groups, cells)
    }

    /** Every live group's object stores the group's contents. */
    ghost predicate Consistent()
      reads this, cells, doneRing, fence
      ensures Consistent() ==> Shaped()
    {
      Framed() && forall s :: s in groups ==> groups[s].Stores(k, s, pending[s])
    }

    /** Consistent, except for the group being changed. */
    ghost predicate ConsistentBut(x: nat)
      reads this, cells, doneRing, fence
      ensures ConsistentBut(x) ==> Shaped()
    {
      Framed() && forall s :: s in groups && s != x ==> groups[s].Stores(k, s, pending[s])
    }

    ghost predicate Valid()
      reads this, cells, doneRing, fence
    {
      Consistent() && State().Valid()
    }

    constructor (groupSize: int, cipher: Cipher)
      ensures Valid() && State() == NewDecoder(groupSize, cipher)
      ensures fresh(cells) && fresh(doneRing) && fresh(fence)
    {
      k := ClampGroup(groupSize);
      ic := cipher;
      fence := new RxFence();
      doneRing := new nat[DONE_RING](_ => 0);
      staticSingle, cleanupBefore, retiredBefore := false, 0, 0;
      groups, groupOrder, groupHead, spares := map[], [], 0, [];
      recovered, lost := 0, 0;
      pending, cells := map[], {};
      new;
      assert doneRing[..] == seq(DONE_RING, _ => 0);
    }

    /** Skips creation records of groups that are gone. */
    method PruneGroupOrder()
      requires Consistent()
      modifies this`groupOrder, this`groupHead
      ensures Consistent()
      ensures State() == old(State()).Prune()
    {
      hide Located, Free, FecGroup.Stores, Pruned;
      TrimOrder();
    }

    /** Drops the records before the first live group and compacts the queue now and then. */
    method TrimOrder()
      requires groupHead <= |groupOrder|
      modifies this`groupOrder, this`groupHead
      ensures groupHead <= |groupOrder|
      ensures groupOrder[groupHead..] == Pruned(old(groupOrder[groupHead..]), groups.Keys)
    {
      while groupHead < |groupOrder| && groupOrder[groupHead] !in groups
        invariant groupHead <= |groupOrder|
        invariant Pruned(groupOrder[groupHead..], groups.Keys) == Pruned(old(groupOrder[groupHead..]), groups.Keys)
        decreases |groupOrder| - groupHead
      {
        assert groupOrder[groupHead..][1..] == groupOrder[groupHead + 1..];
        groupHead := groupHead + 1;
      }
      if groupHead == 0 {
        return;
      }
      if groupHead == |groupOrder| {
        groupOrder, groupHead := [], 0;
        return;
      }
      if groupHead >= 1024 || groupHead * 2 >= |groupOrder| {
        groupOrder, groupHead := groupOrder[groupHead..], 0;
      }
    }

    /** Clears a group object that is no longer live and keeps it for reuse. */
    method Release(g: FecGroup)
      requires |spares| <= MAX_PENDING && g in cells
      requires Free(spares, groups, cells) && g !in spares && forall s :: s in groups ==> groups[s] != g
      modifies g, this`spares
      ensures Free(spares, groups, cells) && old(spares) <= spares && forall x :: x in spares ==> x in old(spares) || x == g
    {
      g.parity, g.lens, g.acc := None, None, [];
      g.start, g.k, g.gotMask := 0, 0, {};
      if |spares| < MAX_PENDING {
        spares := spares + [g];
      }
    }

    /** Takes a group out of the table and recycles its object. */
    method Discard(s: nat)
      requires ConsistentBut(s) && s in groups
      modifies this`groups, this`pending, this`spares, groups[s]
      ensures Consistent()
      ensures groups == old(groups) - {s} && pending == old(pending) - {s}
    {
      var g := groups[s];
      groups := groups - {s};
      pending := pending - {s};
      Release(g);
    }

    method NewGroup(s: nat) returns (g: FecGroup)
      requires Valid() && s !in groups && Aligned(s, k) && s < U32
      modifies this, cells
      ensures Valid() && fresh(cells - old(cells)) && old(cells) <= cells
      ensures State() == old(State()).NewGroup(s)
      ensures s in groups && g == groups[s]
    {
      hide Decoder.MakeRoom, Decoder.Valid, Aligned, Consistent;
      WithGroupValid(State(), s);
      MakeRoom();
      g := Allocate();
      Install(s, g);
    }

    /** An unused object becomes the empty group s. */
    method Install(s: nat, g: FecGroup)
      requires Consistent() && s !in groups
      requires g in cells && g !in spares && forall t :: t in groups ==> groups[t] != g
      modifies g, this`groups, this`groupOrder, this`pending
      ensures Consistent() && groups == old(groups)[s := g]
      ensures State() == old(State()).(groups := old(pending)[s := EmptyGroup], order := old(State()).order + [s])
    {
      hide Located, Free, FecGroup.Stores;
      Enter(s, g);
      groupOrder := groupOrder + [s];
      assert groupOrder[groupHead..] == old(groupOrder[groupHead..]) + [s];
    }

    method Enter(s: nat, g: FecGroup)
      requires Consistent() && s !in groups
      requires g in cells && g !in spares && forall t :: t in groups ==> groups[t] != g
      modifies g, this`groups, this`pending
      ensures Consistent() && groups == old(groups)[s := g] && pending == old(pending)[s := EmptyGroup]
    {
      hide Located, Free, FecGroup.Stores, EmptyGroup;
      ghost var live := pending.Keys;
      AddOne(groups, live, spares, cells, s, g);
      g.Init(k, s);
      groups := groups[s := g];
      pending := pending[s := EmptyGroup];
      assert pending.Keys == live + {s};
    }

    static lemma AddOne(groups: map<nat, FecGroup>, live: set<nat>, spares: seq<FecGroup>, cells: set<FecGroup>, s: nat, g: FecGroup)
      requires Located(groups, live, cells) && Free(spares, groups, cells) && s !in groups
      requires g in cells && g !in spares && forall t :: t in groups ==> groups[t] != g
      ensures Located(groups[s := g], live + {s}, cells) && Free(spares, groups[s := g], cells)
    {
    }

    method MakeRoom()
      requires Valid()
      modifies this`groups, this`pending, this`spares, this`groupOrder, this`groupHead, cells
      ensures Consistent()
      ensures State() == old(State()).MakeRoom()
      ensures groups.Keys <= old(groups.Keys)
    {
      hide Pruned, Decoder.Valid, Consistent;
      PruneGroupOrder();
      SameSize();
      if |groups| >= MAX_PENDING {
        EvictOldest();
        PruneGroupOrder();
      }
    }

    lemma SameSize()
      requires groups.Keys == pending.Keys
      ensures |groups| == |pending|
    {
      assert |groups| == |groups.Keys| && |pending| == |pending.Keys|;
    }

    /** A recycled object, or a new one. */
    method Allocate() returns (g: FecGroup)
      requires Consistent()
      modifies this`spares, this`cells
      ensures Consistent() && old(cells) <= cells && fresh(cells - old(cells))
      ensures g in cells && g !in spares && forall s :: s in groups ==> groups[s] != g
    {
      var n := |spares|;
      if n > 0 {
        g := spares[n - 1];
        spares := spares[..n - 1];
      } else {
        g := new FecGroup();
        cells := cells + {g};
      }
    }

    method EvictOldest()
      requires Consistent()
      modifies this`groups, this`pending, this`spares, this`groupHead, cells
      ensures Consistent() && groups.Keys <= old(groups.Keys)
      ensures State() == old(State()).Evict()
    {
      assert groups.Keys == pending.Keys && forall s :: s in groups ==> groups[s] in cells;
      hide Located, Free, FecGroup.Stores, Pruned;
      var oldest := TakeOldest();
      if oldest.Some? {
        Discard(oldest.value);
      }
    }

    /** Takes creation records off the queue up to the first live group. */
    method TakeOldest() returns (oldest: Option<nat>)
      requires groupHead <= |groupOrder|
      modifies this`groupHead
      ensures groupHead <= |groupOrder|
      ensures var order := Pruned(old(groupOrder[groupHead..]), groups.Keys);
              if order == [] then oldest == None && groupOrder[groupHead..] == []
              else oldest == Some(order[0]) && order[0] in groups && groupOrder[groupHead..] == order[1..]
    {
      while groupHead < |groupOrder|
        invariant groupHead <= |groupOrder|
        invariant Pruned(groupOrder[groupHead..], groups.Keys) == Pruned(old(groupOrder[groupHead..]), groups.Keys)
        decreases |groupOrder| - groupHead
      {
        var s := groupOrder[groupHead];
        assert groupOrder[groupHead..] == [s] + groupOrder[groupHead + 1..];
        groupHead := groupHead + 1;
        if s in groups {
          return Some(s);
        }
      }
      return None;
    }

    /** How many of the k offsets have no bit in the mask. */
    static method CountMissing(mask: set<nat>, k: nat, ghost m: map<nat, Bytes>) returns (c: nat)
      requires mask == m.Keys
      ensures c == MissingCount(m, k)
    {
      c := 0;
      for i := 0 to k
        invariant c == MissingCount(m, i)
      {
        if i !in mask {
          c := c + 1;
        }
      }
    }

    method MarkDone(s: nat)
      requires doneRing.Length == DONE_RING
      modifies doneRing
      ensures doneRing[..] == old(doneRing[..])[s % DONE_RING := s]
    {
      doneRing[s % DONE_RING] := s;
    }

    /** What a group that ends still lacks, if its parity came. */
    static method CountLost(cell: FecGroup, ghost size: nat, ghost g: Group) returns (n: nat)
      requires size > 0 && cell.gotMask == g.members.Keys && cell.StoresParity(size, g.parity)
      ensures n == if g.parity.Some? then MissingCount(g.members, size) else 0
    {
      n := 0;
      if cell.k > 0 && cell.parity.Some? {
        n := CountMissing(cell.gotMask, cell.k, g.members);
      }
    }

    /** Ends group s, whose object already holds the mask and parity of g. */
    method Finish(s: nat, ghost g: Group)
      requires ConsistentBut(s) && s in groups
      requires groups[s].gotMask == g.members.Keys && groups[s].StoresParity(k, g.parity)
      modifies this`lost, this`groups, this`pending, this`spares, doneRing, groups[s]
      ensures Consistent()
      ensures State() == old(State()).Put(s, g).Finish(s)
      ensures groups == old(groups) - {s}
    {
      hide MissingCount, FecGroup.Stores, FecGroup.StoresParity, Free, Located, Decoder.Finish, Decoder.Put;
      FinishOf(State(), s, g);
      var n := CountLost(groups[s], k, g);
      lost := lost + n;
      MarkDone(s);
      Discard(s);
    }

    static lemma FinishOf(d: Decoder, s: nat, g: Group)
      requires |d.done| == DONE_RING
      ensures s in d.Put(s, g).groups
      ensures d.Put(s, g).Finish(s) == d.(groups := d.groups - {s}, done := d.done[s % DONE_RING := s],
                                          lost := d.lost + if g.parity.Some? then MissingCount(g.members, d.k) else 0)
    {
      hide MissingCount;
      PutRemove(d.groups, s, g);
    }

    static lemma PutRemove(m: map<nat, Group>, s: nat, g: Group)
      ensures m[s := g] - {s} == m - {s}
    {
    }

    /** Looks for absent offsets and stops at the second one. */
    static method Scan(mask: set<nat>, k: nat, ghost m: map<nat, Bytes>) returns (c: nat, missing: int)
      requires mask == m.Keys
      ensures c > 1 <==> MissingCount(m, k) > 1
      ensures c <= 1 ==> c == MissingCount(m, k) && missing == LastMissing(m, k)
    {
      c, missing := 0, -1;
      for i := 0 to k
        invariant c == MissingCount(m, i) <= 1 && missing == LastMissing(m, i)
      {
        if i !in mask {
          c := c + 1;
          if c > 1 {
            MissingMonotone(m, i + 1, k);
            return;
          }
          missing := i;
        }
      }
    }

    static lemma {:induction false} MissingMonotone(m: map<nat, Bytes>, i: nat, k: nat)
      requires i <= k
      ensures MissingCount(m, i) <= MissingCount(m, k)
    {
      if i < k {
        MissingMonotone(m, i, k - 1);
      }
    }

    /** The accumulator and the parity give the absent member's bytes. */
    static lemma RebuildFromAcc(g: Group, k: nat, acc: Bytes, n: nat)
      requires g.parity.Some? && n <= |g.parity.value.body| && n <= |acc| && IsFold(acc, g.members, k)
      ensures XorPrefix(g.parity.value.body[..n], acc[..n]) == Rebuild(g, k, n)
    {
      var r := XorPrefix(g.parity.value.body[..n], acc[..n]);
      forall i | 0 <= i < n
        ensures r[i] == Rebuild(g, k, n)[i]
      {
        assert At(acc, i) == Fold(g.members, k, i);
      }
    }

    /** What the object of group s calls for; the accumulator may be extended to rebuild a long member. */
    method Judge(s: nat) returns (a: Action)
      requires Consistent() && s in groups
      modifies groups[s]
      ensures Consistent() && a == Verdict(pending[s], k)
    {
      var cell := groups[s];
      ghost var g := pending[s];
      if cell.k == 0 || cell.parity.None? {
        return Wait;
      }
      var c, missing := Scan(cell.gotMask, cell.k, g.members);
      if c > 1 {
        return Wait;
      }
      if missing < 0 || missing >= |cell.lens.value| || cell.lens.value[missing] > |cell.parity.value| {
        return Close;
      }
      var n := cell.lens.value[missing];
      if n > |cell.acc| {
        cell.acc := Extend(cell.acc, n);
      }
      RebuildFromAcc(g, k, cell.acc, n);
      return Rebuilt(missing, XorPrefix(cell.parity.value[..n], cell.acc[..n]));
    }

    method TryRecover(s: nat) returns (rec: Option<VpnFrame>)
      requires Consistent() && s in groups
      modifies this`recovered, this`lost, this`groups, this`pending, this`spares, doneRing, groups[s]
      ensures Consistent()
      ensures (State(), rec) == old(State()).TryRecover(s)
    {
      hide Aligned, IsFold, Verdict, Decoder.Finish;
      var a := Judge(s);
      match a {
        case Wait =>
          return None;
        case Close =>
          assert pending[s := pending[s]] == pending;
          Finish(s, pending[s]);
          return None;
        case Rebuilt(j, data) =>
          FinishRecovered(s, j, data);
          return Some(VpnFrame((s + j) % U32, data));
      }
    }

    /** The rebuilt member counts as arrived before the group is closed, so nothing is counted as lost. */
    method FinishRecovered(s: nat, j: nat, data: Bytes)
      requires Consistent() && s in groups
      modifies this`recovered, this`lost, this`groups, this`pending, this`spares, doneRing, groups[s]
      ensures Consistent()
      ensures var d := old(State()); var g := d.groups[s];
              var e := d.Put(s, g.(members := g.members[j := data])).Finish(s);
              State() == e.(recovered := e.recovered + 1)
    {
      hide Located, Free, FecGroup.Stores, FecGroup.StoresParity, IsFold, Decoder.Finish;
      ghost var g := pending[s];
      Mark(s, j);
      Finish(s, g.(members := g.members[j := data]));
      recovered := recovered + 1;
    }

    /** Sets the bit of offset j in the object of group s. */
    method Mark(s: nat, j: nat)
      requires Consistent() && s in groups
      modifies groups[s]
      ensures ConsistentBut(s) && groups[s].start == s && groups[s].gotMask == pending[s].members.Keys + {j}
      ensures IsFold(groups[s].acc, pending[s].members, k) && groups[s].StoresParity(k, pending[s].parity)
    {
      hide IsFold;
      groups[s].gotMask := groups[s].gotMask + {j};
    }

    lemma MaskKnown(s: nat)
      requires Consistent() && s in groups
      ensures groups[s].gotMask == pending[s].members.Keys
    {
      hide IsFold, Located, Free;
    }

    /** The groups outside the range, and those still to be looked at. */
    static ghost function Kept(m: map<nat, Group>, todo: set<nat>, from: nat, until: nat): map<nat, Group> {
      map s | s in m && (s in todo || !(from <= s && s < until)) :: m[s]
    }

    static lemma KeptStep(m: map<nat, Group>, todo: set<nat>, from: nat, until: nat, s: nat)
      requires s in todo && todo <= m.Keys
      ensures from <= s < until ==> Kept(m, todo - {s}, from, until) == Kept(m, todo, from, until) - {s}
      ensures !(from <= s < until) ==> Kept(m, todo - {s}, from, until) == Kept(m, todo, from, until)
      ensures s in Kept(m, todo, from, until)
      ensures from <= s < until ==> Kept(m, todo - {s}, from, until) != m
    {
    }

    method DiscardRange(from: nat, until: nat) returns (changed: bool)
      requires Consistent()
      modifies this`groups, this`pending, this`spares, cells
      ensures Consistent()
      ensures pending == Kept(old(pending), {}, from, until)
      ensures changed <==> pending != old(pending)
    {
      hide Located, Free, FecGroup.Stores, Kept;
      var todo := groups.Keys;
      changed := false;
      KeptAll(pending, from, until);
      while todo != {}
        invariant Consistent()
        invariant todo <= old(pending).Keys
        invariant pending == Kept(old(pending), todo, from, until)
        invariant changed <==> pending != old(pending)
        decreases |todo|
      {
        var s :| s in todo;
        KeptStep(old(pending), todo, from, until, s);
        todo := todo - {s};
        if from <= s && s < until {
          Discard(s);
          changed := true;
        }
      }
    }

    static lemma KeptAll(m: map<nat, Group>, from: nat, until: nat)
      ensures Kept(m, m.Keys, from, until) == m
    {
    }

    /** Forgets the pending groups with from <= start < until, without marking them done. */
    method DropRange(from: nat, until: nat)
      requires Consistent()
      modifies this`groups, this`pending, this`spares, this`groupOrder, this`groupHead, cells
      ensures Consistent()
      ensures State() == old(State()).DropRange(from, until)
    {
      hide Consistent, Decoder.Prune, Kept, Decoder.DropRange;
      DropRangeOf(State(), from, until);
      var changed := DiscardRange(from, until);
      if changed {
        PruneGroupOrder();
      }
    }

    static lemma DropRangeOf(d: Decoder, from: nat, until: nat)
      ensures var keep := Kept(d.groups, {}, from, until);
              d.DropRange(from, until) == if keep == d.groups then d else d.(groups := keep).Prune()
    {
      hide Decoder.Prune;
      assert Kept(d.groups, {}, from, until) == map s | s in d.groups && !(from <= s && s < until) :: d.groups[s];
    }

    method MaybeRetire(expected: nat)
      requires Consistent()
      modifies this`retiredBefore, this`groups, this`pending, this`spares, this`groupOrder, this`groupHead, cells
      ensures Consistent()
      ensures State() == old(State()).Retire(expected)
    {
      hide Aligned, IsFold, Decoder.DropRange;
      var boundary := cleanupBefore;
      if boundary == 0 || retiredBefore >= boundary {
        return;
      }
      if expected == 0 || expected < boundary {
        return;
      }
      retiredBefore := boundary;
      DropRange(0, boundary);
    }

    method HandleMode(c: ModeControl, expected: nat)
      requires Consistent()
      modifies this, fence, cells
      ensures Consistent() && cells == old(cells)
      ensures State() == old(State()).OnMode(c, expected)
    {
      hide Located, Free, FecGroup.Stores, Decoder.DropRange, Decoder.Retire;
      var accepted := fence.Apply(c);
      if !accepted {
        return;
      }
      var (from, until) := UnpackWindow(fence.window);
      if from == 0 {
        return;
      }
      if from > cleanupBefore {
        cleanupBefore := from;
      }
      DropRange(from, if until == 0 then U32 else until);
      MaybeRetire(expected);
    }

    lemma FullIffNoneMissing(m: map<nat, Bytes>)
      requires forall j :: j in m ==> j < k
      ensures m.Keys == Offsets(k) <==> MissingCount(m, k) == 0
    {
      if MissingCount(m, k) == 0 {
        NoneMissing(m, k);
      } else {
        assert LastMissing(m, k) in Offsets(k);
      }
    }

    /** Stores one more payload in the object of group s. */
    method Accumulate(s: nat, j: nat, frame: Bytes)
      requires ConsistentBut(s) && s in groups && j < k && j !in pending[s].members
      requires groups[s].start == s && groups[s].gotMask == pending[s].members.Keys + {j}
      requires IsFold(groups[s].acc, pending[s].members, k) && groups[s].StoresParity(k, pending[s].parity)
      modifies groups[s], this`pending
      ensures Consistent()
      ensures var g := old(pending)[s];
              pending == old(pending)[s := g.(members := g.members[j := frame])]
    {
      hide Aligned, IsFold, FecGroup.Stores, Free;
      ghost var g := pending[s];
      groups[s].Absorb(k, g, j, frame);
      pending := pending[s := g.(members := g.members[j := frame])];
      assert pending.Keys == old(pending).Keys;
    }

    method AddMember(s: nat, j: nat, frame: Bytes) returns (rec: Option<VpnFrame>)
      requires Consistent() && s in groups && j < k && (forall i :: i in pending[s].members ==> i < k)
      modifies this`recovered, this`lost, this`groups, this`pending, this`spares, doneRing, groups[s]
      ensures Consistent()
      ensures (State(), rec) == old(State()).AddMember(s, j, frame)
    {
      hide IsFold, FecGroup.StoresParity, Consistent, ConsistentBut, Decoder.AddMember, Decoder.TryRecover, Decoder.Finish,
           MissingCount, Offsets;
      MaskKnown(s);
      AddCases(State(), s, j, frame);
      ghost var g := pending[s];
      if j in groups[s].gotMask {
        return None;
      }
      Mark(s, j);
      ghost var g' := g.(members := g.members[j := frame]);
      FullIffNoneMissing(g'.members);
      if groups[s].gotMask == Offsets(k) {
        Finish(s, g');
        return None;
      }
      Accumulate(s, j, frame);
      rec := TryRecover(s);
    }

    static lemma AddCases(d: Decoder, s: nat, j: nat, frame: Bytes)
      requires s in d.groups && |d.done| == DONE_RING
      ensures var g := d.groups[s]; var h := g.(members := g.members[j := frame]); var e := d.Put(s, h);
              && s in e.groups
              && d.AddMember(s, j, frame) ==
                 if j in g.members then (d, None)
                 else if MissingCount(h.members, d.k) == 0 then (e.Finish(s), None) else e.TryRecover(s)
    {
      hide MissingCount, Decoder.Finish, Decoder.TryRecover;
    }

    /** The object of group s, new if the group is not pending. */
    method EnsureGroup(s: nat)
      requires Valid() && Aligned(s, k) && s < U32
      modifies this, cells
      ensures Valid() && old(cells) <= cells && fresh(cells - old(cells))
      ensures State() == old(State()).WithGroup(s)
      ensures s in groups && forall i :: i in pending[s].members ==> i < k
      ensures pending[s] == if s in old(groups) then old(pending)[s] else EmptyGroup
    {
      hide Aligned, IsFold, Decoder.NewGroup;
      WithGroupFrame(State(), s);
      WithGroupValid(State(), s);
      if s !in groups {
        var g := NewGroup(s);
      }
      assert State().GroupValid(s, pending[s]);
    }

    method OnActiveData(n: nat, frame: Bytes) returns (rec: Option<VpnFrame>)
      requires Valid() && 0 < n < U32
      modifies this, doneRing, cells
      ensures Consistent() && old(cells) <= cells && fresh(cells - old(cells))
      ensures var s := GroupStart(n, k); var d := old(State());
              (State(), rec) == if d.IsDone(s) then (d, None) else d.WithGroup(s).AddMember(s, n - s, frame)
    {
      hide Aligned, Consistent, Decoder.AddMember, Decoder.WithGroup, Decoder.Valid;
      var start := GroupStart(n, k);
      if doneRing[start % DONE_RING] == start {
        return None;
      }
      EnsureGroup(start);
      rec := AddMember(start, n - start, frame);
    }

    method OnData(n: nat, frame: Bytes, expected: nat) returns (rec: Option<VpnFrame>)
      requires Valid() && n < U32
      modifies this, doneRing, cells
      ensures Valid() && old(cells) <= cells && fresh(cells - old(cells))
      ensures (State(), rec) == old(State()).OnData(n, frame, expected)
    {
      hide Aligned, IsFold, Decoder.AddMember, Decoder.WithGroup, Decoder.Retire, Decoder.IsDone, Decoder.Sound, Decoder.GroupValid;
      OnDataValid(State(), n, frame, expected);
      if |frame| == 0 || n == 0 || staticSingle {
        return None;
      }
      if fence.Bypass(n) {
        if n % 256 == 0 {
          MaybeRetire(expected);
        }
        return None;
      }
      if retiredBefore != 0 && n < retiredBefore {
        return None;
      }
      rec := OnActiveData(n, frame);
    }

    /** Reads the K member lengths and their maximum; gives up when one does not fit the payload. */
    static method ReadLengths(b: Bytes, k: nat, tagLen: nat) returns (r: Option<seq<nat>>, maxLen: nat)
      ensures r == ParseLengths(b, k, tagLen)
      ensures r.Some? ==> maxLen == Max(r.value)
    {
      hide Get, Max;
      maxLen := 0;
      var descLen := 6 + 4 * k;
      if |b| < descLen + tagLen {
        return None, maxLen;
      }
      ghost var all := GetAll(b[6..descLen], k);
      var lens: seq<nat> := [];
      MaxOfNone();
      for i := 0 to k
        invariant lens == all[..i] && maxLen == Max(lens)
        invariant forall x :: 0 <= x < i ==> all[x] + tagLen <= |b| - descLen
      {
        var l := Get(b[6 + 4 * i..10 + 4 * i]);
        LengthAt(b, k, i);
        if l + tagLen > |b| - descLen {
          return None, maxLen;
        }
        MaxAppend(lens, l);
        lens := lens + [l];
        if l > maxLen {
          maxLen := l;
        }
      }
      assert lens == all;
      return Some(lens), maxLen;
    }

    static lemma LengthAt(b: Bytes, k: nat, i: nat)
      requires i < k && 6 + 4 * k <= |b|
      ensures GetAll(b[6..6 + 4 * k], k)[i] == Get(b[6 + 4 * i..10 + 4 * i])
    {
      var c := b[6..6 + 4 * k];
      var x, y := c[4 * i..4 * i + 4], b[6 + 4 * i..10 + 4 * i];
      forall j | 0 <= j < 4 ensures x[j] == y[j] {
        assert x[j] == c[4 * i + j] == b[6 + (4 * i + j)];
      }
      assert x == y;
    }

    static lemma MaxOfNone()
      ensures Max([]) == 0
    {
    }

    /** Stores an opened parity in the object of group s and acts on it. */
    method StoreParity(s: nat, p: Parity) returns (rec: Option<VpnFrame>)
      requires Consistent() && s in groups
      modifies this`recovered, this`lost, this`groups, this`pending, this`spares, doneRing, groups[s]
      ensures Consistent()
      ensures (State(), rec) == old(State()).Put(s, old(pending)[s].(parity := Some(p))).TryRecover(s)
    {
      hide Aligned, FecGroup.Stores, Decoder.TryRecover, Free;
      groups[s].SetParity(k, s, pending[s], p);
      pending := pending[s := pending[s].(parity := Some(p))];
      assert pending.Keys == old(pending).Keys;
      rec := TryRecover(s);
    }

    /** The parity did not open: the group stays pending without one. */
    method RejectParity(s: nat)
      requires Consistent() && s in groups && pending[s].parity.None?
      modifies groups[s]
      ensures Consistent()
    {
      groups[s].k := k;
      groups[s].lens := None;
    }

    /** Opens the XOR body for a group that has no parity yet. */
    method AcceptParity(s: nat, lens: seq<nat>, sealed: Bytes, expected: nat) returns (rec: Option<VpnFrame>)
      requires Valid() && Aligned(s, k) && s < U32 && (s in groups ==> pending[s].parity.None?)
      modifies this, doneRing, cells
      ensures Consistent() && old(cells) <= cells && fresh(cells - old(cells))
      ensures (State(), rec) == old(State()).AcceptParity(s, lens, sealed, expected)
    {
      hide Aligned, Consistent, FecParity.Open, Decoder.TryRecover, Decoder.WithGroup, Decoder.Retire, Decoder.Valid;
      EnsureGroup(s);
      var body := Open(ic, s, sealed);
      if body.None? {
        RejectParity(s);
        return None;
      }
      rec := StoreParity(s, Parity(lens, body.value));
      MaybeRetire(expected);
    }

    /** The objects tell whether a parity has come. */
    lemma ParityKnown(s: nat)
      requires Consistent()
      ensures s in groups <==> s in pending
      ensures s in groups ==> (groups[s].parity.Some? <==> pending[s].parity.Some?)
    {
      hide IsFold, Free;
    }

    method OnParityBody(s: nat, b: Bytes, expected: nat) returns (rec: Option<VpnFrame>)
      requires Valid() && Aligned(s, k) && s < U32
      modifies this, doneRing, cells
      ensures Consistent() && old(cells) <= cells && fresh(cells - old(cells))
      ensures (State(), rec) == old(State()).OnParityBody(s, b, expected)
    {
      hide Aligned, Consistent, Decoder.AcceptParity, Decoder.Valid, ParseLengths;
      ParityKnown(s);
      if retiredBefore != 0 && s < retiredBefore {
        return None;
      }
      var lens, maxLen := ReadLengths(b, k, TagLen(ic));
      if lens.None? || doneRing[s % DONE_RING] == s {
        return None;
      }
      if s in groups && groups[s].parity.Some? {
        return None;
      }
      var descLen := 6 + 4 * k;
      rec := AcceptParity(s, lens.value, b[descLen..descLen + maxLen + TagLen(ic)], expected);
    }

    method OnParity(b: Bytes, expected: nat) returns (rec: Option<VpnFrame>)
      requires Valid()
      modifies this, doneRing, cells
      ensures Valid() && old(cells) <= cells && fresh(cells - old(cells))
      ensures (State(), rec) == old(State()).OnParity(b, expected)
    {
      hide Aligned, IsFold, Decoder.OnParityBody, Decoder.Retire, Decoder.Sound, Decoder.GroupValid;
      OnParityValid(State(), b, expected);
      var header := ParseHeader(b, k);
      if staticSingle || header.None? {
        return None;
      }
      RetireValid(State(), expected);
      MaybeRetire(expected);
      rec := OnParityBody(header.value, b, expected);
    }

    /** A typed control frame: parity or mode.  Anything else is a protocol error. */
    method OnControl(b: Bytes, expected: nat) returns (ok: bool, rec: Option<VpnFrame>)
      requires Valid()
      modifies this, doneRing, fence, cells
      ensures Valid() && old(cells) <= cells && fresh(cells - old(cells))
      ensures match ParseControl(b)
              case Bad => !ok && rec == None && State() == old(State())
              case ParityFrame => ok && (State(), rec) == old(State()).OnParity(b, expected)
              case ModeFrame(c) => ok && rec == None && State() == old(State()).OnMode(c, expected)
    {
      hide Aligned, IsFold, Decoder.OnParity, Decoder.OnMode, Decoder.Sound, Decoder.GroupValid;
      match ParseControl(b) {
        case Bad =>
          return false, None;
        case ParityFrame =>
          rec := OnParity(b, expected);
          return true, rec;
        case ModeFrame(c) =>
          OnModeValid(State(), c, expected);
          HandleMode(c, expected);
          return true, None;
      }
    }

    /** An epoch change forgets everything but the counters. */
    method Reset()
      requires Valid()
      modifies this, doneRing, fence, cells
      ensures Valid() && cells == old(cells)
      ensures State() == old(State()).Reset()
    {
      hide Located, Free, FecGroup.Stores, Decoder.Valid;
      ResetValid(State());
      ForgetGroups();
      ClearDone();
      cleanupBefore, retiredBefore := 0, 0;
      fence.Reset();
    }

    method ForgetGroups()
      requires Consistent()
      modifies this`groups, this`pending, this`spares, this`groupOrder, this`groupHead, cells
      ensures Consistent() && State() == old(State()).(groups := map[], order := [])
    {
      hide Located, Free, FecGroup.Stores;
      DiscardAll();
      groupOrder, groupHead := [], 0;
    }

    method ClearDone()
      requires doneRing.Length == DONE_RING
      modifies doneRing
      ensures doneRing[..] == seq(DONE_RING, _ => 0)
    {
      var i := 0;
      while i < doneRing.Length
        invariant 0 <= i <= doneRing.Length
        invariant forall x :: 0 <= x < i ==> doneRing[x] == 0
      {
        doneRing[i] := 0;
        i := i + 1;
      }
    }

    method DiscardAll()
      requires Consistent()
      modifies this`groups, this`pending, this`spares, cells
      ensures Consistent() && pending == map[]
    {
      hide Located, Free, FecGroup.Stores;
      while groups != map[]
        invariant Consistent()
        decreases |groups|
      {
        var s :| s in groups;
        Discard(s);
      }
    }
  }
}
