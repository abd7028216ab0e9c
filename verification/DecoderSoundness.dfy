/**
 Whatever the decoder reconstructs is what the sender numbered.

 The inputs are arbitrary in order, number and repetition; each is only required
 to be something the sender emitted.  The invariant does not depend on finished
 groups being remembered: a group that was evicted, finished and forgotten, or
 dropped, and then recreated, is sound again from its first member.

 Some numbers may never have been sent.  A parity of a group that lacks two of them
 may hold anything: nothing is ever rebuilt with it.
 */
module DecoderSoundness {
  import opened Xor
  import opened Wire
  import opened FecControl
  import opened FecParity
  import opened FecEncoder
  import opened GroupDecoder

  /** Payload number n is sent[n - 1]. */
  predicate GenuineFrame(sent: seq<Bytes>, f: VpnFrame) {
    1 <= f.n <= |sent| && f.data == sent[f.n - 1]
  }

  predicate Sendable(sent: seq<Bytes>) {
    |sent| < U32 && forall i :: 0 <= i < |sent| ==> 0 < |sent[i]| < U32
  }

  predicate InRange(sent: seq<Bytes>, k: nat, s: nat) {
    1 <= s && s - 1 + k <= |sent|
  }

  /** The payloads of the group starting at s. */
  function Block(sent: seq<Bytes>, k: nat, s: nat): (r: seq<Bytes>)
    requires InRange(sent, k, s)
    ensures |r| == k
  {
    sent[s - 1..s - 1 + k]
  }

  /** Everything pending in the group is genuine and was sent; so is its parity, unless two members were never sent. */
  ghost predicate GenuineGroup(sent: seq<Bytes>, lost: set<nat>, k: nat, s: nat, g: Group) {
    && (forall j :: j in g.members ==> GenuineFrame(sent, VpnFrame(s + j, g.members[j])) && s + j !in lost)
    && (g.parity.Some? ==> TwoLost(lost, s, k) || GenuineParity(sent, k, s, g.parity.value))
  }

  ghost predicate GenuineParity(sent: seq<Bytes>, k: nat, s: nat, p: Parity) {
    && InRange(sent, k, s)
    && p.lens == Lengths(Block(sent, k, s))
    && IsFold(p.body, Members(Block(sent, k, s)), k)
  }

  ghost predicate GenuineGroups(sent: seq<Bytes>, lost: set<nat>, d: Decoder) {
    forall s :: s in d.groups ==> GenuineGroup(sent, lost, d.k, s, d.groups[s])
  }

  /**
   The input is something the sender emitted, or a parity frame the header check rejects, or any
   parity of a group that lacks two members for ever.
   */
  ghost predicate GenuineInput(sent: seq<Bytes>, lost: set<nat>, k: nat, ic: Cipher, x: Input)
    requires GroupSize(k)
  {
    match x
    case DataIn(n, data) => GenuineFrame(sent, VpnFrame(n, data)) && n !in lost
    case ParityIn(b) =>
      var h := ParseHeader(b, k);
      h.Some? ==>
        || TwoLost(lost, h.value, k)
        || (InRange(sent, k, h.value) && b == ParityOf(ic, h.value, Block(sent, k, h.value)))
    case ModeIn(c) => true
  }

  ghost predicate GenuineOutput(sent: seq<Bytes>, lost: set<nat>, r: (Decoder, Option<VpnFrame>)) {
    GenuineGroups(sent, lost, r.0) && (r.1.Some? ==> GenuineFrame(sent, r.1.value))
  }

  // ---- recovery yields the missing payload ----

  lemma RebuildGenuine(sent: seq<Bytes>, lost: set<nat>, k: nat, s: nat, g: Group, j: nat)
    requires s >= 1 && GenuineGroup(sent, lost, k, s, g) && g.parity.Some? && GenuineParity(sent, k, s, g.parity.value)
    requires j < k && j !in g.members
    requires forall i :: i in g.members <==> 0 <= i < k && i != j
    ensures Rebuild(g, k, g.parity.value.lens[j]) == sent[s + j - 1]
  {
    var block := Block(sent, k, s);
    var full := Members(block);
    assert block[j] == sent[s + j - 1];
    assert g.members == full - {j};
    var r := Rebuild(g, k, g.parity.value.lens[j]);
    forall i | 0 <= i < |r|
      ensures r[i] == block[j][i]
    {
      FoldRecovers(full, k, j, i);
      assert At(g.parity.value.body, i) == Fold(full, k, i);
    }
  }

  /** A group that lacks two members for ever never comes down to one absent member. */
  lemma TwoStayAbsent(lost: set<nat>, s: nat, m: map<nat, Bytes>, k: nat)
    requires TwoLost(lost, s, k) && forall j :: j in m ==> s + j !in lost
    ensures MissingCount(m, k) != 1
  {
    hide MissingCount;
    var a, b :| s <= a < b < s + k && a in lost && b in lost;
    assert a - s !in m && b - s !in m;
    if MissingCount(m, k) == 1 {
      OneMissing(m, k);
    }
  }

  lemma VerdictGenuine(sent: seq<Bytes>, lost: set<nat>, k: nat, s: nat, g: Group)
    requires s >= 1 && GenuineGroup(sent, lost, k, s, g) && (forall j :: j in g.members ==> j < k)
    ensures var v := Verdict(g, k); v.Rebuilt? ==> GenuineFrame(sent, VpnFrame(s + v.j, v.data))
  {
    hide MissingCount, LastMissing, Rebuild;
    if g.parity.Some? && MissingCount(g.members, k) == 1 {
      OneMissing(g.members, k);
      if TwoLost(lost, s, k) {
        TwoStayAbsent(lost, s, g.members, k);
      }
      RebuildGenuine(sent, lost, k, s, g, LastMissing(g.members, k));
    }
  }

  lemma TryRecoverGenuine(sent: seq<Bytes>, lost: set<nat>, d: Decoder, s: nat)
    requires Sendable(sent) && GenuineGroups(sent, lost, d) && |d.done| == DONE_RING
    requires s in d.groups && s >= 1 && (forall j :: j in d.groups[s].members ==> j < d.k)
    ensures GenuineOutput(sent, lost, d.TryRecover(s))
  {
    hide Verdict, MissingCount;
    VerdictGenuine(sent, lost, d.k, s, d.groups[s]);
    ShrinksGenuine(sent, lost, d, d.TryRecover(s).0);
    hide GenuineGroup, Decoder.Shrinks, Decoder.Finish;
  }

  lemma ShrinksGenuine(sent: seq<Bytes>, lost: set<nat>, d: Decoder, e: Decoder)
    requires GenuineGroups(sent, lost, d) && d.Shrinks(e)
    ensures GenuineGroups(sent, lost, e)
  {
  }

  // ---- every step ----

  lemma AddMemberGenuine(sent: seq<Bytes>, lost: set<nat>, d: Decoder, s: nat, j: nat, data: Bytes)
    requires Sendable(sent) && d.Valid() && GenuineGroups(sent, lost, d) && s in d.groups && j < d.k
    requires GenuineFrame(sent, VpnFrame(s + j, data)) && s + j !in lost
    ensures GenuineOutput(sent, lost, d.AddMember(s, j, data))
  {
    var g := d.groups[s];
    if j !in g.members {
      var g' := g.(members := g.members[j := data]);
      PutValid(d, s, g');
      PutGenuine(sent, lost, d, s, g');
      if MissingCount(g'.members, d.k) != 0 {
        TryRecoverGenuine(sent, lost, d.Put(s, g'), s);
        assert d.AddMember(s, j, data) == d.Put(s, g').TryRecover(s);
      } else {
        assert d.AddMember(s, j, data) == (d.Put(s, g').Finish(s), None);
      }
    }
  }

  lemma PutGenuine(sent: seq<Bytes>, lost: set<nat>, d: Decoder, s: nat, g: Group)
    requires GenuineGroups(sent, lost, d) && GenuineGroup(sent, lost, d.k, s, g)
    ensures GenuineGroups(sent, lost, d.Put(s, g))
  {
  }

  lemma WithGroupGenuine(sent: seq<Bytes>, lost: set<nat>, d: Decoder, s: nat)
    requires d.Valid() && GenuineGroups(sent, lost, d)
    ensures GenuineGroups(sent, lost, d.WithGroup(s))
  {
    WithGroupFrame(d, s);
  }

  lemma RetireGenuine(sent: seq<Bytes>, lost: set<nat>, d: Decoder, expected: nat)
    requires GenuineGroups(sent, lost, d)
    ensures GenuineGroups(sent, lost, d.Retire(expected))
  {
  }

  lemma OnDataGenuine(sent: seq<Bytes>, lost: set<nat>, d: Decoder, n: nat, data: Bytes, expected: nat)
    requires Sendable(sent) && d.Valid() && GenuineGroups(sent, lost, d) && GenuineFrame(sent, VpnFrame(n, data)) && n !in lost
    ensures GenuineOutput(sent, lost, d.OnData(n, data, expected))
  {
    hide Decoder.AddMember, Decoder.WithGroup, Decoder.Retire, Decoder.GroupValid, GenuineGroup;
    if data == [] || d.staticSingle {
    } else if d.fence.Bypass(n) {
      RetireGenuine(sent, lost, d, expected);
    } else {
      var s := GroupStart(n, d.k);
      WithGroupFrame(d, s);
      WithGroupValid(d, s);
      WithGroupGenuine(sent, lost, d, s);
      AddMemberGenuine(sent, lost, d.WithGroup(s), s, n - s, data);
    }
  }

  /** Storing the genuine parity of a pending group and acting on it. */
  lemma StoreParityGenuine(sent: seq<Bytes>, lost: set<nat>, e: Decoder, s: nat)
    requires Sendable(sent) && e.Valid() && GenuineGroups(sent, lost, e) && s in e.groups && InRange(sent, e.k, s)
    ensures var block := Block(sent, e.k, s);
            GenuineOutput(sent, lost,
              e.Put(s, e.groups[s].(parity := Some(Parity(Lengths(block), Body(block))))).TryRecover(s))
  {
    var block := Block(sent, e.k, s);
    BodyIsFold(block);
    var g := e.groups[s].(parity := Some(Parity(Lengths(block), Body(block))));
    PutGenuine(sent, lost, e, s, g);
    TryRecoverGenuine(sent, lost, e.Put(s, g), s);
  }

  lemma OnParityBodyGenuine(sent: seq<Bytes>, lost: set<nat>, d: Decoder, s: nat, expected: nat)
    requires Sendable(sent) && d.Valid() && GenuineGroups(sent, lost, d)
    requires InRange(sent, d.k, s) && Aligned(s, d.k)
    ensures GenuineOutput(sent, lost, d.OnParityBody(s, ParityOf(d.ic, s, Block(sent, d.k, s)), expected))
  {
    var block := Block(sent, d.k, s);
    var b := ParityOf(d.ic, s, block);
    BlockFits(sent, d, s);
    hide GenuineGroups, Decoder.AcceptParity, ParseLengths, SealedBody, Open, ParityOf, Lengths, Body, ParseHeader, Aligned,
         Decoder.Valid, Sendable, Block, GenuineFrame;
    ParityRoundTrip(d.ic, s, block);
    AcceptGenuine(sent, lost, d, s, SealedBody(b, d.k, Lengths(block), TagLen(d.ic)), expected);
  }

  lemma BlockFits(sent: seq<Bytes>, d: Decoder, s: nat)
    requires Sendable(sent) && d.Valid() && InRange(sent, d.k, s)
    ensures GroupSize(d.k) && |d.done| == DONE_RING && s < U32
    ensures var block := Block(sent, d.k, s); forall i :: 0 <= i < |block| ==> 0 < |block[i]| < U32
  {
    hide Decoder.GroupValid;
  }

  lemma AcceptGenuine(sent: seq<Bytes>, lost: set<nat>, d: Decoder, s: nat, sealed: Bytes, expected: nat)
    requires Sendable(sent) && d.Valid() && GenuineGroups(sent, lost, d) && InRange(sent, d.k, s) && Aligned(s, d.k)
    requires Open(d.ic, s, sealed) == Some(Body(Block(sent, d.k, s))) && |d.done| == DONE_RING
    ensures GenuineOutput(sent, lost, d.AcceptParity(s, Lengths(Block(sent, d.k, s)), sealed, expected))
  {
    BlockFits(sent, d, s);
    hide Decoder.TryRecover, Decoder.WithGroup, Decoder.Retire, Decoder.Valid, GenuineGroups, Open, Lengths, Body, Aligned,
         GenuineFrame, Sendable, Block;
    WithGroupFrame(d, s);
    WithGroupValid(d, s);
    WithGroupGenuine(sent, lost, d, s);
    var e := d.WithGroup(s);
    StoreParityGenuine(sent, lost, e, s);
    var block := Block(sent, d.k, s);
    var g := e.groups[s].(parity := Some(Parity(Lengths(block), Body(block))));
    RetireGenuine(sent, lost, e.Put(s, g).TryRecover(s).0, expected);
  }

  /** Whatever a parity of such a group holds, it is stored at most. */
  lemma OnParityBodyLost(sent: seq<Bytes>, lost: set<nat>, d: Decoder, s: nat, b: Bytes, expected: nat)
    requires Sendable(sent) && d.Valid() && GenuineGroups(sent, lost, d) && TwoLost(lost, s, d.k) && Aligned(s, d.k) && s < U32
    ensures GenuineOutput(sent, lost, d.OnParityBody(s, b, expected))
  {
    hide GenuineGroups, Decoder.AcceptParity, ParseLengths, SealedBody, Aligned, TwoLost, Decoder.GroupValid;
    var lens := ParseLengths(b, d.k, TagLen(d.ic));
    if lens.Some? {
      AcceptLost(sent, lost, d, s, lens.value, SealedBody(b, d.k, lens.value, TagLen(d.ic)), expected);
    }
  }

  lemma AcceptLost(sent: seq<Bytes>, lost: set<nat>, d: Decoder, s: nat, lens: seq<nat>, sealed: Bytes, expected: nat)
    requires Sendable(sent) && d.Valid() && GenuineGroups(sent, lost, d) && TwoLost(lost, s, d.k) && Aligned(s, d.k) && s < U32
    ensures |d.done| == DONE_RING && GenuineOutput(sent, lost, d.AcceptParity(s, lens, sealed, expected))
  {
    assert GroupSize(d.k) && |d.done| == DONE_RING;
    hide Decoder.TryRecover, Decoder.WithGroup, Decoder.Retire, Decoder.Valid, GenuineGroups, Open, Aligned, GenuineFrame, TwoLost;
    WithGroupFrame(d, s);
    WithGroupValid(d, s);
    WithGroupGenuine(sent, lost, d, s);
    var e := d.WithGroup(s);
    var body := Open(d.ic, s, sealed);
    if body.Some? {
      var p := Parity(lens, body.value);
      StoreLost(sent, lost, e, s, p);
      RetireGenuine(sent, lost, e.Put(s, e.groups[s].(parity := Some(p))).TryRecover(s).0, expected);
    }
  }

  lemma StoreLost(sent: seq<Bytes>, lost: set<nat>, e: Decoder, s: nat, p: Parity)
    requires Sendable(sent) && e.Valid() && GenuineGroups(sent, lost, e) && s in e.groups && TwoLost(lost, s, e.k)
    ensures |e.done| == DONE_RING && GenuineOutput(sent, lost, e.Put(s, e.groups[s].(parity := Some(p))).TryRecover(s))
  {
    hide TwoLost;
    var g := e.groups[s].(parity := Some(p));
    PutGenuine(sent, lost, e, s, g);
    AlignedPositive(s, e.k);
    TryRecoverGenuine(sent, lost, e.Put(s, g), s);
  }

  lemma OnParityGenuine(sent: seq<Bytes>, lost: set<nat>, d: Decoder, b: Bytes, expected: nat)
    requires Sendable(sent) && d.Valid() && GenuineGroups(sent, lost, d)
    requires GenuineInput(sent, lost, d.k, d.ic, ParityIn(b))
    ensures GenuineOutput(sent, lost, d.OnParity(b, expected))
  {
    var h := ParseHeader(b, d.k);
    if h.Some? {
      RetireValid(d, expected);
      RetireGenuine(sent, lost, d, expected);
      if TwoLost(lost, h.value, d.k) {
        OnParityBodyLost(sent, lost, d.Retire(expected), h.value, b, expected);
      } else {
        OnParityBodyGenuine(sent, lost, d.Retire(expected), h.value, expected);
      }
    }
  }

  /** One step of the decoder keeps genuineness and reconstructs only genuine frames. */
  lemma StepGenuine(sent: seq<Bytes>, lost: set<nat>, d: Decoder, x: Input, expected: nat)
    requires Sendable(sent) && d.Valid() && GenuineGroups(sent, lost, d) && GenuineInput(sent, lost, d.k, d.ic, x)
    ensures GenuineOutput(sent, lost, Step(d, x, expected))
  {
    match x
    case DataIn(n, data) => OnDataGenuine(sent, lost, d, n, data, expected);
    case ParityIn(b) => OnParityGenuine(sent, lost, d, b, expected);
    case ModeIn(c) =>
  }

  // ---- every run ----

  ghost predicate Reaches(d: Decoder, xs: seq<(Input, nat)>, e: Decoder, out: seq<VpnFrame>)
    decreases |xs|
  {
    if xs == [] then e == d && out == []
    else
      && d.Valid()
      && var r := Step(d, xs[0].0, xs[0].1);
         if r.1.Some? then out != [] && out[0] == r.1.value && Reaches(r.0, xs[1..], e, out[1..])
         else Reaches(r.0, xs[1..], e, out)
  }

  lemma {:induction false} DecoderSound(sent: seq<Bytes>, lost: set<nat>, d: Decoder, xs: seq<(Input, nat)>, e: Decoder, out: seq<VpnFrame>)
    requires Sendable(sent) && d.Valid() && GenuineGroups(sent, lost, d)
    requires forall i :: 0 <= i < |xs| ==> GenuineInput(sent, lost, d.k, d.ic, xs[i].0)
    requires Reaches(d, xs, e, out)
    ensures e.Valid() && GenuineGroups(sent, lost, e)
    ensures forall i :: 0 <= i < |out| ==> GenuineFrame(sent, out[i])
    decreases |xs|
  {
    if xs != [] {
      var r := Step(d, xs[0].0, xs[0].1);
      StepValid(d, xs[0].0, xs[0].1);
      StepGenuine(sent, lost, d, xs[0].0, xs[0].1);
      DecoderSound(sent, lost, r.0, xs[1..], e, if r.1.Some? then out[1..] else out);
    }
  }
}
