/**
 The XOR FEC encoder.

 Encoder is the simple form: it keeps the payloads of the open group and builds
 the parity frame from them when the group is full.  FecEncoder is the form that
 runs: one accumulator, reused between groups and cleared only as far as it was
 touched.  Its methods are proved to compute exactly the simple form.
 */
module FecEncoder {
  import opened Xor
  import opened Wire
  import opened FecControl
  import opened FecParity

  /** A data frame: sequence number and payload. */
  datatype VpnFrame = VpnFrame(n: nat, data: Bytes)

  function Payloads(fs: seq<VpnFrame>): (r: seq<Bytes>)
    ensures |r| == |fs|
    ensures forall i :: 0 <= i < |fs| ==> r[i] == fs[i].data
  {
    seq(|fs|, i requires 0 <= i < |fs| => fs[i].data)
  }

  datatype Encoder = Encoder(
    k: nat, ic: Cipher,
    open: seq<VpnFrame>,
    multipath: bool, armed: bool, lastSeq: nat,
    generation: nat, control: Option<ModeControl>)
  {
    predicate Valid() {
      && GroupSize(k)
      && |open| < k
      && (forall i :: 0 <= i < |open| ==> 0 < |open[i].data|)
      && lastSeq < U32
      && (forall i :: 0 <= i < |open| ==> open[i].n < U32)
      && generation < U64
    }

    /** Publishes a new control generation, unless there is no boundary to announce. */
    function Publish(op: Op, boundary: nat): Encoder {
      if boundary == 0 then this
      else
        var g := if generation + 1 >= U64 then 1 else generation + 1;
        this.(generation := g, control := Some(ModeControl(g, op, boundary)))
    }

    /** The number of registered physical paths changed. */
    function SetPaths(paths: int): Encoder
      requires GroupSize(k) && lastSeq < U32
    {
      if (paths >= 2) == multipath then this
      else
        var first := if lastSeq == U32 - 1 then 0 else lastSeq + 1;
        if paths < 2 then
          var hadTraffic := lastSeq != 0 || |open| != 0;
          var boundary := if |open| != 0 then open[0].n else GroupStart(first, k);
          var e := this.(multipath := false, open := [], armed := false);
          if hadTraffic then e.Publish(Suspend, boundary) else e
        else
          var e := this.(multipath := true, armed := false);
          if generation == 0 then e else e.Publish(Resume, NextGroupStart(first, k))
    }

    /** One data frame; a parity frame comes out when it completes a group. */
    function Add(f: VpnFrame): (Encoder, Option<Bytes>)
      requires GroupSize(k)
    {
      if |f.data| == 0 then (this, None)
      else
        var e := if f.n != 0 then this.(lastSeq := f.n) else this;
        if !multipath then (e, None)
        else if !armed && (f.n == 0 || (f.n - 1) % k != 0) then (e, None)
        else e.(armed := true).Join(f)
    }

    /** The frame joins the open group. */
    function Join(f: VpnFrame): (Encoder, Option<Bytes>) {
      var members := open + [f];
      if |members| < k then (this.(open := members), None)
      else (this.(open := []), Some(ParityOf(ic, members[0].n, Payloads(members))))
    }
  }

  function NewEncoder(k: int, ic: Cipher): Encoder {
    Encoder(ClampGroup(k), ic, [], true, true, 0, 0, None)
  }

  class FecEncoder {
    const k: nat
    const ic: Cipher
    var seqs: seq<nat>
    var lens: seq<nat>
    var acc: Bytes
    var activeLen: nat
    var multipath: bool
    var armed: bool
    var lastSeq: nat
    var controlGeneration: nat
    var control: Option<ModeControl>
    var paritySent: nat
    /** The frames of the open group, for specification only. */
    ghost var open: seq<VpnFrame>

    ghost function State(): Encoder
      reads this
    {
      Encoder(k, ic, open, multipath, armed, lastSeq, controlGeneration, control)
    }

    ghost predicate Valid()
      reads this
    {
      State().Valid() && Accumulated()
    }

    /** seqs, lens, activeLen and acc describe the open group. */
    ghost predicate Accumulated()
      reads this
    {
      Tracks(open, seqs, lens, activeLen, acc)
    }

    static ghost predicate Tracks(fs: seq<VpnFrame>, seqs: seq<nat>, lens: seq<nat>, activeLen: nat, acc: Bytes) {
      && |seqs| == |lens| == |fs|
      && (forall i :: 0 <= i < |fs| ==> seqs[i] == fs[i].n)
      && lens == Lengths(Payloads(fs))
      && activeLen == Max(lens) <= |acc|
      && IsFold(acc, Members(Payloads(fs)), |fs|)
    }

    constructor (groupSize: int, cipher: Cipher)
      ensures Valid() && State() == NewEncoder(groupSize, cipher) && paritySent == 0
    {
      k := ClampGroup(groupSize);
      ic := cipher;
      seqs, lens, acc, activeLen := [], [], [], 0;
      multipath, armed, lastSeq := true, true, 0;
      controlGeneration, control, paritySent := 0, None, 0;
      open := [];
      new;
      forall i: nat ensures At(acc, i) == Fold(Members(Payloads(open)), 0, i) {}
    }

    method PublishModeControl(op: Op, boundary: nat)
      requires Valid()
      modifies this`controlGeneration, this`control
      ensures Valid() && State() == old(State()).Publish(op, boundary)
    {
      hide Tracks;
      if boundary == 0 {
        return;
      }
      controlGeneration := controlGeneration + 1;
      if controlGeneration >= U64 {
        controlGeneration := 1;
      }
      control := Some(ModeControl(controlGeneration, op, boundary));
    }

    method SetPhysicalPathCount(paths: int)
      requires Valid()
      modifies this
      ensures Valid() && State() == old(State()).SetPaths(paths)
      ensures paritySent == old(paritySent)
    {
      hide Tracks, Encoder.Publish, GroupStart, NextGroupStart;
      var multi := paths >= 2;
      if multi == multipath {
        return;
      }
      var firstSeq := 0;
      if lastSeq != U32 - 1 {
        firstSeq := lastSeq + 1;
      }
      if !multi {
        GoSingle(firstSeq);
        return;
      }
      multipath := true;
      armed := false;
      if controlGeneration == 0 {
        return;
      }
      PublishModeControl(Resume, NextGroupStart(firstSeq, k));
    }

    /** Down to one path: the open group is given up, and its start or the next one announced. */
    method GoSingle(firstSeq: nat)
      requires Valid()
      modifies this
      ensures Valid() && paritySent == old(paritySent)
      ensures var e := old(State()).(multipath := false, open := [], armed := false);
              State() == if old(lastSeq != 0 || |open| != 0)
                         then e.Publish(Suspend, if old(|open|) != 0 then old(open)[0].n else GroupStart(firstSeq, k)) else e
    {
      assert |seqs| == |open| && (|open| > 0 ==> seqs[0] == open[0].n);
      hide Valid, Encoder.Publish, GroupStart;
      var hadTraffic := lastSeq != 0 || |seqs| != 0;
      var boundary := GroupStart(firstSeq, k);
      if |seqs| != 0 {
        boundary := seqs[0];
      }
      CloseGroup();
      if hadTraffic {
        PublishModeControl(Suspend, boundary);
      }
    }

    method CloseGroup()
      requires Valid()
      modifies this`seqs, this`lens, this`acc, this`activeLen, this`open, this`multipath, this`armed
      ensures Valid() && State() == old(State()).(multipath := false, open := [], armed := false)
    {
      assert |seqs| == |open| && (|open| == 0 ==> activeLen == 0);
      hide Tracks;
      multipath := false;
      if |seqs| != 0 || activeLen != 0 {
        Reset();
      }
      armed := false;
    }

    method Add(f: VpnFrame) returns (parity: Option<Bytes>)
      requires Valid() && f.n < U32
      modifies this
      ensures Valid()
      ensures (State(), parity) == old(State()).Add(f)
      ensures paritySent == old(paritySent) + if parity.Some? then 1 else 0
    {
      hide Tracks, Encoder.Join;
      if |f.data| == 0 {
        return None;
      }
      if f.n != 0 {
        lastSeq := f.n;
      }
      if !multipath {
        return None;
      }
      if !armed {
        if f.n == 0 || (f.n - 1) % k != 0 {
          return None;
        }
        armed := true;
      }
      parity := Join(f);
    }

    method Join(f: VpnFrame) returns (parity: Option<Bytes>)
      requires Valid() && 0 < |f.data| && f.n < U32
      modifies this`seqs, this`lens, this`acc, this`activeLen, this`open, this`paritySent
      ensures Valid()
      ensures (State(), parity) == old(State()).Join(f)
      ensures paritySent == old(paritySent) + if parity.Some? then 1 else 0
    {
      hide Payloads, Lengths, Max, IsFold, Members, ParityOf;
      Accumulate(f);
      if |seqs| < k {
        return None;
      }
      var p := Flush();
      return Some(p);
    }

    /** Emits the parity of the full group and opens a new one. */
    method Flush() returns (parity: Bytes)
      requires Accumulated() && |open| > 0
      modifies this`seqs, this`lens, this`acc, this`activeLen, this`open, this`paritySent
      ensures Accumulated() && open == [] && paritySent == old(paritySent) + 1
      ensures parity == old(ParityOf(ic, open[0].n, Payloads(open)))
    {
      parity := BuildParity();
      paritySent := paritySent + 1;
      Reset();
    }

    /** XORs one payload into the open group. */
    method Accumulate(f: VpnFrame)
      requires Accumulated()
      modifies this`seqs, this`lens, this`acc, this`activeLen, this`open
      ensures Accumulated() && open == old(open) + [f]
    {
      hide IsFold, Members, Fold, Extend, XorPrefix, Max;
      seqs := seqs + [f.n];
      lens := lens + [|f.data|];
      acc := Extend(acc, |f.data|);
      if |f.data| > activeLen {
        activeLen := |f.data|;
      }
      acc := XorPrefix(acc, f.data);
      GrowOpen(old(acc), open, f);
      open := open + [f];
      MaxAppend(old(lens), |f.data|);
      assert lens == Lengths(Payloads(open));
    }

    /** Clears only the part of the accumulator the group touched. */
    method Reset()
      requires Accumulated()
      modifies this`seqs, this`lens, this`acc, this`activeLen, this`open
      ensures Accumulated() && open == []
    {
      ZeroPastMembers(acc, Payloads(open));
      seqs, lens := [], [];
      acc := seq(activeLen, _ => 0) + acc[activeLen..];
      activeLen := 0;
      open := [];
    }

    function BuildParity(): (r: Bytes)
      reads this
      requires Accumulated() && |open| > 0
      ensures r == ParityOf(ic, open[0].n, Payloads(open))
    {
      BodyUnique(acc, Payloads(open));
      EncodeParity(ic, seqs[0], lens, acc[..activeLen])
    }

    static lemma ZeroPastMembers(acc: Bytes, datas: seq<Bytes>)
      requires IsFold(acc, Members(datas), |datas|)
      ensures forall i :: Max(Lengths(datas)) <= i < |acc| ==> acc[i] == 0
    {
      BodyIsFold(datas);
      forall i | Max(Lengths(datas)) <= i < |acc|
        ensures acc[i] == 0
      {
        assert At(acc, i) == Fold(Members(datas), |datas|, i) == At(Body(datas), i);
      }
    }

    static lemma GrowOpen(acc: Bytes, fs: seq<VpnFrame>, f: VpnFrame)
      requires IsFold(acc, Members(Payloads(fs)), |fs|)
      ensures IsFold(XorPrefix(Extend(acc, |f.data|), f.data), Members(Payloads(fs + [f])), |fs| + 1)
    {
      var m := Members(Payloads(fs));
      forall i: nat ensures At(acc, i) == Fold(m, |fs| + 1, i) {
        assert Fold(m, |fs| + 1, i) == Fold(m, |fs|, i);
      }
      FoldStep(acc, m, |fs| + 1, |fs|, f.data);
      assert m[|fs| := f.data] == Members(Payloads(fs + [f]));
    }
  }
}
