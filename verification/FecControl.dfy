/**
 FEC mode controls: group-boundary arithmetic, the FEC_MODE wire format and the
 receiver's bypass window.
 */
module FecControl {
  import opened Xor
  import opened Wire
  import opened Division

  const MIN_GROUP := 2
  const MAX_GROUP := 64
  const KIND_PARITY := 0x01
  const KIND_MODE := 0x02
  const CONTROL_LEN := 16

  predicate GroupSize(k: nat) {
    MIN_GROUP <= k <= MAX_GROUP
  }

  /** Forces a configured group size into the range the protocol allows. */
  function ClampGroup(k: int): (r: nat)
    ensures GroupSize(r)
    ensures MIN_GROUP <= k <= MAX_GROUP ==> r == k
    ensures forall j: nat :: GroupSize(j) ==> (if r > k then r - k else k - r) <= (if j > k then j - k else k - j)
  {
    if k < MIN_GROUP then MIN_GROUP else if k > MAX_GROUP then MAX_GROUP else k
  }

  // ---- group boundaries ----

  /** Group starts are the sequence numbers congruent to 1 modulo K. */
  predicate Aligned(s: nat, k: nat)
    requires k > 0
  {
    s >= 1 && (s - 1) % k == 0
  }

  /** The start of the group a data sequence number belongs to. */
  function GroupStart(n: nat, k: nat): (r: nat)
    requires GroupSize(k)
    ensures n == 0 ==> r == 0
    ensures n > 0 ==> Aligned(r, k) && r <= n < r + k
  {
    if n == 0 then 0
    else
      var off := (n - 1) % k;
      StartIsAligned(n, k);
      n - off
  }

  lemma StartIsAligned(n: nat, k: nat)
    requires n > 0 && k > 0
    ensures (n - 1) % k <= n - 1
    ensures (n - (n - 1) % k - 1) % k == 0
  {
    DivMod(n - 1, k);
    MultipleHasNoRemainder((n - 1) / k, k);
  }

  /** A group is the only aligned block that contains its members. */
  lemma GroupStartUnique(n: nat, k: nat, s: nat)
    requires GroupSize(k) && Aligned(s, k) && s <= n < s + k
    ensures GroupStart(n, k) == s
  {
    RemainderOfSum(s - 1, n - s, k);
  }

  /** Distinct group starts are at least K apart. */
  lemma AlignedApart(a: nat, b: nat, k: nat)
    requires GroupSize(k) && Aligned(a, k) && Aligned(b, k) && a < b
    ensures a + k <= b
  {
    if b < a + k {
      GroupStartUnique(b, k, a);
      GroupStartUnique(b, k, b);
    }
  }

  lemma AlignedPositive(s: nat, k: nat)
    requires k > 0 && Aligned(s, k)
    ensures s > 0
  {
  }

  lemma AlignedNext(a: nat, k: nat)
    requires GroupSize(k) && Aligned(a, k)
    ensures Aligned(a + k, k)
  {
    DivMod(a - 1, k);
    MultipleHasNoRemainder((a - 1) / k + 1, k);
    assert a + k - 1 == ((a - 1) / k + 1) * k;
  }

  /** Two numbers of the group were dropped before they were sent. */
  predicate TwoLost(lost: set<nat>, start: nat, k: nat) {
    exists a, b :: start <= a < b < start + k && a in lost && b in lost
  }

  /** The boundary falls inside the group, behind its first number. */
  predicate Divides(b: nat, start: nat, k: nat) {
    start < b < start + k
  }

  /** The first group start at or after n, or 0 when none is left in 32 bits. */
  function NextGroupStart(n: nat, k: nat): (r: nat)
    requires GroupSize(k) && n < U32
    ensures r != 0 ==> Aligned(r, k) && n <= r < n + k && r < U32
    ensures r == 0 <==> n == 0 || forall b :: n <= b < U32 ==> !Aligned(b, k)
  {
    if n == 0 then 0
    else
      var s := GroupStart(n, k);
      if s == n then n
      else
        AlignedNext(s, k);
        if s + k >= U32 then
          assert forall b :: n <= b < U32 ==> !Aligned(b, k) by {
            forall b | n <= b < U32 ensures !Aligned(b, k) {
              if Aligned(b, k) { AlignedApart(s, b, k); }
            }
          }
          0
        else s + k
  }

  // ---- FEC_MODE controls ----

  datatype Op = Suspend | Resume

  datatype ModeControl = ModeControl(generation: nat, op: Op, boundary: nat)
  {
    predicate Valid() {
      0 < generation < U64 && 0 < boundary < U32
    }
  }

  datatype Option<+T> = None | Some(value: T)

  function OpByte(op: Op): bv8 {
    match op
    case Suspend => 1
    case Resume => 2
  }

  function EncodeMode(c: ModeControl): (b: Bytes)
    ensures |b| == CONTROL_LEN
  {
    [KIND_MODE as bv8, OpByte(c.op)] + Put(0, 2) + Put(c.generation, 8) + Put(c.boundary, 4)
  }

  function ParseMode(b: Bytes): (r: Option<ModeControl>)
    ensures r.Some? ==> r.value.Valid()
  {
    if |b| != CONTROL_LEN || b[0] != KIND_MODE as bv8 then None
    else if Get(b[2..4]) != 0 then None
    else if b[1] != 1 && b[1] != 2 then None
    else
      var op := if b[1] == 1 then Suspend else Resume;
      var gen := Get(b[4..12]);
      var boundary := Get(b[12..16]);
      if gen == 0 || boundary == 0 then None
      else
        BaseValues(); GetBound(b[4..12]); GetBound(b[12..16]);
        Some(ModeControl(gen, op, boundary))
  }

  /** Every valid control survives the wire. */
  lemma ModeRoundTrip(c: ModeControl)
    requires c.Valid()
    ensures ParseMode(EncodeMode(c)) == Some(c)
  {
    hide Get, Put;
    var b := EncodeMode(c);
    assert b[2..4] == Put(0, 2);
    assert b[4..12] == Put(c.generation, 8);
    assert b[12..] == Put(c.boundary, 4) && b[12..16] == b[12..];
    BaseValues();
    PutGet(0, 2); PutGet(c.generation, 8); PutGet(c.boundary, 4);
  }

  /** A payload that parses is exactly the encoding of what it parses to. */
  lemma ModeParseExact(b: Bytes)
    ensures ParseMode(b).Some? ==> b == EncodeMode(ParseMode(b).value)
  {
    hide Get, Put;
    if ParseMode(b).Some? {
      GetPut(b[2..4]); GetPut(b[4..12]); GetPut(b[12..16]);
      assert b == [b[0], b[1]] + b[2..4] + b[4..12] + b[12..16];
    }
  }

  // ---- the receiver's bypass window ----

  /**
   The window state: from == 0 means no bypass, until == 0 means open-ended.
   */
  datatype Fence = Fence(generation: nat, from: nat, until: nat)
  {
    predicate Bypass(n: nat) {
      n != 0 && from != 0 && from <= n && (until == 0 || n < until)
    }

    /** The state after control c; older or equal generations change nothing. */
    function After(c: ModeControl): Fence {
      if !c.Valid() || c.generation <= generation then this
      else
        match c.op
        case Suspend => Fence(c.generation, c.boundary, 0)
        case Resume =>
          if from == 0 || c.boundary <= from then Fence(c.generation, 0, 0)
          else Fence(c.generation, from, c.boundary)
    }
  }

  const ActiveFence := Fence(0, 0, 0)

  function PackWindow(from: nat, until: nat): nat
    requires from < U32 && until < U32
  {
    from * U32 + until
  }

  function UnpackWindow(w: nat): (nat, nat) {
    (w / U32, w % U32)
  }

  /** The window lives in one 64-bit word so that the data path reads it in one load. */
  class RxFence {
    var generation: nat
    var window: nat

    ghost predicate Valid()
      reads this
    {
      generation < U64 && window < U64
    }

    ghost function State(): Fence
      reads this
    {
      Fence(generation, UnpackWindow(window).0, UnpackWindow(window).1)
    }

    constructor ()
      ensures Valid() && State() == ActiveFence
    {
      generation, window := 0, 0;
    }

    method Apply(c: ModeControl) returns (accepted: bool)
      requires Valid()
      modifies this
      ensures Valid()
      ensures State() == old(State()).After(c)
      ensures accepted <==> c.Valid() && c.generation > old(generation)
    {
      if !c.Valid() || c.generation <= generation {
        return false;
      }
      var from := UnpackWindow(window).0;
      generation := c.generation;
      match c.op {
        case Suspend =>
          window := PackWindow(c.boundary, 0);
        case Resume =>
          if from == 0 || c.boundary <= from {
            window := 0;
          } else {
            window := PackWindow(from, c.boundary);
          }
      }
      return true;
    }

    method Reset()
      modifies this
      ensures Valid() && State() == ActiveFence
    {
      generation, window := 0, 0;
    }

    function Bypass(n: nat): bool
      requires Valid()
      reads this
      ensures Bypass(n) == State().Bypass(n)
    {
      var (from, until) := UnpackWindow(window);
      n != 0 && from != 0 && n >= from && (until == 0 || n < until)
    }
  }
}
