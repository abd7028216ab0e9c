/**
 Tail padding of a stream batch: only the last record of the aggregated write
 gets cover bytes, and only as many as bring the TLS record to a multiple of the
 TCP segment size within a small budget.
 */
module TailPadding {
  import opened Xor
  import opened Wire
  import opened Division
  import opened Framing

  const RECORD_OVERHEAD := 32
  const FALLBACK_MSS := 1440
  const MAX_PLAINTEXT := 16384  // section 5.1 of RFC 8446
  const PAD_PERCENT := 10
  const PAD_LIMIT := 512

  function SegmentSize(mss: int): (m: int)
    ensures m >= 256
  {
    if mss < 256 then FALLBACK_MSS else mss
  }

  /** The ciphertext of n plaintext bytes is a whole number of segments. */
  predicate FillsSegments(n: int, m: int)
    requires m > 0
  {
    (n + RECORD_OVERHEAD) % m == 0
  }

  /** t is the least such length from n on. */
  ghost predicate LeastAligned(n: int, t: int, m: int)
    requires m > 0
  {
    n <= t && FillsSegments(t, m) && forall u :: n <= u < t ==> !FillsSegments(u, m)
  }

  function RoundedUp(n: int, m: int): int
    requires m > 0
  {
    (n + RECORD_OVERHEAD + m - 1) / m * m - RECORD_OVERHEAD
  }

  lemma RoundedUpFills(n: int, m: int)
    requires m > 0
    ensures FillsSegments(RoundedUp(n, m), m) && n <= RoundedUp(n, m) < n + m
  {
    DivMod(n + RECORD_OVERHEAD + m - 1, m);
    MultipleHasNoRemainder((n + RECORD_OVERHEAD + m - 1) / m, m);
  }

  lemma NoneBetween(u: int, t: int, m: int)
    requires m > 0 && FillsSegments(t, m) && t - m < u < t
    ensures !FillsSegments(u, m)
  {
    var x := t + RECORD_OVERHEAD - m;
    DivMod(t + RECORD_OVERHEAD, m);
    Decompose(x, m, (t + RECORD_OVERHEAD) / m - 1, 0);
    RemainderOfSum(x, u - (t - m), m);
  }

  lemma RoundUp(n: int, m: int)
    requires m > 0
    ensures LeastAligned(n, RoundedUp(n, m), m)
    ensures forall t :: LeastAligned(n, t, m) ==> t == RoundedUp(n, m)
  {
    hide FillsSegments, RoundedUp;
    RoundedUpFills(n, m);
    forall u | n <= u < RoundedUp(n, m) ensures !FillsSegments(u, m) {
      NoneBetween(u, RoundedUp(n, m), m);
    }
  }

  /** The target length: the least aligned one, unless a TLS record cannot hold it. */
  function AlignedTarget(n: int, mss: int): (r: int)
    ensures n <= 0 ==> r == n
    ensures n > 0 ==> forall t :: LeastAligned(n, t, SegmentSize(mss)) ==> r == if t <= MAX_PLAINTEXT then t else n
    ensures n > 0 ==> exists t :: LeastAligned(n, t, SegmentSize(mss))
  {
    if n <= 0 then n
    else
      var m := SegmentSize(mss);
      var target := RoundedUp(n, m);
      RoundUp(n, m);
      assert LeastAligned(n, target, m);
      if target < n || target > MAX_PLAINTEXT then n else target
  }

  function Budget(n: int): (r: int)
    ensures n > 0 ==> 0 <= r <= PAD_LIMIT && r * 100 <= n * PAD_PERCENT
    ensures n > 0 && r < PAD_LIMIT ==> n * PAD_PERCENT < (r + 1) * 100
    ensures n <= 0 ==> r == 0
  {
    if n <= 0 then 0
    else
      var relative := n * PAD_PERCENT / 100;
      if relative > PAD_LIMIT then PAD_LIMIT else relative
  }

  // ---- the padded batch ----

  /** cover bytes appended, and counted in the padding field of the record at last. */
  function Padded(b: Bytes, last: nat, cover: Bytes): Bytes
    requires last + HEADER <= |b|
  {
    b[..last + 4] + Put(Get(b[last + 4..last + 6]) + |cover|, 2) + b[last + 6..] + cover
  }

  function LastPadded(rs: seq<Record>, cover: Bytes): (r: seq<Record>)
    requires rs != []
    ensures Units(r) == Units(rs)
  {
    var last := rs[|rs| - 1];
    rs[..|rs| - 1] + [last.(pad := last.pad + cover)]
  }

  lemma PaddedRecord(r: Record, cover: Bytes, limit: nat)
    requires r.Fits(limit) && |r.pad| + |cover| < U16
    ensures Padded(Encode(r), 0, cover) == Encode(r.(pad := r.pad + cover))
  {
    hide Get, Put;
    var b := Encode(r);
    HeaderFields(|r.payload|, |r.pad|, r.n, r.payload + r.pad);
    assert b == Header(|r.payload|, |r.pad|, r.n) + (r.payload + r.pad);
    assert b[..4] == Put(|r.payload|, 4);
    assert b[6..] == Put(r.n, 4) + r.payload + r.pad;
  }

  lemma PaddedAfter(before: Bytes, b: Bytes, cover: Bytes)
    requires |b| >= HEADER
    ensures Padded(before + b, |before|, cover) == before + Padded(b, 0, cover)
  {
    hide Get, Put;
    var c := before + b;
    assert c[|before| + 4..|before| + 6] == b[4..6];
    assert c[..|before| + 4] == before + b[..4];
    assert c[|before| + 6..] == b[6..];
  }

  lemma PaddedBatch(rs: seq<Record>, cover: Bytes, limit: nat)
    requires rs != [] && rs[|rs| - 1].Fits(limit) && |rs[|rs| - 1].pad| + |cover| < U16
    ensures Padded(EncodeAll(rs), |EncodeAll(rs[..|rs| - 1])|, cover) == EncodeAll(LastPadded(rs, cover))
  {
    hide Encode, Padded;
    var init, r := rs[..|rs| - 1], rs[|rs| - 1];
    PaddedAfter(EncodeAll(init), Encode(r), cover);
    PaddedRecord(r, cover, limit);
    var more := LastPadded(rs, cover);
    assert more[..|more| - 1] == init;
  }

  /** Padding the tail leaves what the reader decodes unchanged, whatever follows on the stream. */
  lemma PaddingInvisible(rs: seq<Record>, cover: Bytes, tail: Bytes, limit: nat)
    requires rs != [] && forall i :: 0 <= i < |rs| ==> rs[i].Fits(limit)
    requires |rs[|rs| - 1].pad| + |cover| < U16
    ensures var b := EncodeAll(rs);
            Decode(Padded(b, |EncodeAll(rs[..|rs| - 1])|, cover) + tail, limit) == Decode(b + tail, limit)
  {
    hide Encode, Decode, Padded, EncodeAll;
    PaddedBatch(rs, cover, limit);
    DecodeEncode(rs, tail, limit);
    var more := LastPadded(rs, cover);
    DecodeEncode(more, tail, limit);
  }

  /** How many cover bytes the record at last gets. */
  function TailPad(b: Bytes, last: int, recordLimit: int, off: bool): (pad: nat)
    ensures pad > 0 ==> 0 <= last && last + HEADER <= |b| && Get(b[last + 4..last + 6]) + pad < U16
    ensures pad > 0 ==> !off && LeastAligned(|b|, |b| + pad, SegmentSize(recordLimit + RECORD_OVERHEAD))
    ensures pad > 0 ==> |b| + pad <= MAX_PLAINTEXT && pad <= PAD_LIMIT && pad * 100 <= |b| * PAD_PERCENT
  {
    if off || b == [] || last < 0 then 0
    else
      var target := AlignedTarget(|b|, recordLimit + RECORD_OVERHEAD);
      var pad := target - |b|;
      if pad <= 0 || last + HEADER > |b| || pad > 0xffff then 0
      else if pad > Budget(|b|) then 0
      else if Get(b[last + 4..last + 6]) + pad > 0xffff then 0
      else pad
  }

  /** A batch of fresh records stays unpadded only if it is aligned already or the gap is over budget. */
  lemma PadsWhenAffordable(rs: seq<Record>, recordLimit: int, t: int)
    requires rs != [] && rs[|rs| - 1].Fits(MAX_WIRE_LEN) && rs[|rs| - 1].pad == []
    requires LeastAligned(|EncodeAll(rs)|, t, SegmentSize(recordLimit + RECORD_OVERHEAD))
    ensures var b := EncodeAll(rs); var last := |EncodeAll(rs[..|rs| - 1])|;
            |b| + TailPad(b, last, recordLimit, false) ==
            if t <= MAX_PLAINTEXT && t - |b| <= Budget(|b|) then t else |b|
  {
    hide LeastAligned, Get, Put;
    var init, r := rs[..|rs| - 1], rs[|rs| - 1];
    var b, last := EncodeAll(rs), |EncodeAll(init)|;
    HeaderFields(|r.payload|, 0, r.n, r.payload);
    assert b[last + 4..last + 6] == Encode(r)[4..6];
    assert Encode(r) == Header(|r.payload|, 0, r.n) + r.payload;
    assert t >= |b| by { LeastBelow(|b|, t, SegmentSize(recordLimit + RECORD_OVERHEAD)); }
  }

  lemma LeastBelow(n: int, t: int, m: int)
    requires m > 0 && LeastAligned(n, t, m)
    ensures n <= t
  {
  }
}
