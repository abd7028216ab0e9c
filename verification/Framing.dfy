/**
 Stream framing: a record is a 10-byte header [4-byte length][2-byte padding
 length][4-byte sequence number], the payload, and padding the reader skips.
 */
module Framing {
  import opened Xor
  import opened Wire
  import opened FecParity
  import opened FecControl
  import opened FecEncoder

  const HEADER := 10
  const MAX_WIRE_LEN := 131070

  datatype Record = Record(n: nat, payload: Bytes, pad: Bytes)
  {
    predicate Fits(limit: nat) {
      n < U32 && |payload| <= limit && |payload| < U32 && |pad| < U16
    }
  }

  function Header(length: nat, pad: nat, n: nat): (b: Bytes)
    ensures |b| == HEADER
  {
    Put(length, 4) + Put(pad, 2) + Put(n, 4)
  }

  function Encode(r: Record): (b: Bytes)
    ensures |b| == HEADER + |r.payload| + |r.pad|
  {
    Header(|r.payload|, |r.pad|, r.n) + r.payload + r.pad
  }

  function EncodeAll(rs: seq<Record>): Bytes {
    if rs == [] then [] else EncodeAll(rs[..|rs| - 1]) + Encode(rs[|rs| - 1])
  }

  // ---- reading ----

  /** What the bytes at hand say about the next record. */
  datatype Parsed = Short | TooLong(length: nat) | Whole(n: nat, payload: Bytes, size: nat)

  function Parse(b: Bytes, limit: nat): (p: Parsed)
    ensures p.Whole? ==> HEADER + |p.payload| <= p.size <= |b| && |p.payload| <= limit
    ensures p.TooLong? ==> p.length > limit
  {
    if |b| < HEADER then Short
    else
      var length := Get(b[0..4]);
      var pad := Get(b[4..6]);
      if length > limit then TooLong(length)
      else if |b| < HEADER + length + pad then Short
      else Whole(Get(b[6..10]), b[HEADER..HEADER + length], HEADER + length + pad)
  }

  datatype Unit = Unit(n: nat, payload: Bytes)

  /** The records a byte stream starts with, up to the first one that is cut short or too long. */
  function Decode(b: Bytes, limit: nat): seq<Unit>
    decreases |b|
  {
    match Parse(b, limit)
    case Whole(n, payload, size) => [Unit(n, payload)] + Decode(b[size..], limit)
    case _ => []
  }

  function Units(rs: seq<Record>): (us: seq<Unit>)
    ensures |us| == |rs|
    ensures forall i :: 0 <= i < |rs| ==> us[i] == Unit(rs[i].n, rs[i].payload)
  {
    seq(|rs|, i requires 0 <= i < |rs| => Unit(rs[i].n, rs[i].payload))
  }

  // ---- round trip ----

  lemma HeaderFields(length: nat, pad: nat, n: nat, tail: Bytes)
    requires length < U32 && pad < U16 && n < U32
    ensures var b := Header(length, pad, n) + tail;
            Get(b[0..4]) == length && Get(b[4..6]) == pad && Get(b[6..10]) == n
  {
    hide Get, Put, Base;
    var b := Header(length, pad, n) + tail;
    assert b[0..4] == Put(length, 4);
    assert b[4..6] == Put(pad, 2);
    assert b[6..10] == Put(n, 4);
    BaseValues();
    PutGet(length, 4); PutGet(pad, 2); PutGet(n, 4);
  }

  /** A record is read back whatever follows it. */
  lemma ParseEncode(r: Record, tail: Bytes, limit: nat)
    requires r.Fits(limit)
    ensures Parse(Encode(r) + tail, limit) == Whole(r.n, r.payload, |Encode(r)|)
  {
    hide Get, Put, Header;
    var b := Encode(r) + tail;
    assert b == Header(|r.payload|, |r.pad|, r.n) + (r.payload + r.pad + tail);
    HeaderFields(|r.payload|, |r.pad|, r.n, r.payload + r.pad + tail);
    assert b[HEADER..HEADER + |r.payload|] == r.payload;
  }

  /** What is read as a record is exactly the encoding of one. */
  lemma ParseExact(b: Bytes, limit: nat)
    requires Parse(b, limit).Whole?
    ensures var p := Parse(b, limit);
            var r := Record(p.n, p.payload, b[HEADER + |p.payload|..p.size]);
            r.Fits(limit) && b[..p.size] == Encode(r)
  {
    hide Get, Put, Base;
    var p := Parse(b, limit);
    GetPut(b[0..4]); GetPut(b[4..6]); GetPut(b[6..10]);
    BaseValues(); GetBound(b[0..4]); GetBound(b[4..6]); GetBound(b[6..10]);
    assert b[..HEADER] == b[0..4] + b[4..6] + b[6..10];
    assert b[..p.size] == b[..HEADER] + b[HEADER..HEADER + |p.payload|] + b[HEADER + |p.payload|..p.size];
  }

  lemma DecodeFirst(r: Record, tail: Bytes, limit: nat)
    requires r.Fits(limit)
    ensures Decode(Encode(r) + tail, limit) == [Unit(r.n, r.payload)] + Decode(tail, limit)
  {
    hide Parse, Encode;
    ParseEncode(r, tail, limit);
    assert (Encode(r) + tail)[|Encode(r)|..] == tail;
  }

  /** Every list of records within the limit is read back, and decoding goes on with what follows. */
  lemma {:induction false} DecodeEncode(rs: seq<Record>, tail: Bytes, limit: nat)
    requires forall i :: 0 <= i < |rs| ==> rs[i].Fits(limit)
    ensures Decode(EncodeAll(rs) + tail, limit) == Units(rs) + Decode(tail, limit)
  {
    hide Encode, Decode;
    if rs == [] {
      assert EncodeAll(rs) + tail == tail;
    } else {
      var init, r := rs[..|rs| - 1], rs[|rs| - 1];
      assert EncodeAll(rs) + tail == EncodeAll(init) + (Encode(r) + tail);
      DecodeEncode(init, Encode(r) + tail, limit);
      DecodeFirst(r, tail, limit);
      assert Units(rs) == Units(init) + [Unit(r.n, r.payload)];
    }
  }

  /** More bytes never change a verdict already reached. */
  lemma ParseStable(b: Bytes, more: Bytes, limit: nat)
    ensures Parse(b, limit) != Short ==> Parse(b + more, limit) == Parse(b, limit)
    ensures |b| >= HEADER ==> (Parse(b, limit).TooLong? <==> Parse(b + more, limit).TooLong?)
  {
    hide Get;
    if |b| >= HEADER {
      var c := b + more;
      assert c[0..4] == b[0..4] && c[4..6] == b[4..6] && c[6..10] == b[6..10];
      var length := Get(b[0..4]);
      if HEADER + length <= |b| {
        assert c[HEADER..HEADER + length] == b[HEADER..HEADER + length];
      }
    }
  }

  // ---- frames ----

  /** Control and handshake frames carry sequence number 0 and are never sealed. */
  function WireFrame(ic: Cipher, f: VpnFrame, pad: Bytes): Record {
    Record(f.n, if f.n != 0 && f.data != [] then Seal(ic, f.n, f.data) else f.data, pad)
  }

  function OpenUnit(ic: Cipher, u: Unit): Option<VpnFrame> {
    if u.n == 0 || u.payload == [] then Some(VpnFrame(u.n, u.payload))
    else
      match Open(ic, u.n, u.payload)
      case None => None
      case Some(text) => Some(VpnFrame(u.n, text))
  }

  function WireFrames(ic: Cipher, fs: seq<VpnFrame>): (rs: seq<Record>)
    ensures |rs| == |fs| && forall i :: 0 <= i < |fs| ==> rs[i] == WireFrame(ic, fs[i], [])
  {
    seq(|fs|, i requires 0 <= i < |fs| => WireFrame(ic, fs[i], []))
  }

  lemma UnitOpens(ic: Cipher, f: VpnFrame, pad: Bytes)
    ensures var r := WireFrame(ic, f, pad); OpenUnit(ic, Unit(r.n, r.payload)) == Some(f)
  {
    OpenSeal(ic, f.n, f.data);
  }

  /** Frames written, sealed, decoded and opened come back as they were. */
  lemma FramesRoundTrip(ic: Cipher, fs: seq<VpnFrame>, limit: nat)
    requires forall i :: 0 <= i < |fs| ==> WireFrame(ic, fs[i], []).Fits(limit)
    ensures var us := Decode(EncodeAll(WireFrames(ic, fs)), limit);
            |us| == |fs| && forall i :: 0 <= i < |fs| ==> OpenUnit(ic, us[i]) == Some(fs[i])
  {
    hide Decode, EncodeAll, OpenUnit, WireFrame;
    var rs := WireFrames(ic, fs);
    DecodeEncode(rs, [], limit);
    assert EncodeAll(rs) + [] == EncodeAll(rs);
    assert Decode([], limit) == [] by { DecodeNothing(limit); }
    forall i | 0 <= i < |fs| ensures OpenUnit(ic, Units(rs)[i]) == Some(fs[i]) {
      UnitOpens(ic, fs[i], []);
    }
  }

  lemma DecodeNothing(limit: nat)
    ensures Decode([], limit) == []
  {
  }

  // ---- bucket padding of single records ----

  const BUCKETS := [128, 256, 384, 512, 768, 1024, 1280, 1600, 2048, 4096]

  /**
   The padding of one record.  limit 0 means no MSS limit; extra is the random length used
   above the last bucket.
   */
  method PadBucket(wireLen: nat, limit: nat, extra: nat) returns (pad: nat)
    requires 1 <= extra <= 100
    ensures var size := HEADER + wireLen;
            && (limit > 0 && size >= limit ==> pad == 0)
            && (limit > 0 && size < limit ==> size + pad <= limit)
            && (limit > 0 && size >= 4096 ==> pad == 0)
            && (limit == 0 && size >= 4096 ==> pad == extra)
            && (limit == 0 && size < 4096 ==>
                  size + pad in BUCKETS && forall b :: b in BUCKETS && b > size ==> size + pad <= b)
            && (limit > 0 && size < limit && size < 4096 ==>
                  && pad > 0 && (size + pad == limit || size + pad in BUCKETS)
                  && forall b :: b in BUCKETS && b > size ==> size + pad <= b)
  {
    var size := HEADER + wireLen;
    if limit > 0 && size >= limit {
      return 0;
    }
    var i := 0;
    while i < |BUCKETS|
      invariant 0 <= i <= |BUCKETS|
      invariant forall j :: 0 <= j < i ==> BUCKETS[j] <= size && (limit > 0 ==> BUCKETS[j] < limit)
    {
      var b := BUCKETS[i];
      var target := if limit > 0 && b > limit then limit else b;
      if size < target {
        pad := target - size;
        assert b in BUCKETS;
        assert forall j :: i <= j < |BUCKETS| ==> b <= BUCKETS[j];
        return;
      }
      if limit > 0 && b >= limit {
        // no padding would be added here, but target was limit and the size is below it
        assert false;
      }
      i := i + 1;
    }
    assert BUCKETS[9] <= size;
    if limit > 0 {
      return 0;
    }
    return extra;
  }
}
