/**
 Parity frames: the payload format
   [kind][4-byte group start][K][K 4-byte lengths][sealed XOR body]
 as the encoder writes it and the decoder reads it.  The AEAD is an
 authenticated identity: sealing appends a tag, opening checks it.
 */
module FecParity {
  import opened Xor
  import opened Wire
  import opened FecControl

  const TAG_LEN := 16

  /** A message authentication tag as a function of sequence number, wire length and text. */
  type TagFunction = f: (nat, nat, Bytes) -> Bytes | forall n, w, b :: |f(n, w, b)| == TAG_LEN
    witness (n: nat, w: nat, b: Bytes) => seq(TAG_LEN, _ => 0)

  type Cipher = Option<TagFunction>

  function TagLen(ic: Cipher): nat {
    if ic.Some? then TAG_LEN else 0
  }

  function Seal(ic: Cipher, n: nat, text: Bytes): (r: Bytes)
    ensures |r| == |text| + TagLen(ic)
  {
    if ic.Some? then text + ic.value(n, |text| + TAG_LEN, text) else text
  }

  function Open(ic: Cipher, n: nat, sealed: Bytes): Option<Bytes> {
    if ic.None? then Some(sealed)
    else if |sealed| < TAG_LEN then None
    else
      var text := sealed[..|sealed| - TAG_LEN];
      if ic.value(n, |sealed|, text) == sealed[|text|..] then Some(text) else None
  }

  lemma OpenSeal(ic: Cipher, n: nat, text: Bytes)
    ensures Open(ic, n, Seal(ic, n, text)) == Some(text)
  {
    if ic.Some? {
      var sealed := Seal(ic, n, text);
      assert sealed[..|text|] == text;
      assert sealed[|text|..] == ic.value(n, |text| + TAG_LEN, text);
    }
  }

  // ---- groups as sequences of payloads ----

  function Members(datas: seq<Bytes>): map<nat, Bytes> {
    map i: nat | i < |datas| :: datas[i]
  }

  function Lengths(datas: seq<Bytes>): (r: seq<nat>)
    ensures |r| == |datas|
    ensures forall i :: 0 <= i < |r| ==> r[i] == |datas[i]|
  {
    seq(|datas|, i requires 0 <= i < |datas| => |datas[i]|)
  }

  function Max(lens: seq<nat>): (r: nat)
    ensures forall i :: 0 <= i < |lens| ==> lens[i] <= r
    ensures r == 0 || r in lens
  {
    if lens == [] then 0
    else
      var m := Max(lens[..|lens| - 1]);
      assert lens == lens[..|lens| - 1] + [lens[|lens| - 1]];
      if lens[|lens| - 1] > m then lens[|lens| - 1] else m
  }

  lemma MaxAppend(lens: seq<nat>, n: nat)
    ensures Max(lens + [n]) == if n > Max(lens) then n else Max(lens)
  {
    assert (lens + [n])[..|lens|] == lens;
  }

  /** The XOR body: as long as the longest member, each byte the fold of the members. */
  function Body(datas: seq<Bytes>): (r: Bytes)
    ensures |r| == Max(Lengths(datas))
  {
    seq(Max(Lengths(datas)), i requires 0 <= i => Fold(Members(datas), |datas|, i))
  }

  lemma {:induction false} FoldBeyond(m: map<nat, Bytes>, n: nat, i: nat)
    requires forall j :: j in m ==> |m[j]| <= i
    ensures Fold(m, n, i) == 0
  {
    if n > 0 {
      FoldBeyond(m, n - 1, i);
    }
  }

  lemma BodyIsFold(datas: seq<Bytes>)
    ensures IsFold(Body(datas), Members(datas), |datas|)
  {
    var m := Members(datas);
    forall i: nat
      ensures At(Body(datas), i) == Fold(m, |datas|, i)
    {
      if i >= Max(Lengths(datas)) {
        forall j | j in m
          ensures |m[j]| <= i
        {
          assert Lengths(datas)[j] <= Max(Lengths(datas));
        }
        FoldBeyond(m, |datas|, i);
      }
    }
  }

  /** The fold together with the longest length determines the body. */
  lemma BodyUnique(acc: Bytes, datas: seq<Bytes>)
    requires IsFold(acc, Members(datas), |datas|)
    requires |acc| >= Max(Lengths(datas))
    ensures acc[..Max(Lengths(datas))] == Body(datas)
  {
    var n := Max(Lengths(datas));
    forall i | 0 <= i < n
      ensures acc[..n][i] == Body(datas)[i]
    {
      assert At(acc, i) == Fold(Members(datas), |datas|, i);
    }
  }

  // ---- the wire format ----

  function PutAll(lens: seq<nat>): (r: Bytes)
    ensures |r| == 4 * |lens|
  {
    if lens == [] then [] else PutAll(lens[..|lens| - 1]) + Put(lens[|lens| - 1], 4)
  }

  function GetAll(b: Bytes, k: nat): (r: seq<nat>)
    requires |b| == 4 * k
    ensures |r| == k
    ensures forall i :: 0 <= i < k ==> r[i] == Get(b[4 * i..4 * i + 4])
  {
    seq(k, i requires 0 <= i < k => Get(b[4 * i..4 * i + 4]))
  }

  function EncodeParity(ic: Cipher, start: nat, lens: seq<nat>, body: Bytes): (r: Bytes) {
    [KIND_PARITY as bv8] + Put(start, 4) + Put(|lens|, 1) + PutAll(lens) + Seal(ic, start, body)
  }

  /** The parity frame of a group of payloads. */
  function ParityOf(ic: Cipher, start: nat, datas: seq<Bytes>): Bytes {
    EncodeParity(ic, start, Lengths(datas), Body(datas))
  }

  /** The group start, when the header names a whole K-group. */
  function ParseHeader(b: Bytes, k: nat): (r: Option<nat>)
    requires GroupSize(k)
    ensures r.Some? ==> Aligned(r.value, k) && r.value < U32 && |b| >= 7
  {
    if |b| < 7 || b[0] != KIND_PARITY as bv8 then None
    else
      var start := Get(b[1..5]);
      BaseValues(); GetBound(b[1..5]);
      if start == 0 || b[5] as nat != k || (start - 1) % k != 0 then None
      else Some(start)
  }

  /** The member lengths, when they agree with the payload's size. */
  function ParseLengths(b: Bytes, k: nat, tag: nat): (r: Option<seq<nat>>)
    ensures r.Some? ==> |r.value| == k && 6 + 4 * k + Max(r.value) + tag <= |b|
  {
    if |b| < 6 + 4 * k + tag then None
    else
      var lens := GetAll(b[6..6 + 4 * k], k);
      if exists i :: 0 <= i < k && lens[i] + tag > |b| - (6 + 4 * k) then None
      else Some(lens)
  }

  /** The sealed XOR region, as long as the longest length plus the tag. */
  function SealedBody(b: Bytes, k: nat, lens: seq<nat>, tag: nat): Bytes
    requires 6 + 4 * k + Max(lens) + tag <= |b|
  {
    b[6 + 4 * k..6 + 4 * k + Max(lens) + tag]
  }

  /** Field i of the written lengths. */
  lemma {:induction false} PutAllSlice(lens: seq<nat>, i: nat)
    requires i < |lens|
    ensures PutAll(lens)[4 * i..4 * i + 4] == Put(lens[i], 4)
  {
    var k := |lens| - 1;
    var rest := PutAll(lens[..k]);
    if i == k {
      assert PutAll(lens)[4 * k..] == Put(lens[k], 4);
    } else {
      PutAllSlice(lens[..k], i);
      assert PutAll(lens)[4 * i..4 * i + 4] == rest[4 * i..4 * i + 4];
    }
  }

  lemma GetPutAll(lens: seq<nat>)
    requires forall i :: 0 <= i < |lens| ==> lens[i] < U32
    ensures GetAll(PutAll(lens), |lens|) == lens
  {
    forall i | 0 <= i < |lens|
      ensures GetAll(PutAll(lens), |lens|)[i] == lens[i]
    {
      PutAllSlice(lens, i);
      BaseValues(); PutGet(lens[i], 4);
    }
  }

  /** The four regions of an encoded parity frame. */
  lemma ParityRegions(ic: Cipher, start: nat, lens: seq<nat>, body: Bytes)
    ensures var b := EncodeParity(ic, start, lens, body); var d := 6 + 4 * |lens|;
            && |b| == d + |body| + TagLen(ic)
            && b[0] == KIND_PARITY as bv8
            && b[1..5] == Put(start, 4)
            && b[5..6] == Put(|lens|, 1)
            && b[6..d] == PutAll(lens)
            && b[d..] == Seal(ic, start, body)
  {
    hide Put, PutAll, Seal;
  }

  lemma ParityHeaderRoundTrip(ic: Cipher, start: nat, lens: seq<nat>, body: Bytes)
    requires GroupSize(|lens|) && Aligned(start, |lens|) && start < U32
    requires |body| > 0
    ensures ParseHeader(EncodeParity(ic, start, lens, body), |lens|) == Some(start)
  {
    hide Get, Put, EncodeParity;
    var b := EncodeParity(ic, start, lens, body);
    ParityRegions(ic, start, lens, body);
    BaseValues(); PutGet(start, 4); PutGet(|lens|, 1);
    GetOne(b[5..6]);
  }

  lemma GetOne(b: Bytes)
    requires |b| == 1
    ensures Get(b) == b[0] as nat
  {
    assert b[..0] == [];
  }

  /** A parity frame's header, if accepted, names the start it was built with. */
  lemma HeaderNamesStart(ic: Cipher, start: nat, lens: seq<nat>, body: Bytes)
    requires GroupSize(|lens|) && start < U32
    ensures var h := ParseHeader(EncodeParity(ic, start, lens, body), |lens|); h.Some? ==> h.value == start
  {
    ParityRegions(ic, start, lens, body);
    BaseValues();
    PutGet(start, 4);
  }

  /** A header that is accepted is exactly kind, group start and K. */
  lemma ParityHeaderExact(b: Bytes, k: nat)
    requires GroupSize(k)
    ensures ParseHeader(b, k).Some? ==> b[..6] == [KIND_PARITY as bv8] + Put(ParseHeader(b, k).value, 4) + Put(k, 1)
  {
    hide Get, Put, Aligned;
    if ParseHeader(b, k).Some? {
      GetPut(b[1..5]);
      GetPut(b[5..6]);
      assert Get(b[5..6]) == b[5] as nat by { OneByte(b[5]); assert b[5..6] == [b[5]]; }
      assert b[..6] == [b[0]] + b[1..5] + b[5..6];
    }
  }

  lemma OneByte(b: bv8)
    ensures Get([b]) == b as nat
  {
    GetLast([], b);
    assert [] + [b] == [b];
  }

  lemma ParityLengthsRoundTrip(ic: Cipher, start: nat, lens: seq<nat>, body: Bytes)
    requires forall i :: 0 <= i < |lens| ==> lens[i] < U32
    requires |body| == Max(lens)
    ensures ParseLengths(EncodeParity(ic, start, lens, body), |lens|, TagLen(ic)) == Some(lens)
  {
    ParityRegions(ic, start, lens, body);
    GetPutAll(lens);
  }

  /** What the decoder reads from a parity frame is what the encoder put in. */
  lemma ParityRoundTrip(ic: Cipher, start: nat, datas: seq<Bytes>)
    requires GroupSize(|datas|) && Aligned(start, |datas|) && start < U32
    requires forall i :: 0 <= i < |datas| ==> 0 < |datas[i]| < U32
    ensures var b := ParityOf(ic, start, datas); var k := |datas|;
            && ParseHeader(b, k) == Some(start)
            && ParseLengths(b, k, TagLen(ic)) == Some(Lengths(datas))
            && Open(ic, start, SealedBody(b, k, Lengths(datas), TagLen(ic))) == Some(Body(datas))
  {
    hide ParseHeader, ParseLengths, Open, Aligned;
    var k := |datas|;
    var lens := Lengths(datas);
    var b := ParityOf(ic, start, datas);
    assert lens[0] <= Max(lens);
    ParityHeaderRoundTrip(ic, start, lens, Body(datas));
    ParityLengthsRoundTrip(ic, start, lens, Body(datas));
    ParityRegions(ic, start, lens, Body(datas));
    assert SealedBody(b, k, lens, TagLen(ic)) == b[6 + 4 * k..];
    OpenSeal(ic, start, Body(datas));
  }
}
