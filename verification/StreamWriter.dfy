/**
 The writing side of the stream: records are appended to a growing byte buffer
 in place, and the last one may be padded before the buffer is written out.
 */
module StreamWriter {
  import opened Xor
  import opened Wire
  import opened FecParity
  import opened FecEncoder
  import opened Framing
  import opened TailPadding

  class StreamBuffer {
    var data: array<bv8>
    var len: nat

    ghost predicate Valid()
      reads this
    {
      len <= data.Length
    }

    ghost function Contents(): Bytes
      requires Valid()
      reads this, data
    {
      data[..len]
    }

    constructor (capacity: nat)
      ensures Valid() && fresh(data) && Contents() == []
    {
      data := new bv8[capacity];
      len := 0;
    }

    /** Room for needed more bytes: at least twice the old capacity when the array is replaced. */
    method Reserve(needed: nat)
      requires Valid()
      modifies this`data
      ensures Valid() && len + needed <= data.Length
      ensures Contents() == old(Contents())
      ensures data == old(data) || (fresh(data) && data.Length >= 2 * old(data.Length))
    {
      if data.Length - len < needed {
        var capacity := data.Length * 2;
        if capacity < len + needed {
          capacity := len + needed;
        }
        var bigger := new bv8[capacity];
        forall k | 0 <= k < len {
          bigger[k] := data[k];
        }
        assert bigger[..len] == data[..len];
        data := bigger;
      }
    }

    /** Overwrites bytes at a position inside the array. */
    method Write(at: nat, b: Bytes)
      requires at + |b| <= data.Length
      modifies data
      ensures data[..] == old(data[..at]) + b + old(data[at + |b|..])
    {
      forall k | 0 <= k < |b| {
        data[at + k] := b[k];
      }
    }

    /** Appends one record and returns where it starts. */
    method AppendFrame(ic: Cipher, f: VpnFrame, pad: Bytes) returns (start: nat)
      requires Valid()
      modifies this, data
      ensures Valid() && (data == old(data) || fresh(data))
      ensures start == old(len)
      ensures Contents() == old(Contents()) + Encode(WireFrame(ic, f, pad))
    {
      hide Encode, Header, WireFrame;
      var r := WireFrame(ic, f, pad);
      var needed := HEADER + |r.payload| + |pad|;
      start := len;
      Reserve(needed);
      WireFramePad(ic, f, pad);
      ghost var before := data[..start];
      label grown:
      Write(start, Header(|r.payload|, |pad|, f.n));
      assert data[..start + HEADER] == before + Header(|r.payload|, |pad|, f.n);
      Write(start + HEADER, r.payload);
      assert data[..start + HEADER + |r.payload|] == before + Header(|r.payload|, |pad|, f.n) + r.payload;
      Write(start + HEADER + |r.payload|, pad);
      len := start + needed;
      assert data[..len] == before + Header(|r.payload|, |pad|, f.n) + r.payload + pad;
      EncodeParts(r, before);
    }

    /** Appends the records of a batch; last is where the final one starts, -1 for an empty batch. */
    method AppendBatch(ic: Cipher, fs: seq<VpnFrame>) returns (count: nat, last: int)
      requires Valid()
      modifies this, data
      ensures Valid() && (data == old(data) || fresh(data))
      ensures count == |fs|
      ensures Contents() == old(Contents()) + EncodeAll(WireFrames(ic, fs))
      ensures fs == [] ==> last == -1
      ensures fs != [] ==> last == old(len) + |EncodeAll(WireFrames(ic, fs[..|fs| - 1]))|
    {
      hide WireFrame, Encode, EncodeAll, WireFrames;
      count, last := |fs|, -1;
      var i := 0;
      EmptyBatch(ic, fs);
      while i < |fs|
        invariant 0 <= i <= |fs|
        invariant Valid() && (data == old(data) || fresh(data))
        invariant Contents() == old(Contents()) + EncodeAll(WireFrames(ic, fs[..i]))
        invariant i == 0 ==> last == -1
        invariant i > 0 ==> last == old(len) + |EncodeAll(WireFrames(ic, fs[..i - 1]))|
      {
        last := AppendFrame(ic, fs[i], []);
        BatchGrows(ic, fs, i);
        i := i + 1;
      }
      assert fs[..|fs|] == fs;
    }

    /** Pads the record at last up to the aligned length, if that is within the budget. */
    method PadTail(last: int, recordLimit: int, off: bool, cover: Bytes) returns (pad: nat)
      requires Valid()
      requires |cover| >= PAD_LIMIT
      modifies this, data
      ensures Valid() && (data == old(data) || fresh(data))
      ensures pad == TailPad(old(Contents()), last, recordLimit, off)
      ensures pad > 0 ==> 0 <= last && last + HEADER <= old(len)
      ensures Contents() == if pad > 0 then Padded(old(Contents()), last, cover[..pad]) else old(Contents())
    {
      hide Padded, FillsSegments, RoundedUp, AlignedTarget, Budget;
      if off || len == 0 || last < 0 {
        return 0;
      }
      var target := AlignedTarget(len, recordLimit + RECORD_OVERHEAD);
      if target - len <= 0 || last + HEADER > len || target - len > 0xffff {
        return 0;
      }
      if target - len > Budget(len) {
        return 0;
      }
      assert data[last + 4..last + 6] == Contents()[last + 4..last + 6];
      if Get(data[last + 4..last + 6]) + (target - len) > 0xffff {
        return 0;
      }
      pad := target - len;
      AddCover(last, cover[..pad]);
    }

    method AddCover(last: nat, cover: Bytes)
      requires Valid() && last + HEADER <= len
      modifies this, data
      ensures Valid() && (data == old(data) || fresh(data))
      ensures Contents() == Padded(old(Contents()), last, cover)
    {
      hide Put, Get;
      CountCover(last, |cover|);
      Reserve(|cover|);
      ghost var b := Contents();
      Write(len, cover);
      len := len + |cover|;
      assert Contents() == b + cover;
    }

    /** Adds n to the padding field of the record at last. */
    method CountCover(last: nat, n: nat)
      requires Valid() && last + HEADER <= len
      modifies data
      ensures var b := old(Contents());
              Contents() == b[..last + 4] + Put(Get(b[last + 4..last + 6]) + n, 2) + b[last + 6..]
    {
      hide Put, Get;
      ghost var b := Contents();
      var field := Put(Get(data[last + 4..last + 6]) + n, 2);
      assert data[last + 4..last + 6] == b[last + 4..last + 6];
      Write(last + 4, field);
    }
  }

  lemma WireFramePad(ic: Cipher, f: VpnFrame, pad: Bytes)
    ensures WireFrame(ic, f, pad).pad == pad && WireFrame(ic, f, pad).n == f.n
  {
  }

  lemma EncodeParts(r: Record, before: Bytes)
    ensures before + Header(|r.payload|, |r.pad|, r.n) + r.payload + r.pad == before + Encode(r)
  {
  }

  lemma EmptyBatch(ic: Cipher, fs: seq<VpnFrame>)
    ensures EncodeAll(WireFrames(ic, fs[..0])) == []
  {
  }

  lemma BatchGrows(ic: Cipher, fs: seq<VpnFrame>, i: nat)
    requires i < |fs|
    ensures EncodeAll(WireFrames(ic, fs[..i + 1])) == EncodeAll(WireFrames(ic, fs[..i])) + Encode(WireFrame(ic, fs[i], []))
  {
    var rs := WireFrames(ic, fs[..i + 1]);
    assert rs[..i] == WireFrames(ic, fs[..i]);
  }
}
