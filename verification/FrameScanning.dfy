/**
 The reading side of the stream: an incremental scanner over a reader that hands
 out the bytes in chunks of any size and may fail at any point.
 */
module FrameScanning {
  import opened Xor
  import opened Wire
  import opened FecControl
  import opened Framing

  /** Eof also stands for a connection closed on this side. */
  datatype Failure = Eof | Broken

  /** How one read comes out: at most wish bytes, and possibly an error beside them. */
  datatype Reading = Reading(wish: nat, failure: Option<Failure>)

  /** pending is what the peer has written and nobody has read; script decides the coming reads. */
  class ByteReader {
    var pending: Bytes
    var script: seq<Reading>

    constructor (stream: Bytes, readings: seq<Reading>)
      ensures pending == stream && script == readings
    {
      pending, script := stream, readings;
    }

    method Read(room: nat) returns (chunk: Bytes, failure: Option<Failure>)
      modifies this
      ensures old(pending) == chunk + pending && |chunk| <= room
      ensures old(script) == [] ==> script == [] && chunk == [] && failure == Some(Eof)
      ensures old(script) != [] ==> script == old(script)[1..] && failure == old(script)[0].failure
    {
      if script == [] {
        return [], Some(Eof);
      }
      var n := if script[0].wish < room then script[0].wish else room;
      n := if n < |pending| then n else |pending|;
      chunk, failure := pending[..n], script[0].failure;
      pending, script := pending[n..], script[1..];
    }
  }

  datatype Outcome =
    | Got(n: nat, payload: Bytes)
    | Malformed(length: nat)
    | Failed(failure: Failure)

  const INITIAL_CAPACITY := 16384
  const COMPACT_ABOVE := 16384
  const READ_ROOM := 2048

  class FrameScanner {
    const reader: ByteReader
    var buf: array<bv8>
    var len: nat
    var offset: nat
    var maxDataLen: nat
    var lastWireSize: nat

    ghost predicate Valid()
      reads this
    {
      offset <= len <= buf.Length
    }

    ghost function Buffered(): Bytes
      requires Valid()
      reads this, buf
    {
      buf[offset..len]
    }

    /** The bytes not yet handed out as frames, read or unread. */
    ghost function Remaining(): Bytes
      requires Valid()
      reads this, buf, reader
    {
      Buffered() + reader.pending
    }

    constructor (r: ByteReader)
      ensures Valid() && fresh(buf) && reader == r && maxDataLen == MAX_WIRE_LEN && Buffered() == []
    {
      reader := r;
      buf := new bv8[INITIAL_CAPACITY];
      len, offset, maxDataLen, lastWireSize := 0, 0, MAX_WIRE_LEN, 0;
    }

    /** The fields of the record at the front. */
    method Header() returns (dataLen: nat, padLen: nat, n: nat)
      requires Valid() && len - offset >= HEADER
      ensures var b := Buffered(); dataLen == Get(b[0..4]) && padLen == Get(b[4..6]) && n == Get(b[6..10])
    {
      hide Get;
      HeaderAt(buf[..], offset, len);
      dataLen := Get(buf[offset..offset + 4]);
      padLen := Get(buf[offset + 4..offset + 6]);
      n := Get(buf[offset + 6..offset + 10]);
    }

    /** Whether ReadFrame can return a frame without reading. */
    method BufferedFrameReady() returns (ready: bool)
      requires Valid()
      ensures ready <==> Parse(Buffered(), maxDataLen).Whole?
    {
      hide Get;
      if len - offset < HEADER {
        return false;
      }
      var dataLen, padLen, _ := Header();
      if dataLen > maxDataLen {
        return false;
      }
      return len - offset >= HEADER + dataLen + padLen;
    }

    /** Moves what is left to the front when the consumed part is everything or large. */
    method Compact()
      requires Valid()
      modifies this`len, this`offset, buf
      ensures Valid() && Buffered() == old(Buffered())
      ensures offset <= COMPACT_ABOVE && (len == 0 || offset < len)
    {
      if offset > 0 && (offset == len || offset > COMPACT_ABOVE) {
        var remaining := len - offset;
        forall k | 0 <= k < remaining {
          buf[k] := buf[offset + k];
        }
        len, offset := remaining, 0;
      }
    }

    /** Makes room for at least READ_ROOM more bytes, and for the whole record announced. */
    method Grow()
      requires Valid() && !Parse(Buffered(), maxDataLen).TooLong?
      modifies this`buf
      ensures Valid() && Buffered() == old(Buffered()) && (buf == old(buf) || fresh(buf))
      ensures len + READ_ROOM <= buf.Length
      ensures |Buffered()| >= HEADER ==>
                offset + HEADER + Get(Buffered()[0..4]) + Get(Buffered()[4..6]) <= buf.Length
    {
      hide Get;
      var required := len + READ_ROOM;
      if len - offset >= HEADER {
        var dataLen, padLen, _ := Header();
        var record := offset + HEADER + dataLen + padLen;
        if record > required {
          required := record;
        }
      }
      if buf.Length < required {
        var capacity := buf.Length * 2;
        if capacity < required {
          capacity := required;
        }
        Resize(capacity);
      }
    }

    method Resize(capacity: nat)
      requires Valid() && len <= capacity
      modifies this`buf
      ensures Valid() && fresh(buf) && buf.Length == capacity && Buffered() == old(Buffered())
    {
      var bigger := new bv8[capacity];
      forall k | 0 <= k < len {
        bigger[k] := buf[k];
      }
      assert forall k :: offset <= k < len ==> bigger[k] == buf[k];
      assert bigger[offset..len] == buf[offset..len];
      buf := bigger;
    }

    /** Takes the record at the front out of the buffer. */
    method Consume(dataLen: nat, totalLen: nat) returns (payload: Bytes)
      requires Valid() && dataLen <= totalLen && HEADER + totalLen <= len - offset
      modifies this`offset, this`lastWireSize
      ensures Valid() && lastWireSize == HEADER + totalLen
      ensures payload == old(Buffered())[HEADER..HEADER + dataLen] && Buffered() == old(Buffered())[HEADER + totalLen..]
    {
      lastWireSize := HEADER + totalLen;
      payload := buf[offset + HEADER..offset + HEADER + dataLen];
      SliceOfSlice(buf[..], offset, len, HEADER, HEADER + dataLen);
      offset := offset + HEADER + totalLen;
    }

    /** One read into the free tail of the buffer. */
    method Fill() returns (n: nat, failure: Option<Failure>)
      requires Valid()
      modifies this`len, buf, reader
      ensures Valid() && Remaining() == old(Remaining()) && old(Buffered()) <= Buffered() && |Buffered()| == old(|Buffered()|) + n
      ensures old(reader.script) == [] ==> n == 0 && failure == Some(Eof)
      ensures old(reader.script) != [] ==> reader.script == old(reader.script)[1..]
    {
      var chunk;
      chunk, failure := reader.Read(buf.Length - len);
      n := |chunk|;
      Append(chunk);
      assert old(Buffered()) + (chunk + reader.pending) == (old(Buffered()) + chunk) + reader.pending;
    }

    method Append(chunk: Bytes)
      requires Valid() && len + |chunk| <= buf.Length
      modifies this`len, buf
      ensures Valid() && offset == old(offset) && buf == old(buf) && Buffered() == old(Buffered()) + chunk
    {
      ghost var before := buf[offset..len];
      forall k | 0 <= k < |chunk| {
        buf[len + k] := chunk[k];
      }
      len := len + |chunk|;
      forall k | 0 <= k < |before + chunk| ensures buf[offset..len][k] == (before + chunk)[k] {
        assert buf[offset..len][k] == buf[offset + k];
      }
    }

    /** Takes the record at offset, if it is all there. */
    method Take() returns (o: Option<Outcome>)
      requires Valid()
      modifies this`len, this`offset, this`lastWireSize
      ensures Valid()
      ensures match old(Parse(Buffered(), maxDataLen))
              case Short => o == None && len == old(len) && offset == old(offset) && lastWireSize == old(lastWireSize)
              case TooLong(length) => o == Some(Malformed(length)) && Buffered() == [] && lastWireSize == old(lastWireSize)
              case Whole(n, payload, size) =>
                o == Some(Got(n, payload)) && lastWireSize == size && Buffered() == old(Buffered())[size..]
    {
      hide Get;
      if len - offset < HEADER {
        return None;
      }
      var dataLen, padLen, n := Header();
      if dataLen > maxDataLen {
        len, offset := 0, 0;
        return Some(Malformed(dataLen));
      }
      var totalLen := dataLen + padLen;
      if len - offset < HEADER + totalLen {
        return None;
      }
      var payload := Consume(dataLen, totalLen);
      return Some(Got(n, payload));
    }

    /** Makes room and reads once. */
    method Refill() returns (n: nat, failure: Option<Failure>)
      requires Valid() && !Parse(Buffered(), maxDataLen).TooLong?
      modifies this`buf, this`len, this`offset, buf, reader
      ensures Valid() && (buf == old(buf) || fresh(buf))
      ensures Remaining() == old(Remaining()) && old(Buffered()) <= Buffered() && |Buffered()| == old(|Buffered()|) + n
      ensures old(reader.script) == [] ==> n == 0 && failure == Some(Eof)
      ensures old(reader.script) != [] ==> reader.script == old(reader.script)[1..]
    {
      hide Parse;
      Compact();
      Grow();
      n, failure := Fill();
    }

    /** The next frame of the stream, however its bytes are split into reads. */
    method ReadFrame() returns (o: Outcome)
      requires Valid()
      modifies this`buf, this`len, this`offset, this`lastWireSize, buf, reader
      ensures Valid() && (buf == old(buf) || fresh(buf))
      ensures o.Got? ==>
                && Parse(old(Remaining()), maxDataLen) == Whole(o.n, o.payload, lastWireSize)
                && Remaining() == old(Remaining())[lastWireSize..]
      ensures o.Malformed? ==>
                Parse(old(Remaining()), maxDataLen) == TooLong(o.length) && Buffered() == [] && lastWireSize == 0
      ensures o.Failed? ==> Remaining() == old(Remaining()) && lastWireSize == 0
      ensures o == Failed(Eof) ==> Parse(Buffered(), maxDataLen) == Short
      ensures old(Parse(Buffered(), maxDataLen).Whole?) ==>
                o.Got? && reader.pending == old(reader.pending) && reader.script == old(reader.script)
    {
      hide Parse, Get;
      lastWireSize := 0;
      while true
        invariant Valid() && (buf == old(buf) || fresh(buf)) && lastWireSize == 0
        invariant Remaining() == old(Remaining())
        invariant old(Parse(Buffered(), maxDataLen).Whole?) ==>
                    Buffered() == old(Buffered()) && reader.pending == old(reader.pending) && reader.script == old(reader.script)
        decreases |reader.script|
      {
        ghost var b := Buffered();
        ParseStable(b, reader.pending, maxDataLen);
        label taking:
        var taken := Take();
        if taken.Some? {
          o := taken.value;
          assert o.Got? ==> Remaining() == old(Remaining())[lastWireSize..] by {
            if o.Got? { DropPrefix(b, reader.pending, lastWireSize); }
          }
          return;
        }
        var n, failure := Refill();
        if failure.Some? && (n == 0 || failure.value == Broken) {
          assert failure.value == Eof ==> Buffered() == b;
          return Failed(failure.value);
        }
      }
    }
  }

  /**
   The receive loop: frames until the stream ends or breaks.  Nothing is lost, repeated or
   reordered, and a stream of records that arrives whole is returned whole.
   */
  method ReceiveAll(scanner: FrameScanner, ghost rs: seq<Record>) returns (out: seq<Unit>, end: Outcome)
    requires scanner.Valid()
    requires scanner.Remaining() == EncodeAll(rs) && forall i :: 0 <= i < |rs| ==> rs[i].Fits(scanner.maxDataLen)
    modifies scanner`buf, scanner`len, scanner`offset, scanner`lastWireSize, scanner.buf, scanner.reader
    ensures scanner.Valid() && end.Failed?
    ensures Units(rs) == out + Decode(scanner.Remaining(), scanner.maxDataLen)
    ensures end == Failed(Eof) && scanner.reader.pending == [] ==> out == Units(rs)
  {
    hide Owed, EncodeAll, Units, Parse, Decode;
    out := [];
    WholeStream(rs, scanner.maxDataLen);
    NothingOut(rs, scanner.Remaining(), scanner.maxDataLen);
    while true
      invariant scanner.Valid() && (scanner.buf == old(scanner.buf) || fresh(scanner.buf))
      invariant Owed(rs, out, scanner.Remaining(), scanner.maxDataLen)
      decreases |scanner.Remaining()|
    {
      ghost var before := scanner.Remaining();
      OwedStep(rs, out, before, scanner.maxDataLen);
      end := scanner.ReadFrame();
      if !end.Got? {
        assert scanner.reader.pending == [] ==> scanner.Remaining() == scanner.Buffered();
        return;
      }
      out := out + [Unit(end.n, end.payload)];
    }
  }

  /** What has come out, and what the rest of the stream still holds, are the units sent. */
  ghost predicate Owed(rs: seq<Record>, out: seq<Unit>, b: Bytes, limit: nat) {
    Units(rs) == out + Decode(b, limit) && WellFormed(b, limit)
  }

  lemma NothingOut(rs: seq<Record>, b: Bytes, limit: nat)
    requires Decode(b, limit) == Units(rs) && WellFormed(b, limit)
    ensures Owed(rs, [], b, limit)
  {
    hide Decode, Units;
  }

  lemma OwedStep(rs: seq<Record>, out: seq<Unit>, b: Bytes, limit: nat)
    requires Owed(rs, out, b, limit)
    ensures !Parse(b, limit).TooLong? && Units(rs) == out + Decode(b, limit)
    ensures Parse(b, limit) == Short ==> out == Units(rs)
    ensures Parse(b, limit).Whole? ==> var p := Parse(b, limit); Owed(rs, out + [Unit(p.n, p.payload)], b[p.size..], limit)
  {
    hide Units, Parse;
    DecodeStep(b, limit);
    hide Decode;
    if Parse(b, limit).Whole? {
      var p := Parse(b, limit);
      var rest := Decode(b[p.size..], limit);
      assert out + ([Unit(p.n, p.payload)] + rest) == (out + [Unit(p.n, p.payload)]) + rest;
    }
  }

  /** No record announces more than the limit, however far decoding goes. */
  ghost predicate WellFormed(b: Bytes, limit: nat)
    decreases |b|
  {
    match Parse(b, limit)
    case Short => true
    case TooLong(length) => false
    case Whole(n, payload, size) => WellFormed(b[size..], limit)
  }

  lemma DecodeStep(b: Bytes, limit: nat)
    ensures Parse(b, limit) == Short ==> Decode(b, limit) == []
    ensures WellFormed(b, limit) ==> !Parse(b, limit).TooLong?
    ensures Parse(b, limit).Whole? ==>
              var p := Parse(b, limit);
              && Decode(b, limit) == [Unit(p.n, p.payload)] + Decode(b[p.size..], limit)
              && (WellFormed(b, limit) ==> WellFormed(b[p.size..], limit))
  {
  }

  lemma {:induction false} WellFormedAll(rs: seq<Record>, tail: Bytes, limit: nat)
    requires forall i :: 0 <= i < |rs| ==> rs[i].Fits(limit)
    requires WellFormed(tail, limit)
    ensures WellFormed(EncodeAll(rs) + tail, limit)
  {
    hide Encode;
    if rs == [] {
      assert EncodeAll(rs) + tail == tail;
    } else {
      var init, r := rs[..|rs| - 1], rs[|rs| - 1];
      assert EncodeAll(rs) + tail == EncodeAll(init) + (Encode(r) + tail);
      ParseEncode(r, tail, limit);
      assert (Encode(r) + tail)[|Encode(r)|..] == tail;
      WellFormedAll(init, Encode(r) + tail, limit);
    }
  }

  lemma WholeStream(rs: seq<Record>, limit: nat)
    requires forall i :: 0 <= i < |rs| ==> rs[i].Fits(limit)
    ensures Decode(EncodeAll(rs), limit) == Units(rs) && WellFormed(EncodeAll(rs), limit)
  {
    hide Encode;
    assert EncodeAll(rs) + [] == EncodeAll(rs);
    DecodeEncode(rs, [], limit);
    WellFormedAll(rs, [], limit);
  }

  lemma DropPrefix(b: Bytes, rest: Bytes, size: nat)
    requires size <= |b|
    ensures b[size..] + rest == (b + rest)[size..]
  {
  }

  /** The header fields of the record that starts at offset. */
  lemma HeaderAt(buf: Bytes, offset: nat, len: nat)
    requires offset + HEADER <= len <= |buf|
    ensures buf[offset..len][0..4] == buf[offset..offset + 4]
    ensures buf[offset..len][4..6] == buf[offset + 4..offset + 6]
    ensures buf[offset..len][6..10] == buf[offset + 6..offset + 10]
  {
    SliceOfSlice(buf, offset, len, 0, 4);
    SliceOfSlice(buf, offset, len, 4, 6);
    SliceOfSlice(buf, offset, len, 6, 10);
  }

  lemma SliceOfSlice(b: Bytes, from: nat, to: nat, i: nat, j: nat)
    requires i <= j && from + j <= to <= |b|
    ensures b[from..to][i..j] == b[from + i..from + j]
  {
    forall k | 0 <= k < j - i ensures b[from..to][i..j][k] == b[from + i..from + j][k] {
    }
  }
}
