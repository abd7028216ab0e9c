/** Big-endian fields, as the wire formats of frames and controls use them. */
module Wire {
  import opened Xor

  const U16 := 0x1_0000
  const U32 := 0x1_0000_0000
  const U64 := 0x1_0000_0000_0000_0000

  lemma NextByte(b: bv8)
    requires b != 255
    ensures (b + 1) as nat == b as nat + 1
  {
  }

  /** The byte with value n. */
  function ByteOf(n: nat): (b: bv8)
    requires n < 256
    ensures b as nat == n
  {
    if n == 0 then 0
    else
      var b := ByteOf(n - 1);
      NextByte(b);
      b + 1
  }

  /** The w low-order bytes of n, most significant first. */
  function Put(n: nat, w: nat): (b: Bytes)
    ensures |b| == w
  {
    if w == 0 then [] else Put(n / 256, w - 1) + [ByteOf(n % 256)]
  }

  function Get(b: Bytes): nat {
    if |b| == 0 then 0 else Get(b[..|b| - 1]) * 256 + b[|b| - 1] as nat
  }

  /** 256 to the power w. */
  function Base(w: nat): (r: nat)
    ensures r > 0
  {
    if w == 0 then 1 else 256 * Base(w - 1)
  }

  lemma BaseValues()
    ensures Base(2) == U16 && Base(4) == U32 && Base(8) == U64
  {
    assert Base(1) == 256 && Base(2) == U16;
    assert Base(3) == 256 * Base(2) && Base(4) == U32;
    assert Base(5) == 256 * Base(4) && Base(6) == 256 * Base(5);
    assert Base(7) == 256 * Base(6) && Base(8) == 256 * Base(7);
  }

  lemma GetLast(p: Bytes, b: bv8)
    ensures Get(p + [b]) == Get(p) * 256 + b as nat
  {
    assert (p + [b])[..|p|] == p;
  }

  /** Reading back a written field returns the number, provided it fits. */
  lemma {:induction false} PutGet(n: nat, w: nat)
    requires n < Base(w)
    ensures Get(Put(n, w)) == n
  {
    if w > 0 {
      assert n / 256 < Base(w - 1);
      PutGet(n / 256, w - 1);
      hide Get;
      GetLast(Put(n / 256, w - 1), ByteOf(n % 256));
    }
  }

  lemma {:induction false} GetBound(b: Bytes)
    ensures Get(b) < Base(|b|)
  {
    if |b| > 0 {
      GetBound(b[..|b| - 1]);
    }
  }

  lemma ByteUnique(a: bv8, b: bv8)
    requires a as nat == b as nat
    ensures a == b
  {
  }

  /** Writing back a read field returns the bytes. */
  lemma {:induction false} GetPut(b: Bytes)
    ensures Put(Get(b), |b|) == b
  {
    if |b| > 0 {
      var init, last := b[..|b| - 1], b[|b| - 1];
      GetPut(init);
      var n := Get(b);
      assert n == Get(init) * 256 + last as nat;
      assert Put(n, |b|) == Put(n / 256, |b| - 1) + [ByteOf(n % 256)];
      hide Get, Put;
      LastByte(n, Get(init), last);
      assert b == init + [last];
    }
  }

  lemma LastByte(n: nat, high: nat, low: bv8)
    requires n == high * 256 + low as nat
    ensures n / 256 == high && ByteOf(n % 256) == low
  {
    assert n / 256 == high && n % 256 == low as nat;
    ByteUnique(ByteOf(n % 256), low);
  }
}
