/**
 Zero-padded XOR of byte strings, and the fold of one parity group.

 A parity group is K payloads of different lengths.  Its parity body is the XOR
 of the payloads, each read as if padded with zeros.  Fold gives that value byte
 by byte for any subset of the group, so the same definition describes the
 encoder's accumulator, the decoder's accumulator and the parity body.
 */
module Xor {

  type Bytes = seq<bv8>

  /** The byte at i, zero past the end. */
  function At(s: Bytes, i: nat): bv8 {
    if i < |s| then s[i] else 0
  }

  /** Zero-extends s to at least n bytes. */
  function Extend(s: Bytes, n: nat): (r: Bytes)
    ensures |r| == if n > |s| then n else |s|
    ensures forall i: nat :: At(r, i) == At(s, i)
  {
    if n > |s| then s + seq(n - |s|, _ => 0) else s
  }

  /** XORs data into the first |data| bytes of acc. */
  function XorPrefix(acc: Bytes, data: Bytes): (r: Bytes)
    requires |data| <= |acc|
    ensures |r| == |acc|
    ensures forall i: nat :: At(r, i) == At(acc, i) ^ At(data, i)
  {
    seq(|acc|, i requires 0 <= i < |acc| => acc[i] ^ At(data, i))
  }

  /** Byte i of the XOR of the members of m whose offset is below n. */
  function Fold(m: map<nat, Bytes>, n: nat, i: nat): bv8 {
    if n == 0 then 0
    else if n - 1 in m then Fold(m, n - 1, i) ^ At(m[n - 1], i)
    else Fold(m, n - 1, i)
  }

  /** acc is the zero-padded XOR of the members of m. */
  ghost predicate IsFold(acc: Bytes, m: map<nat, Bytes>, n: nat) {
    forall i: nat :: At(acc, i) == Fold(m, n, i)
  }

  lemma XorLaws(a: bv8, b: bv8, c: bv8)
    ensures (a ^ b) ^ c == (a ^ c) ^ b
    ensures (a ^ b) ^ a == b
  {
  }

  lemma {:induction false} FoldEmpty(n: nat, i: nat)
    ensures Fold(map[], n, i) == 0
  {
    if n > 0 {
      FoldEmpty(n - 1, i);
    }
  }

  lemma {:induction false} FoldAgree(m: map<nat, Bytes>, m': map<nat, Bytes>, n: nat, i: nat)
    requires forall j :: 0 <= j < n ==> (j in m <==> j in m') && (j in m ==> m[j] == m'[j])
    ensures Fold(m, n, i) == Fold(m', n, i)
  {
    if n > 0 {
      FoldAgree(m, m', n - 1, i);
    }
  }

  /** Adding a new member XORs its bytes into the fold, whatever order members arrive in. */
  lemma {:induction false} FoldInsert(m: map<nat, Bytes>, n: nat, j: nat, data: Bytes, i: nat)
    requires j < n && j !in m
    ensures Fold(m[j := data], n, i) == Fold(m, n, i) ^ At(data, i)
  {
    if j == n - 1 {
      FoldAgree(m, m[j := data], n - 1, i);
    } else {
      FoldInsert(m, n - 1, j, data, i);
      if n - 1 in m {
        XorLaws(Fold(m, n - 1, i), At(data, i), At(m[n - 1], i));
      }
    }
  }

  /** The in-place accumulator update keeps IsFold. */
  lemma FoldStep(acc: Bytes, m: map<nat, Bytes>, n: nat, j: nat, data: Bytes)
    requires IsFold(acc, m, n) && j < n && j !in m
    ensures IsFold(XorPrefix(Extend(acc, |data|), data), m[j := data], n)
  {
    forall i: nat
      ensures At(XorPrefix(Extend(acc, |data|), data), i) == Fold(m[j := data], n, i)
    {
      FoldInsert(m, n, j, data, i);
    }
  }

  /** XOR of a full group with all its members but one leaves exactly the missing payload. */
  lemma FoldRecovers(full: map<nat, Bytes>, n: nat, j: nat, i: nat)
    requires j < n && j in full
    ensures Fold(full, n, i) ^ Fold(full - {j}, n, i) == At(full[j], i)
  {
    var rest := full - {j};
    assert rest[j := full[j]] == full;
    FoldInsert(rest, n, j, full[j], i);
    XorLaws(Fold(rest, n, i), At(full[j], i), 0);
  }
}
