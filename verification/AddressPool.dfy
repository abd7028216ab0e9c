/**
 The server's address pools: every live session leases one IPv4 and one IPv6
 address, and the gateway keeps one of each.
 */
module AddressPool {
  import opened Xor
  import opened Wire
  import opened Division
  import opened FecControl

  // ---- addresses as bytes ----

  function Fill(b: bv8, m: nat): (r: Bytes)
    ensures |r| == m
  {
    seq(m, _ => b)
  }

  lemma NextBase(x: nat, m: nat)
    requires m > 0
    ensures x * Base(m - 1) * 256 == x * Base(m) && 256 * Base(m - 1) == Base(m)
  {
    var y := Base(m - 1);
    assert Base(m) == 256 * y;
    assert x * y * 256 == x * (256 * y);
  }

  lemma OneMoreTimes(x: nat, y: nat)
    ensures (x + 1) * y == x * y + y
  {
  }

  /** Low-order bytes that are all 0, or all 255. */
  lemma {:induction false} GetZeros(p: Bytes, m: nat)
    ensures Get(p + Fill(0, m)) == Get(p) * Base(m)
  {
    if m == 0 {
      assert p + Fill(0, 0) == p;
    } else {
      GetZeros(p, m - 1);
      NextBase(Get(p), m);
      hide Get, Base;
      GetLast(p + Fill(0, m - 1), 0);
      assert p + Fill(0, m) == (p + Fill(0, m - 1)) + [0];
    }
  }

  lemma {:induction false} GetOnes(p: Bytes, m: nat)
    ensures Get(p + Fill(255, m)) == Get(p) * Base(m) + Base(m) - 1
  {
    if m == 0 {
      assert p + Fill(255, 0) == p;
    } else {
      GetOnes(p, m - 1);
      NextBase(Get(p), m);
      hide Get, Base;
      GetLast(p + Fill(255, m - 1), 255);
      assert p + Fill(255, m) == (p + Fill(255, m - 1)) + [255];
    }
  }

  /** Carrying into byte b over m bytes that are all 255. */
  lemma Carry(p: Bytes, b: bv8, m: nat)
    requires b != 255
    ensures Get(p + [b + 1] + Fill(0, m)) == Get(p + [b] + Fill(255, m)) + 1
  {
    hide Get, Base, Fill;
    GetZeros(p + [b + 1], m);
    GetOnes(p + [b], m);
    GetLast(p, b);
    GetLast(p, b + 1);
    assert (b + 1) as nat == b as nat + 1;
    OneMoreTimes(Get(p + [b]), Base(m));
  }

  /** The next address, wrapping around at the end of the space. */
  method IncrementIP(ip: array<bv8>)
    modifies ip
    ensures Get(ip[..]) == NextAddress(old(Get(ip[..])), ip.Length)
  {
    hide Get, Base;
    ghost var was := ip[..];
    var n := ip.Length;
    var j := n;
    assert was == was[..n] + Fill(255, 0);
    while j > 0
      invariant 0 <= j <= n
      invariant was == was[..j] + Fill(255, n - j)
      invariant ip[..] == was[..j] + Fill(0, n - j)
    {
      j := j - 1;
      var b := ip[j];
      assert was[..j + 1] == was[..j] + [b];
      ip[j] := b + 1;
      if ip[j] > 0 {
        assert ip[..] == was[..j] + [b + 1] + Fill(0, n - j - 1);
        Carry(was[..j], b, n - j - 1);
        GetBound(ip[..]);
        return;
      }
      assert b == 255;
      assert [b] + Fill(255, n - j - 1) == Fill(255, n - j);
      assert ip[..] == was[..j] + Fill(0, n - j);
    }
    assert was == [] + Fill(255, n) && ip[..] == [] + Fill(0, n);
    GetZeros([], n);
    GetOnes([], n);
    assert Get([]) == 0 by { GetNothing(); }
  }

  lemma GetNothing()
    ensures Get([]) == 0
  {
  }

  // ---- one pool ----

  /** size addresses from base on, written in width bytes. */
  datatype Pool = Pool(width: nat, base: nat, size: nat)
  {
    /** A prefix of at least one bit: the pool is not the whole address space. */
    predicate Valid() {
      width > 0 && 0 < size < Base(width) && base + size <= Base(width)
    }

    predicate Contains(a: nat) {
      base <= a < base + size
    }
  }

  /** The address after a, wrapping around. */
  function NextAddress(a: nat, width: nat): nat {
    if a + 1 < Base(width) then a + 1 else 0
  }

  /** The gateway is the address after the base: inside the pool unless the pool is a single address. */
  lemma GatewayInsideIff(pool: Pool)
    requires pool.Valid()
    ensures pool.Contains(NextAddress(pool.base, pool.width)) <==> pool.size >= 2
  {
    hide Base;
    assert pool.size >= 2 ==> pool.base + 1 < Base(pool.width);
  }

  /** The scan skips addresses that look like network or broadcast addresses. */
  predicate Usable(a: nat) {
    a % 256 != 0 && a % 256 != 255
  }

  predicate Available(pool: Pool, used: set<nat>, a: nat) {
    pool.Contains(a) && a !in used
  }

  lemma LastByte(ip: Bytes)
    requires ip != []
    ensures Get(ip) % 256 == ip[|ip| - 1] as nat
  {
    var last := |ip| - 1;
    GetLast(ip[..last], ip[last]);
    hide Get;
    assert ip == ip[..last] + [ip[last]];
    Decompose(Get(ip), 256, Get(ip[..last]), ip[last] as nat);
  }

  method IPFrom(a: nat, width: nat) returns (ip: array<bv8>)
    requires a < Base(width)
    ensures fresh(ip) && ip.Length == width && Get(ip[..]) == a
  {
    var b := Put(a, width);
    PutGet(a, width);
    ip := new bv8[width](i requires 0 <= i < width => b[i]);
    assert ip[..] == b;
  }

  /** The requested address if it is free, else the first free usable one. */
  method Allocate(request: Option<nat>, pool: Pool, used: set<nat>) returns (a: Option<nat>, inUse: set<nat>)
    requires pool.Valid()
    ensures request.Some? && Available(pool, used, request.value) ==> a == request
    ensures a.Some? ==> Available(pool, used, a.value) && inUse == used + {a.value}
    ensures a.Some? && a != request ==>
              Usable(a.value) && forall b: nat :: pool.base <= b < a.value && Usable(b) ==> b in used
    ensures a.None? ==> inUse == used && forall b: nat :: pool.Contains(b) && Usable(b) ==> b in used
    ensures (exists b: nat :: Available(pool, used, b) && Usable(b)) ==> a.Some?
  {
    hide Get, Base;
    if request.Some? && Available(pool, used, request.value) {
      return request, used + {request.value};
    }
    var ip := IPFrom(pool.base, pool.width);
    while pool.Contains(Get(ip[..]))
      invariant fresh(ip) && ip.Length == pool.width
      invariant pool.base <= Get(ip[..]) <= pool.base + pool.size || (Get(ip[..]) == 0 && pool.base + pool.size == Base(pool.width))
      invariant forall b: nat :: pool.Contains(b) && Usable(b) && (b < Get(ip[..]) || !pool.Contains(Get(ip[..]))) ==> b in used
      decreases if pool.Contains(Get(ip[..])) then pool.base + pool.size - Get(ip[..]) else 0
    {
      var at := Get(ip[..]);
      LastByte(ip[..]);
      if at !in used && ip[ip.Length - 1] != 0 && ip[ip.Length - 1] != 255 {
        return Some(at), used + {at};
      }
      IncrementIP(ip);
    }
    return None, used;
  }

  // ---- leases ----

  /** The used set is exactly the gateway and the leased addresses, all distinct and inside the pool. */
  predicate Accounted(used: set<nat>, gateway: nat, pool: Pool, leases: map<nat, nat>) {
    && used == {gateway} + leases.Values
    && (forall c :: c in leases ==> pool.Contains(leases[c]) && leases[c] != gateway)
    && (forall c, d :: c in leases && d in leases && c != d ==> leases[c] != leases[d])
  }

  lemma AccountedAfterGrant(used: set<nat>, gateway: nat, pool: Pool, leases: map<nat, nat>, client: nat, a: nat)
    requires Accounted(used, gateway, pool, leases) && client !in leases && Available(pool, used, a)
    ensures Accounted(used + {a}, gateway, pool, leases[client := a])
  {
    var more := leases[client := a];
    assert forall c :: c in leases ==> leases[c] in used;
    forall x | x in leases.Values + {a} ensures x in more.Values {
      if x != a {
        var c :| c in leases && leases[c] == x;
        assert more[c] == x;
      } else {
        assert more[client] == a;
      }
    }
  }

  lemma AccountedAfterRelease(used: set<nat>, gateway: nat, pool: Pool, leases: map<nat, nat>, client: nat)
    requires Accounted(used, gateway, pool, leases) && client in leases
    ensures Accounted(used - {leases[client]}, gateway, pool, leases - {client})
  {
    var less := leases - {client};
    forall x | x in leases.Values && x != leases[client] ensures x in less.Values {
      var c :| c in leases && leases[c] == x;
      assert less[c] == x;
    }
  }

  datatype Lease = Lease(v4: nat, v6: nat)

  function V4(sessions: map<nat, Lease>): map<nat, nat> {
    map c | c in sessions :: sessions[c].v4
  }

  function V6(sessions: map<nat, Lease>): map<nat, nat> {
    map c | c in sessions :: sessions[c].v6
  }

  class LeaseTable {
    const v4: Pool
    const v6: Pool
    const gwV4: nat
    const gwV6: nat
    var usedV4: set<nat>
    var usedV6: set<nat>
    var sessions: map<nat, Lease>

    ghost predicate Valid()
      reads this
    {
      && v4.Valid() && v6.Valid()
      && Accounted(usedV4, gwV4, v4, V4(sessions))
      && Accounted(usedV6, gwV6, v6, V6(sessions))
    }

    constructor (pool4: Pool, pool6: Pool, gateway4: nat, gateway6: nat)
      requires pool4.Valid() && pool6.Valid()
      ensures Valid() && sessions == map[] && usedV4 == {gateway4} && usedV6 == {gateway6}
      ensures v4 == pool4 && v6 == pool6 && gwV4 == gateway4 && gwV6 == gateway6
    {
      v4, v6, gwV4, gwV6 := pool4, pool6, gateway4, gateway6;
      usedV4, usedV6, sessions := {gateway4}, {gateway6}, map[];
    }

    /** Some address the scan would hand out is free in both pools. */
    ghost predicate HasRoom()
      reads this
    {
      && (exists b: nat :: Available(v4, usedV4, b) && Usable(b))
      && (exists b: nat :: Available(v6, usedV6, b) && Usable(b))
    }

    /** Both addresses or neither: an IPv6 failure gives the IPv4 address back. */
    method AssignIPs(request: (Option<nat>, Option<nat>)) returns (lease: Option<Lease>)
      requires v4.Valid() && v6.Valid()
      modifies this`usedV4, this`usedV6
      ensures lease.None? ==> usedV4 == old(usedV4) && usedV6 == old(usedV6)
      ensures lease.Some? ==>
                && Available(v4, old(usedV4), lease.value.v4) && usedV4 == old(usedV4) + {lease.value.v4}
                && Available(v6, old(usedV6), lease.value.v6) && usedV6 == old(usedV6) + {lease.value.v6}
                && Honoured(v4, old(usedV4), request.0, lease.value.v4)
                && Honoured(v6, old(usedV6), request.1, lease.value.v6)
      ensures old(HasRoom()) ==> lease.Some?
    {
      hide Usable, Pool.Valid;
      var a4;
      a4, usedV4 := Allocate(request.0, v4, usedV4);
      if a4.None? {
        return None;
      }
      var a6;
      a6, usedV6 := Allocate(request.1, v6, usedV6);
      if a6.None? {
        usedV4 := usedV4 - {a4.value};
        return None;
      }
      return Some(Lease(a4.value, a6.value));
    }

    /** A client without a session gets one, unless the table is full or something else fails. */
    method Open(client: nat, request: (Option<nat>, Option<nat>), full: bool, tokenFails: bool) returns (ok: bool)
      requires Valid() && client !in sessions
      modifies this
      ensures Valid()
      ensures !ok ==> sessions == old(sessions) && usedV4 == old(usedV4) && usedV6 == old(usedV6)
      ensures ok ==> client in sessions && sessions == old(sessions)[client := sessions[client]]
      ensures ok ==> Honoured(v4, old(usedV4), request.0, sessions[client].v4)
      ensures ok ==> Honoured(v6, old(usedV6), request.1, sessions[client].v6)
      ensures !full && !tokenFails && old(HasRoom()) ==> ok
    {
      hide Usable, Accounted, Honoured, Pool.Valid;
      if full {
        return false;
      }
      var lease := AssignIPs(request);
      if lease.None? {
        return false;
      }
      if tokenFails {
        usedV4, usedV6 := usedV4 - {lease.value.v4}, usedV6 - {lease.value.v6};
        assert usedV4 == old(usedV4) && usedV6 == old(usedV6);
        return false;
      }
      AccountedAfterGrant(old(usedV4), gwV4, v4, V4(sessions), client, lease.value.v4);
      AccountedAfterGrant(old(usedV6), gwV6, v6, V6(sessions), client, lease.value.v6);
      sessions := sessions[client := lease.value];
      assert V4(sessions) == V4(old(sessions))[client := lease.value.v4];
      assert V6(sessions) == V6(old(sessions))[client := lease.value.v6];
      return true;
    }

    /** The session's addresses, and only those, become free again. */
    method Destroy(client: nat)
      requires Valid()
      modifies this
      ensures Valid() && sessions == old(sessions) - {client}
      ensures client in old(sessions) ==>
                usedV4 == old(usedV4) - {old(sessions)[client].v4} && usedV6 == old(usedV6) - {old(sessions)[client].v6}
      ensures client !in old(sessions) ==> usedV4 == old(usedV4) && usedV6 == old(usedV6)
    {
      hide Accounted, Pool.Valid;
      if client !in sessions {
        assert sessions - {client} == sessions;
        return;
      }
      var lease := sessions[client];
      AccountedAfterRelease(usedV4, gwV4, v4, V4(sessions), client);
      AccountedAfterRelease(usedV6, gwV6, v6, V6(sessions), client);
      usedV4 := usedV4 - {lease.v4};
      usedV6 := usedV6 - {lease.v6};
      sessions := sessions - {client};
      assert V4(sessions) == V4(old(sessions)) - {client};
      assert V6(sessions) == V6(old(sessions)) - {client};
    }
  }

  /** A free requested address is granted as asked. */
  predicate Honoured(pool: Pool, used: set<nat>, request: Option<nat>, granted: nat) {
    request.Some? && Available(pool, used, request.value) ==> granted == request.value
  }
}
