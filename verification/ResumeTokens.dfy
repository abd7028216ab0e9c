/**
 Resume tokens: a client that restarts proves with its token that it owns the
 session on the server.  Tokens roll over in two phases, because the response that
 carries the next one may be lost.

 The model is one client identity and one server: requests and responses may be
 lost, the client may restart, the session may expire or the server restart at any
 time.  One handshake is outstanding at a time, and a received response is stored
 in memory and on disk in one step.
 */
module ResumeTokens {
  import opened FecControl

  type Token = string

  predicate HexDigit(c: char) {
    '0' <= c <= '9' || 'a' <= c <= 'f' || 'A' <= c <= 'F'
  }

  predicate WellFormed(t: Token) {
    |t| == 64 && forall i :: 0 <= i < |t| ==> HexDigit(t[i])
  }

  predicate Verify(stored: Token, presented: Token) {
    |stored| == 64 && |presented| == 64 && stored == presented
  }

  /** pending is empty unless a rollover waits for its acknowledgement. */
  datatype Session = Session(id: nat, epoch: nat, instance: Option<nat>, current: Token, pending: Token)
  {
    predicate Sane() {
      WellFormed(current) && (pending != [] ==> WellFormed(pending))
    }

    predicate Accepts(presented: Token) {
      Verify(current, presented) || (pending != [] && Verify(pending, presented))
    }

    /** The pending token becomes current when the client presents it. */
    function Acknowledged(presented: Token): Session {
      if !Verify(current, presented) && pending != [] && Verify(pending, presented)
      then this.(current := pending, pending := [])
      else this
    }

    /** The token every response carries. */
    function Offer(): Token {
      if pending != [] then pending else current
    }

    function WithPending(random: Token): Session {
      if pending != [] then this else this.(pending := random)
    }
  }

  /** The session fields as the server updates them. */
  class ClientSession {
    var id: nat
    var epoch: nat
    var instance: Option<nat>
    var current: Token
    var pending: Token

    ghost function State(): Session
      reads this
    {
      Session(id, epoch, instance, current, pending)
    }

    constructor (sessionId: nat, instanceId: nat, token: Token)
      ensures State() == Session(sessionId, 1, Some(instanceId), token, [])
    {
      id, epoch, instance, current, pending := sessionId, 1, Some(instanceId), token, [];
    }

    method AcceptResumeToken(presented: Token) returns (ok: bool)
      modifies this`current, this`pending
      ensures ok == old(State()).Accepts(presented)
      ensures State() == old(State()).Acknowledged(presented)
      ensures ok ==> current == presented
      ensures old(State()).Offer() == State().Offer()
    {
      if Verify(current, presented) {
        return true;
      }
      if pending != [] && Verify(pending, presented) {
        current, pending := pending, [];
        return true;
      }
      return false;
    }

    method EnsurePendingResumeToken(random: Option<Token>) returns (ok: bool)
      modifies this`pending
      ensures ok <==> old(pending) != [] || random.Some?
      ensures State() == if ok && random.Some? then old(State()).WithPending(random.value) else old(State())
    {
      if pending != [] {
        return true;
      }
      if random.None? {
        return false;
      }
      pending := random.value;
      return true;
    }

    function ResponseResumeToken(): Token
      reads this
      ensures ResponseResumeToken() == State().Offer()
    {
      if pending != [] then pending else current
    }
  }

  // ---- the protocol ----

  datatype Identity = Identity(id: nat, epoch: nat, token: Token)

  datatype Client = Client(instance: nat, memory: Identity, disk: Identity)

  datatype Message =
    | Quiet
    | Request(instance: nat, token: Token)
    | Response(identity: Identity)

  /** issued records the token of every response, by session and epoch; used holds the session ids taken. */
  datatype System = System(client: Client, session: Option<Session>, net: Message,
                           issued: map<(nat, nat), Token>, used: set<nat>)

  /** What can go wrong while the server serves a request. */
  datatype Luck = Luck(freshId: nat, random: Option<Token>, rotates: bool, hasRoom: bool)

  datatype Event =
    | Connect
    | Serve(luck: Luck)
    | Lose
    | Receive
    | RestartClient(instance: nat)
    | EndSession           // expiry, a rotated key, or a server restart
    | ExhaustNumbers       // the sequence space ran out: the session forgets its instance

  predicate Enabled(s: System, ev: Event) {
    match ev
    case Connect => s.net.Quiet?
    case Serve(luck) => s.net.Request? && luck.freshId !in s.used && (luck.random.Some? ==> WellFormed(luck.random.value))
    case Receive => s.net.Response?
    case _ => true
  }

  function Next(s: System, ev: Event): System
    requires Enabled(s, ev)
  {
    match ev
    case Connect => s.(net := Request(s.client.instance, s.client.memory.token))
    case Serve(luck) => Served(s, luck)
    case Lose => s.(net := Quiet)
    case Receive => s.(client := Stored(s.client, s.net.identity), net := Quiet)
    case RestartClient(instance) => s.(client := Client(instance, s.client.disk, s.client.disk), net := Quiet)
    case EndSession => s.(session := None)
    case ExhaustNumbers => if s.session.None? then s else s.(session := Some(s.session.value.(instance := None)))
  }

  /** The handshake branch of the server. */
  function Served(s: System, luck: Luck): System
    requires s.net.Request?
  {
    var req := s.net;
    if s.session.None? then
      var token := if WellFormed(req.token) then Some(req.token) else luck.random;
      if !luck.hasRoom || token.None? then s.(net := Quiet)
      else Answered(s, Session(luck.freshId, 1, Some(req.instance), token.value, []))
    else
      var x := s.session.value;
      if x.instance != Some(req.instance) then
        if !x.Accepts(req.token) then s.(net := Quiet)
        else
          var y := x.Acknowledged(req.token);
          if !luck.rotates then s.(session := Some(y), net := Quiet)
          else
            var z := y.(instance := Some(req.instance), epoch := y.epoch + 1);
            if z.pending == [] && luck.random.None? then s.(session := Some(z), net := Quiet)
            else Welcomed(s, if z.pending == [] then z.WithPending(luck.random.value) else z, luck)
      else
        Welcomed(s, if x.pending != [] && Verify(x.pending, req.token) then x.(current := x.pending, pending := []) else x, luck)
  }

  /** An existing session takes one more connection, unless it has too many. */
  function Welcomed(s: System, x: Session, luck: Luck): System {
    if luck.hasRoom then Answered(s, x) else s.(session := Some(x), net := Quiet)
  }

  function Answered(s: System, x: Session): System {
    s.(session := Some(x), net := Response(Identity(x.id, x.epoch, x.Offer())),
       issued := s.issued[(x.id, x.epoch) := x.Offer()], used := s.used + {x.id})
  }

  /** The client takes the response over, and the disk follows unless it already holds newer state. */
  function Stored(c: Client, r: Identity): Client {
    var newer := c.disk.id == r.id
                 && (c.disk.epoch > r.epoch || (c.disk.epoch == r.epoch && c.disk.token != [] && c.disk.token != r.token));
    c.(memory := r, disk := if newer then c.disk else r)
  }

  // ---- the invariant ----

  /** The client's stored identity is one the server issued, and no session reuses an issued id. */
  predicate Recorded(s: System) {
    && s.client.memory == s.client.disk
    && (s.client.disk.id, s.client.disk.epoch) in s.issued
    && s.issued[(s.client.disk.id, s.client.disk.epoch)] == s.client.disk.token
    && (forall k :: k in s.issued ==> k.0 in s.used)
  }

  predicate SessionSane(s: System) {
    s.session.Some? ==>
      var x := s.session.value;
      && x.Sane() && x.id in s.used
      && (forall k :: k in s.issued && k.0 == x.id ==> k.1 <= x.epoch)
      && ((x.id, x.epoch) in s.issued ==> s.issued[(x.id, x.epoch)] == x.Offer())
  }

  /** A well-formed token in the client's hands opens the live session. */
  predicate Holds(s: System) {
    s.session.Some? && WellFormed(s.client.memory.token) ==>
      s.client.memory.token == s.session.value.current || s.client.memory.token == s.session.value.pending
  }

  predicate NetSane(s: System) {
    match s.net
    case Quiet => true
    case Request(instance, token) => instance == s.client.instance && token == s.client.memory.token
    case Response(r) =>
      && (r.id, r.epoch) in s.issued && s.issued[(r.id, r.epoch)] == r.token && WellFormed(r.token)
      && (forall k :: k in s.issued && k.0 == r.id ==> k.1 <= r.epoch)
      && (s.session.Some? ==> var x := s.session.value; x.id == r.id && x.epoch == r.epoch && x.Offer() == r.token)
  }

  predicate Inv(s: System) {
    Recorded(s) && SessionSane(s) && Holds(s) && NetSane(s)
  }

  /** A client with any stored identity, and a server without a session for it. */
  function Initial(instance: nat, stored: Identity): System {
    System(Client(instance, stored, stored), None, Quiet, map[(stored.id, stored.epoch) := stored.token], {stored.id})
  }

  lemma AnsweredKeeps(s: System, x: Session)
    requires Recorded(s) && x.Sane() && s.net.Request?
    requires forall k :: k in s.issued && k.0 == x.id ==> k.1 <= x.epoch
    requires (x.id, x.epoch) in s.issued ==> s.issued[(x.id, x.epoch)] == x.Offer()
    requires WellFormed(s.client.memory.token) ==> s.client.memory.token == x.current || s.client.memory.token == x.pending
    ensures Inv(Answered(s, x))
  {
  }

  lemma ServedKeeps(s: System, luck: Luck)
    requires Inv(s) && Enabled(s, Serve(luck))
    ensures Inv(Served(s, luck))
  {
    hide Inv, Served;
    if s.session.None? {
      ServedFirst(s, luck);
    } else if s.session.value.instance == Some(s.net.instance) {
      ServedAgain(s, luck);
    } else {
      ServedOther(s, luck);
    }
  }

  lemma ServedFirst(s: System, luck: Luck)
    requires Inv(s) && Enabled(s, Serve(luck)) && s.session.None?
    ensures Inv(Served(s, luck))
  {
    hide WellFormed;
    var t := Served(s, luck);
    if t.net.Response? {
      AnsweredKeeps(s, t.session.value);
    }
  }

  /** One more connection of the instance that holds the session. */
  lemma ServedAgain(s: System, luck: Luck)
    requires Inv(s) && Enabled(s, Serve(luck)) && s.session.Some? && s.session.value.instance == Some(s.net.instance)
    ensures Inv(Served(s, luck))
  {
    hide WellFormed;
    var t := Served(s, luck);
    if t.net.Response? {
      AnsweredKeeps(s, t.session.value);
    }
  }

  /** Another instance, which has to present a token. */
  lemma ServedOther(s: System, luck: Luck)
    requires Inv(s) && Enabled(s, Serve(luck)) && s.session.Some? && s.session.value.instance != Some(s.net.instance)
    ensures Inv(Served(s, luck))
  {
    hide WellFormed;
    var t := Served(s, luck);
    if t.net.Response? {
      AnsweredKeeps(s, t.session.value);
    }
  }

  lemma StepKeeps(s: System, ev: Event)
    requires Inv(s) && Enabled(s, ev)
    ensures Inv(Next(s, ev))
  {
    hide WellFormed;
    if ev.Serve? {
      ServedKeeps(s, ev.luck);
    }
  }

  ghost predicate Reaches(s: System, evs: seq<Event>, t: System)
    decreases |evs|
  {
    if evs == [] then t == s else Enabled(s, evs[0]) && Reaches(Next(s, evs[0]), evs[1..], t)
  }

  lemma {:induction false} RunKeeps(s: System, evs: seq<Event>, t: System)
    requires Inv(s) && Reaches(s, evs, t)
    ensures Inv(t)
    decreases |evs|
  {
    if evs != [] {
      StepKeeps(s, evs[0]);
      RunKeeps(Next(s, evs[0]), evs[1..], t);
    }
  }

  // ---- what the runs promise ----

  /**
   No holder of a well-formed token is ever locked out: in every reachable state the token
   is the live session's current or pending one, and a request with it is accepted.
   */
  lemma NoLockout(instance: nat, stored: Identity, evs: seq<Event>, t: System)
    requires Reaches(Initial(instance, stored), evs, t)
    ensures t.client.memory == t.client.disk
    ensures t.session.Some? && WellFormed(t.client.memory.token) ==>
              t.client.memory.token == t.session.value.current || t.client.memory.token == t.session.value.pending
    ensures t.net.Request? && t.session.Some? ==>
              (t.session.value.Accepts(t.net.token) <==> WellFormed(t.client.memory.token))
  {
    RunKeeps(Initial(instance, stored), evs, t);
  }

  /** All responses within one session epoch carry the same token. */
  lemma OneTokenPerEpoch(instance: nat, stored: Identity, evs: seq<Event>, t: System, more: seq<Event>, u: System, k: (nat, nat))
    requires Reaches(Initial(instance, stored), evs, t) && Reaches(t, more, u) && k in t.issued
    ensures k in u.issued && u.issued[k] == t.issued[k]
  {
    RunKeeps(Initial(instance, stored), evs, t);
    IssuedStays(t, more, u, k);
  }

  lemma IssuedOnce(s: System, ev: Event, k: (nat, nat))
    requires Inv(s) && Enabled(s, ev) && k in s.issued
    ensures k in Next(s, ev).issued && Next(s, ev).issued[k] == s.issued[k]
  {
    hide WellFormed;
  }

  lemma {:induction false} IssuedStays(t: System, more: seq<Event>, u: System, k: (nat, nat))
    requires Inv(t) && Reaches(t, more, u) && k in t.issued
    ensures k in u.issued && u.issued[k] == t.issued[k]
    decreases |more|
  {
    hide Inv, Next, Enabled;
    if more != [] {
      StepKeeps(t, more[0]);
      IssuedOnce(t, more[0], k);
      IssuedStays(Next(t, more[0]), more[1..], u, k);
    }
  }

  /**
   The limit of the promise: a new client that never received its first response holds no
   token, and after a restart it is refused until the session expires.
   */
  lemma LostFirstResponse(token: Token, id: nat)
    requires WellFormed(token) && id != 0
    ensures var luck := Luck(id, Some(token), true, true);
            var evs := [Connect, Serve(luck), Lose, RestartClient(1), Connect];
            exists t :: Reaches(Initial(0, Identity(0, 0, [])), evs, t)
                        && t.net.Request? && t.session.Some? && !t.session.value.Accepts(t.net.token)
  {
    hide WellFormed;
    var s := Initial(0, Identity(0, 0, []));
    var luck := Luck(id, Some(token), true, true);
    var s1 := Next(s, Connect);
    assert !WellFormed(s1.net.token) by { EmptyIsMalformed(); }
    var s2 := Next(s1, Serve(luck));
    var s3 := Next(s2, Lose);
    var s4 := Next(s3, RestartClient(1));
    var t := Next(s4, Connect);
    var evs := [Connect, Serve(luck), Lose, RestartClient(1), Connect];
    assert Reaches(t, evs[1..][1..][1..][1..][1..], t);
    assert Reaches(s4, evs[1..][1..][1..][1..], t);
    assert Reaches(s3, evs[1..][1..][1..], t);
    assert Reaches(s2, evs[1..][1..], t);
    assert Reaches(s1, evs[1..], t);
  }

  lemma EmptyIsMalformed()
    ensures !WellFormed([])
  {
  }
}
