/** The session bootstrap: verify the invite, register through the pool, verify the
    token, then match with the coordinator that issued it and no other. */
module Bootstrap {
  import opened Base
  import opened Discovery
  import opened Failover

  type PeerId = Octets16

  datatype Claims = Claims(sub: PeerId)

  datatype RegisterAck = RegisterAck(sessionToken: Bytes)

  datatype MatchResponse =
    | SingleHop(cohort: Octets16, exitSet: seq<Octets16>)
    | MultiHopAssignment

  datatype Session = Session(token: string, claims: Claims, cohort: Octets16, exits: seq<Octets16>)

  /** What the peer cannot choose: whether the invite verifies, how each coordinator
      answers, how bytes read as text, and which tokens verify. */
  datatype World = World(
    invite: Result<(), DiscoveryError>,
    register: (nat, nat) -> Result<RegisterAck, DiscoveryError>,
    utf8: Bytes -> Option<string>,
    verify: string -> Result<Claims, string>,
    matching: (nat, string) -> Result<MatchResponse, DiscoveryError>)

  /** One request on the wire, to the coordinator at this index. */
  datatype Request = RegisterWith(coordinator: nat) | MatchWith(coordinator: nat, token: string)

  function RegisterOperation(world: World): Operation<(nat, RegisterAck)> {
    (attempt: nat, coordinator: nat) =>
      match world.register(attempt, coordinator)
      case Ok(ack) => Ok((coordinator, ack))
      case Err(error) => Err(error)
  }

  function Registrations(tried: seq<nat>): seq<Request> {
    seq(|tried|, i requires 0 <= i < |tried| => RegisterWith(tried[i]))
  }

  /** The token coordinator `c` gave at attempt `k`, if it reads as text and verifies
      for this very peer. */
  ghost predicate TokenGood(world: World, k: nat, c: nat, peer: PeerId, token: string) {
    && world.register(k, c).Ok?
    && world.utf8(world.register(k, c).value.sessionToken) == Some(token)
    && world.verify(token).Ok? && world.verify(token).value.sub == peer
  }

  class SessionBootstrap {
    const pool: CoordinatorPool

    constructor (pool: CoordinatorPool)
      ensures this.pool == pool
    {
      this.pool := pool;
    }

    /** The wire trace is the registrations, then at most one match: sent exactly when
        the invite verified and the last coordinator tried gave a good token, and sent
        to that coordinator, with that token. Nothing follows it. */
    method Bootstrap(world: World, peer: PeerId)
      returns (r: Result<Session, DiscoveryError>, trace: seq<Request>)
      requires pool.poolLen > 0
      modifies pool
      ensures world.invite.Err? ==> r == Err(world.invite.error) && trace == [] && pool.cursor == old(pool.cursor)
      ensures world.invite.Ok? ==> pool.cursor == (old(pool.cursor) + 1) % U64_MODULUS
      ensures world.invite.Ok? ==>
                exists tried: seq<nat> :: Explains(world, peer, old(pool.cursor), pool.poolLen, tried, r, trace)
      ensures MatchedWithIssuer(world, peer, old(pool.cursor), pool.poolLen, trace)
      ensures r.Ok? ==> FromLastMatch(world, peer, r.value, trace)
      ensures RegisteredByAnswers(world, old(pool.cursor), pool.poolLen, trace)
      ensures world.invite.Ok? ==> trace != [] && EndsByLastAnswer(world, peer, r, trace)
    {
      match world.invite {
        case Err(error) => return Err(error), [];
        case Ok(_) =>
      }
      var registered, tried := pool.TryEach(RegisterOperation(world));
      trace := Registrations(tried);
      if registered.Err? {
        r := Err(registered.error);
        assert Explains(world, peer, old(pool.cursor), pool.poolLen, tried, r, trace);
        FlowIsAffine(world, peer, old(pool.cursor), pool.poolLen, tried, r, trace);
        FlowFollowsAnswers(world, peer, old(pool.cursor), pool.poolLen, tried, r, trace);
        return;
      }
      var (chosen, ack) := registered.value;
      var token := world.utf8(ack.sessionToken);
      if token.None? {
        r := Err(Url("session token not utf-8"));
        assert Explains(world, peer, old(pool.cursor), pool.poolLen, tried, r, trace);
        FlowIsAffine(world, peer, old(pool.cursor), pool.poolLen, tried, r, trace);
        FlowFollowsAnswers(world, peer, old(pool.cursor), pool.poolLen, tried, r, trace);
        return;
      }
      var claims := world.verify(token.value);
      if claims.Err? {
        r := Err(Url("session token verify"));
        assert Explains(world, peer, old(pool.cursor), pool.poolLen, tried, r, trace);
        FlowIsAffine(world, peer, old(pool.cursor), pool.poolLen, tried, r, trace);
        FlowFollowsAnswers(world, peer, old(pool.cursor), pool.poolLen, tried, r, trace);
        return;
      }
      if claims.value.sub != peer {
        r := Err(Url("session token subject mismatch"));
        assert Explains(world, peer, old(pool.cursor), pool.poolLen, tried, r, trace);
        FlowIsAffine(world, peer, old(pool.cursor), pool.poolLen, tried, r, trace);
        FlowFollowsAnswers(world, peer, old(pool.cursor), pool.poolLen, tried, r, trace);
        return;
      }
      assert TokenGood(world, |tried| - 1, chosen, peer, token.value);
      trace := trace + [MatchWith(chosen, token.value)];
      var response := world.matching(chosen, token.value);
      match response {
        case Err(error) => r := Err(error);
        case Ok(MultiHopAssignment) => r := Err(Url("coordinator returned a multi-hop assignment"));
        case Ok(SingleHop(cohort, exitSet)) => r := Ok(Session(token.value, claims.value, cohort, exitSet));
      }
      assert Explains(world, peer, old(pool.cursor), pool.poolLen, tried, r, trace);
      FlowIsAffine(world, peer, old(pool.cursor), pool.poolLen, tried, r, trace);
      FlowFollowsAnswers(world, peer, old(pool.cursor), pool.poolLen, tried, r, trace);
    }
  }

  /** Affinity, read off the trace: a match request is the last request; it went to the
      coordinator of the rotation registered with just before it, and carries the token
      that coordinator's own answer gave, verified for this peer. */
  ghost predicate MatchedWithIssuer(world: World, peer: PeerId, ticket: nat, poolLen: nat, trace: seq<Request>)
    requires poolLen > 0
  {
    forall i :: 0 <= i < |trace| && IsMatch(trace[i]) ==>
                  && i == |trace| - 1 && 1 <= i <= poolLen
                  && trace[i - 1] == RegisterWith(trace[i].coordinator)
                  && trace[i].coordinator == Candidate(ticket, i - 1, poolLen)
                  && TokenGood(world, i - 1, trace[i].coordinator, peer, trace[i].token)
  }

  /** The session holds the token of the trace's last request, a match, and its answer. */
  ghost predicate FromLastMatch(world: World, peer: PeerId, session: Session, trace: seq<Request>) {
    && trace != [] && IsMatch(trace[|trace| - 1])
    && session.token == trace[|trace| - 1].token && session.claims.sub == peer
    && world.matching(trace[|trace| - 1].coordinator, session.token)
       == Ok(MatchResponse.SingleHop(session.cohort, session.exits))
  }

  /** These coordinators, in rotation order and no further than the retry rule goes, were
      registered with, and the rest of the flow is as it should be. */
  ghost predicate Explains(world: World, peer: PeerId, ticket: nat, poolLen: nat, tried: seq<nat>,
                           r: Result<Session, DiscoveryError>, trace: seq<Request>)
    requires poolLen > 0
  {
    && StopsAfter(RegisterOperation(world), ticket, poolLen, |tried|)
    && (forall k :: 0 <= k < |tried| ==> tried[k] == Candidate(ticket, k, poolLen))
    && FollowsRegistration(world, peer, tried, r, trace)
  }

  /** Registration went on from one coordinator to the next exactly while it failed in a way
      that may pass and there was a next. */
  ghost predicate RegisteredByAnswers(world: World, ticket: nat, poolLen: nat, trace: seq<Request>)
    requires poolLen > 0
  {
    forall i :: 0 <= i < |trace| && trace[i].RegisterWith? ==>
                  var answer := world.register(i, trace[i].coordinator);
                  && i < poolLen && trace[i].coordinator == Candidate(ticket, i, poolLen)
                  && (i + 1 < |trace| && trace[i + 1].RegisterWith?
                      <==> answer.Err? && Transient(answer.error) && i + 1 < poolLen)
  }

  /** The result is that of the last request: a failed registration's own error, a fault of
      the token, a failed match's own error, or a session. */
  ghost predicate EndsByLastAnswer(world: World, peer: PeerId, r: Result<Session, DiscoveryError>,
                                   trace: seq<Request>)
    requires trace != []
  {
    var k := |trace| - 1;
    match trace[k]
    case RegisterWith(c) =>
      (match world.register(k, c)
       case Err(error) => r == Err(error)
       case Ok(_) => r.Err? && !Transient(r.error) && !exists token :: TokenGood(world, k, c, peer, token))
    case MatchWith(c, token) =>
      (match world.matching(c, token)
       case Err(error) => r == Err(error)
       case Ok(MultiHopAssignment) => r.Err? && !Transient(r.error)
       case Ok(SingleHop(cohort, exitSet)) => r.Ok? && r.value.cohort == cohort && r.value.exits == exitSet)
  }

  lemma FlowFollowsAnswers(world: World, peer: PeerId, ticket: nat, poolLen: nat, tried: seq<nat>,
                           r: Result<Session, DiscoveryError>, trace: seq<Request>)
    requires poolLen > 0 && Explains(world, peer, ticket, poolLen, tried, r, trace)
    ensures RegisteredByAnswers(world, ticket, poolLen, trace)
    ensures trace != [] && EndsByLastAnswer(world, peer, r, trace)
  {
    StopsWhereAnswersSay(RegisterOperation(world), ticket, poolLen, |tried|);
    forall k | 0 <= k < |tried|
      ensures var answer := Answer(RegisterOperation(world), ticket, k, poolLen);
              var ack := world.register(k, tried[k]);
              answer.Err? <==> ack.Err? && (ack.Err? ==> answer.error == ack.error)
    {
    }
    if r.Err? {
      RetriableIsTransient(r.error);
    }
  }

  lemma FlowIsAffine(world: World, peer: PeerId, ticket: nat, poolLen: nat, tried: seq<nat>,
                     r: Result<Session, DiscoveryError>, trace: seq<Request>)
    requires poolLen > 0 && Explains(world, peer, ticket, poolLen, tried, r, trace)
    ensures MatchedWithIssuer(world, peer, ticket, poolLen, trace)
    ensures r.Ok? ==> FromLastMatch(world, peer, r.value, trace)
  {
  }

  /** What the rest of the flow does once the pool has tried these coordinators. */
  ghost predicate FollowsRegistration(world: World, peer: PeerId, tried: seq<nat>,
                                      r: Result<Session, DiscoveryError>, trace: seq<Request>)
    requires |tried| > 0
  {
    var k := |tried| - 1;
    var chosen := tried[k];
    if world.register(k, chosen).Err? then
      r == Err(world.register(k, chosen).error) && trace == Registrations(tried)
    else if exists token :: TokenGood(world, k, chosen, peer, token) then
      exists token ::
        && TokenGood(world, k, chosen, peer, token)
        && trace == Registrations(tried) + [MatchWith(chosen, token)]
        && match world.matching(chosen, token)
           case Err(error) => r == Err(error)
           case Ok(MultiHopAssignment) => r.Err? && !r.error.IsRetriable()
           case Ok(SingleHop(cohort, exitSet)) =>
             r == Ok(Session(token, world.verify(token).value, cohort, exitSet))
    else
      r.Err? && !r.error.IsRetriable() && trace == Registrations(tried)
  }

  ghost predicate IsMatch(request: Request) {
    request.MatchWith?
  }

  /** Affinity, read off the trace: any match request is the last request, went to the
      coordinator registered with just before it, and carries the token that
      coordinator's own answer gave, verified for this peer. */
  lemma MatchAffinity(world: World, peer: PeerId, tried: seq<nat>, r: Result<Session, DiscoveryError>,
                      trace: seq<Request>, i: nat)
    requires |tried| > 0 && FollowsRegistration(world, peer, tried, r, trace)
    requires i < |trace| && IsMatch(trace[i])
    ensures i == |trace| - 1 && i == |tried|
    ensures trace[i - 1] == RegisterWith(trace[i].coordinator)
    ensures TokenGood(world, i - 1, trace[i].coordinator, peer, trace[i].token)
  {
  }

  /** A session is returned exactly when the flow's four answers are all good, and then
      it holds the token and cohort of one and the same coordinator. */
  lemma BootstrapSucceedsIff(world: World, peer: PeerId, tried: seq<nat>, r: Result<Session, DiscoveryError>,
                             trace: seq<Request>)
    requires |tried| > 0 && FollowsRegistration(world, peer, tried, r, trace)
    ensures var k := |tried| - 1;
            r.Ok? <==>
            exists token ::
              && TokenGood(world, k, tried[k], peer, token)
              && world.matching(tried[k], token).Ok? && world.matching(tried[k], token).value.SingleHop?
    ensures r.Ok? ==> r.value.claims.sub == peer
  {
    var k := |tried| - 1;
    if token: string :|
      && TokenGood(world, k, tried[k], peer, token)
      && world.matching(tried[k], token).Ok? && world.matching(tried[k], token).value.SingleHop?
    {
      assert r.Ok?;
    }
  }
}
