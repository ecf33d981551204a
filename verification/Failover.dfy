/** Round-robin failover over a pool of coordinators that share one cursor. */
module Failover {
  import opened Base
  import opened Discovery
  import opened Division

  // ---------------------------------------------------------------- one call

  /** What each attempt of one call would answer, given how many attempts came before
      it and which coordinator it goes to. */
  type Operation<T> = (nat, nat) -> Result<T, DiscoveryError>

  /** The coordinator tried at `offset`, for a call that drew `ticket`. */
  function Candidate(ticket: nat, offset: nat, poolLen: nat): (index: nat)
    requires poolLen > 0
    ensures index < poolLen
  {
    (ticket % poolLen + offset) % poolLen
  }

  function Answer<T>(operation: Operation<T>, ticket: nat, offset: nat, poolLen: nat): Result<T, DiscoveryError>
    requires poolLen > 0
  {
    operation(offset, Candidate(ticket, offset, poolLen))
  }

  predicate MovesOn<T>(answer: Result<T, DiscoveryError>) {
    answer.Err? && answer.error.IsRetriable()
  }

  /** `attempts` is where the call stops: the first answer that is a success or an
      error no other coordinator would change, or the whole pool. */
  ghost predicate StopsAfter<T>(operation: Operation<T>, ticket: nat, poolLen: nat, attempts: nat)
    requires poolLen > 0
  {
    && 1 <= attempts <= poolLen
    && (forall k :: 0 <= k < attempts - 1 ==> MovesOn(Answer(operation, ticket, k, poolLen)))
    && (attempts < poolLen ==> !MovesOn(Answer(operation, ticket, attempts - 1, poolLen)))
  }

  /** Where a call stops, by what the answers were: every coordinator before the last failed
      in a way that may pass, and the last did not, unless it was the last of the pool. */
  ghost predicate StopsByAnswers<T>(operation: Operation<T>, ticket: nat, poolLen: nat, attempts: nat)
    requires poolLen > 0
  {
    && 1 <= attempts <= poolLen
    && (forall k :: 0 <= k < attempts - 1 ==>
          var answer := Answer(operation, ticket, k, poolLen);
          answer.Err? && Transient(answer.error))
    && (attempts < poolLen ==>
          var answer := Answer(operation, ticket, attempts - 1, poolLen);
          answer.Ok? || !Transient(answer.error))
  }

  lemma StopsWhereAnswersSay<T>(operation: Operation<T>, ticket: nat, poolLen: nat, attempts: nat)
    requires poolLen > 0
    ensures StopsAfter(operation, ticket, poolLen, attempts) <==> StopsByAnswers(operation, ticket, poolLen, attempts)
  {
    forall k | 0 <= k < attempts
      ensures var answer := Answer(operation, ticket, k, poolLen);
              MovesOn(answer) <==> answer.Err? && Transient(answer.error)
    {
      var answer := Answer(operation, ticket, k, poolLen);
      if answer.Err? {
        RetriableIsTransient(answer.error);
      }
    }
  }

  /** The candidates of one call are the pool, each coordinator once, in rotation order. */
  lemma CandidatesRotate(ticket: nat, poolLen: nat)
    requires poolLen > 0
    ensures Candidate(ticket, 0, poolLen) == ticket % poolLen
    ensures forall k :: 0 <= k < poolLen - 1 ==>
              Candidate(ticket, k + 1, poolLen)
              == if Candidate(ticket, k, poolLen) == poolLen - 1 then 0 else Candidate(ticket, k, poolLen) + 1
    ensures forall i, j :: 0 <= i < j < poolLen ==> Candidate(ticket, i, poolLen) != Candidate(ticket, j, poolLen)
  {
    var start := ticket % poolLen;
    forall k | 0 <= k < poolLen
      ensures Candidate(ticket, k, poolLen) == if start + k < poolLen then start + k else start + k - poolLen
    {
      ModStep(start + k, poolLen);
    }
  }

  class CoordinatorPool {
    const poolLen: nat
    var cursor: u64

    constructor (poolLen: nat)
      requires poolLen > 0
      ensures this.poolLen == poolLen && cursor == 0
    {
      this.poolLen := poolLen;
      cursor := 0;
    }

    /** Draws the next ticket; this is the call's only touch of the shared cursor. */
    method FetchAddCursor() returns (ticket: u64)
      modifies this
      ensures ticket == old(cursor) && cursor == (old(cursor) + 1) % U64_MODULUS
    {
      ticket := cursor;
      cursor := (cursor + 1) % U64_MODULUS;
    }

    /** Tries coordinators in rotation order from the drawn ticket, stops exactly where
        the retry rule says, and returns that attempt's answer. */
    method TryEach<T>(operation: Operation<T>) returns (r: Result<T, DiscoveryError>, tried: seq<nat>)
      requires poolLen > 0
      modifies this
      ensures cursor == (old(cursor) + 1) % U64_MODULUS
      ensures StopsAfter(operation, old(cursor), poolLen, |tried|)
      ensures StopsByAnswers(operation, old(cursor), poolLen, |tried|)
      ensures forall k :: 0 <= k < |tried| ==> tried[k] == Candidate(old(cursor), k, poolLen)
      ensures r == Answer(operation, old(cursor), |tried| - 1, poolLen)
    {
      var ticket := FetchAddCursor();
      var start := ticket % poolLen;
      var lastError: Option<DiscoveryError> := None;
      tried := [];
      for offset := 0 to poolLen
        invariant |tried| == offset
        invariant forall k :: 0 <= k < offset ==> tried[k] == Candidate(ticket, k, poolLen)
        invariant forall k :: 0 <= k < offset ==> MovesOn(Answer(operation, ticket, k, poolLen))
        invariant offset > 0 ==>
                    lastError.Some? && Answer(operation, ticket, offset - 1, poolLen) == Err(lastError.value)
      {
        var index := (start + offset) % poolLen;
        tried := tried + [index];
        var answer := operation(offset, index);
        match answer {
          case Ok(value) =>
            StopsWhereAnswersSay(operation, ticket, poolLen, |tried|);
            return Ok(value), tried;
          case Err(error) =>
            if !error.IsRetriable() {
              StopsWhereAnswersSay(operation, ticket, poolLen, |tried|);
              return Err(error), tried;
            }
            lastError := Some(error);
        }
      }
      StopsWhereAnswersSay(operation, ticket, poolLen, |tried|);
      r := Err(lastError.value);
    }
  }

  /** A pool is built exactly when it would hold a coordinator. */
  method NewPool(clients: nat) returns (r: Result<CoordinatorPool, DiscoveryError>)
    ensures r.Err? <==> clients == 0
    ensures r.Err? ==> !r.error.IsRetriable()
    ensures r.Ok? ==> fresh(r.value) && r.value.poolLen == clients && r.value.cursor == 0
  {
    if clients == 0 {
      return Err(Url("coordinator pool must hold at least one client"));
    }
    var pool := new CoordinatorPool(clients);
    r := Ok(pool);
  }

  // --------------------------------------------------- any number of calls

  /** One call under way: the ticket it drew and the attempts it has made. */
  datatype Call = Call(ticket: u64, attempts: nat, over: bool)

  datatype PoolState = PoolState(cursor: u64, calls: seq<Call>)

  datatype PoolStep = Begin | Attempt(which: nat, movesOn: bool)

  /** Calls begin and attempt in any interleaving; only Begin touches the cursor. */
  function PoolApply(s: PoolState, poolLen: nat, step: PoolStep): PoolState {
    match step
    case Begin => PoolState((s.cursor + 1) % U64_MODULUS, s.calls + [Call(s.cursor, 0, false)])
    case Attempt(which, movesOn) =>
      if which >= |s.calls| || s.calls[which].over then s
      else
        var call := s.calls[which];
        s.(calls := s.calls[which := Call(call.ticket, call.attempts + 1, !movesOn || call.attempts + 1 >= poolLen)])
  }

  function PoolExec(s: PoolState, poolLen: nat, steps: seq<PoolStep>): PoolState
    decreases |steps|
  {
    if steps == [] then s else PoolExec(PoolApply(s, poolLen, steps[0]), poolLen, steps[1..])
  }

  /** Tickets come out in the order the calls began, with no gap and no repeat but for
      the 64-bit wrap. */
  ghost predicate TicketsInOrder(s: PoolState, first: u64) {
    && s.cursor == (first + |s.calls|) % U64_MODULUS
    && forall k :: 0 <= k < |s.calls| ==> s.calls[k].ticket == (first + k) % U64_MODULUS
  }

  lemma {:induction false} TicketsStayInOrder(s: PoolState, first: u64, poolLen: nat, steps: seq<PoolStep>)
    requires TicketsInOrder(s, first)
    ensures TicketsInOrder(PoolExec(s, poolLen, steps), first)
    decreases |steps|
  {
    if steps == [] {
    } else {
      RemainderStep(first + |s.calls|, U64_MODULUS);
      TicketsStayInOrder(PoolApply(s, poolLen, steps[0]), first, poolLen, steps[1..]);
    }
  }

  /** How many of these calls have coordinator `index` as their first choice. */
  function FirstChoices(calls: seq<Call>, index: nat, poolLen: nat): nat
    requires poolLen > 0
  {
    if calls == [] then 0
    else
      FirstChoices(calls[..|calls| - 1], index, poolLen)
      + (if Candidate(calls[|calls| - 1].ticket, 0, poolLen) == index then 1 else 0)
  }

  /** Numbers below `bound` that leave remainder `index`. */
  function Below(bound: nat, index: nat, poolLen: nat): nat
    requires poolLen > 0
  {
    if bound == 0 then 0 else Below(bound - 1, index, poolLen) + (if (bound - 1) % poolLen == index then 1 else 0)
  }

  /** After q full rounds, the first r numbers of the next hit every index below r once. */
  lemma {:induction false} BelowRound(base: nat, q: nat, r: nat, index: nat, poolLen: nat)
    requires index < poolLen && r <= poolLen && base == q * poolLen
    ensures Below(base + r, index, poolLen) == Below(base, index, poolLen) + (if index < r then 1 else 0)
    decreases r
  {
    if r == 0 {
    } else {
      BelowRound(base, q, r - 1, index, poolLen);
      ModUnique(base + r - 1, poolLen, q, r - 1);
    }
  }

  lemma {:induction false} BelowRounds(q: nat, index: nat, poolLen: nat)
    requires index < poolLen
    ensures Below(q * poolLen, index, poolLen) == q
    decreases q
  {
    if q == 0 {
    } else {
      BelowRounds(q - 1, index, poolLen);
      BelowRound((q - 1) * poolLen, q - 1, poolLen, index, poolLen);
      Regroup(q - 1, 0, 1, poolLen, 0, poolLen);
    }
  }

  /** With bound = q·n + r: one per full round, and one more if the last round got there. */
  lemma BelowExact(q: nat, r: nat, index: nat, poolLen: nat)
    requires index < poolLen && r < poolLen
    ensures Below(q * poolLen + r, index, poolLen) == q + (if index < r then 1 else 0)
  {
    BelowRounds(q, index, poolLen);
    BelowRound(q * poolLen, q, r, index, poolLen);
  }

  lemma {:induction false} ChoicesAreBelow(calls: seq<Call>, first: nat, index: nat, poolLen: nat)
    requires poolLen > 0
    requires forall k :: 0 <= k < |calls| ==> calls[k].ticket % poolLen == (first + k) % poolLen
    ensures FirstChoices(calls, index, poolLen)
            == Below(first + |calls|, index, poolLen) - Below(first, index, poolLen)
    decreases |calls|
  {
    if calls == [] {
    } else {
      ChoicesAreBelow(calls[..|calls| - 1], first, index, poolLen);
      CandidateOfTicket(calls[|calls| - 1].ticket, poolLen);
    }
  }

  lemma CandidateOfTicket(ticket: nat, poolLen: nat)
    requires poolLen > 0
    ensures Candidate(ticket, 0, poolLen) == ticket % poolLen
  {
    ModStep(ticket % poolLen, poolLen);
  }

  /** From first = qa·n + ra, the next m = qm·n + rm tickets fall on each coordinator
      qm times, or once more. */
  lemma ConsecutiveTickets(qa: nat, ra: nat, qm: nat, rm: nat, index: nat, poolLen: nat)
    requires index < poolLen && ra < poolLen && rm < poolLen
    ensures var first, m := qa * poolLen + ra, qm * poolLen + rm;
            qm <= Below(first + m, index, poolLen) - Below(first, index, poolLen) <= qm + (if rm == 0 then 0 else 1)
  {
    BelowExact(qa, ra, index, poolLen);
    if ra + rm >= poolLen {
      Regroup(qa, qm, 1, ra, rm, poolLen);
      BelowExact(qa + qm + 1, ra + rm - poolLen, index, poolLen);
    } else {
      Regroup(qa, qm, 0, ra, rm, poolLen);
      BelowExact(qa + qm, ra + rm, index, poolLen);
    }
  }

  lemma TicketsSpread(first: nat, m: nat, index: nat, poolLen: nat)
    requires index < poolLen
    ensures var hits := Below(first + m, index, poolLen) - Below(first, index, poolLen);
            m / poolLen <= hits <= m / poolLen + (if m % poolLen == 0 then 0 else 1)
  {
    DivMod(first, poolLen);
    DivMod(m, poolLen);
    ConsecutiveTickets(first / poolLen, first % poolLen, m / poolLen, m % poolLen, index, poolLen);
  }

  /** Coordinator `index` is first choice floor(m/n) or ceil(m/n) times in m calls. */
  ghost predicate FairShare(calls: seq<Call>, index: nat, poolLen: nat)
    requires poolLen > 0
  {
    var m := |calls|;
    m / poolLen <= FirstChoices(calls, index, poolLen) <= m / poolLen + (if m % poolLen == 0 then 0 else 1)
  }

  lemma ConsecutiveIsFair(calls: seq<Call>, first: nat, index: nat, poolLen: nat)
    requires index < poolLen
    requires forall k :: 0 <= k < |calls| ==> calls[k].ticket % poolLen == (first + k) % poolLen
    ensures FairShare(calls, index, poolLen)
  {
    ChoicesAreBelow(calls, first, index, poolLen);
    TicketsSpread(first, |calls|, index, poolLen);
  }

  lemma TicketsBelowWrap(calls: seq<Call>, first: nat)
    requires first + |calls| <= U64_MODULUS
    requires forall k :: 0 <= k < |calls| ==> calls[k].ticket == (first + k) % U64_MODULUS
    ensures forall k :: 0 <= k < |calls| ==> calls[k].ticket == first + k
  {
    forall k | 0 <= k < |calls|
      ensures calls[k].ticket == first + k
    {
      SmallMod(first + k, U64_MODULUS);
    }
  }

  /** Fairness: whatever the interleaving of any number of calls, before the cursor
      wraps every coordinator is first choice floor(m/n) or ceil(m/n) times. */
  lemma FirstChoiceFairness(start: PoolState, poolLen: nat, steps: seq<PoolStep>, index: nat)
    requires index < poolLen && start.calls == []
    requires start.cursor + |PoolExec(start, poolLen, steps).calls| <= U64_MODULUS
    ensures FairShare(PoolExec(start, poolLen, steps).calls, index, poolLen)
  {
    var calls := PoolExec(start, poolLen, steps).calls;
    SmallMod(start.cursor, U64_MODULUS);
    TicketsStayInOrder(start, start.cursor, poolLen, steps);
    TicketsBelowWrap(calls, start.cursor);
    ConsecutiveIsFair(calls, start.cursor, index, poolLen);
  }

  /** Every run of a pool of this size is fair, however often its cursor wraps. */
  ghost predicate AlwaysFair(poolLen: nat)
    requires poolLen > 0
  {
    forall start: PoolState, steps: seq<PoolStep>, index: nat ::
      index < poolLen && start.calls == [] ==> FairShare(PoolExec(start, poolLen, steps).calls, index, poolLen)
  }

  /** The exact boundary: calls are spread evenly in every run, across any number of
      wraps, if and only if the pool size divides 2^64. */
  lemma AlwaysFairIff(poolLen: nat)
    requires poolLen > 0
    ensures AlwaysFair(poolLen) <==> U64_MODULUS % poolLen == 0
  {
    if U64_MODULUS % poolLen == 0 {
      forall start: PoolState, steps: seq<PoolStep>, index: nat | index < poolLen && start.calls == []
        ensures FairShare(PoolExec(start, poolLen, steps).calls, index, poolLen)
      {
        DividingPoolIsFair(start, poolLen, steps, index);
      }
    } else {
      var start, steps := UnfairRun(poolLen);
      assert !FairShare(PoolExec(start, poolLen, steps).calls, 0, poolLen);
    }
  }

  lemma DividingPoolIsFair(start: PoolState, poolLen: nat, steps: seq<PoolStep>, index: nat)
    requires index < poolLen && start.calls == [] && U64_MODULUS % poolLen == 0
    ensures FairShare(PoolExec(start, poolLen, steps).calls, index, poolLen)
  {
    var calls := PoolExec(start, poolLen, steps).calls;
    SmallMod(start.cursor, U64_MODULUS);
    TicketsStayInOrder(start, start.cursor, poolLen, steps);
    forall k | 0 <= k < |calls|
      ensures calls[k].ticket % poolLen == (start.cursor + k) % poolLen
    {
      ModOfMod(start.cursor + k, U64_MODULUS, poolLen);
    }
    ConsecutiveIsFair(calls, start.cursor, index, poolLen);
  }

  function Begins(count: nat): seq<PoolStep> {
    seq(count, _ => Begin)
  }

  lemma {:induction false} BeginsMakeCalls(s: PoolState, poolLen: nat, count: nat)
    ensures |PoolExec(s, poolLen, Begins(count)).calls| == |s.calls| + count
    decreases count
  {
    if count == 0 {
    } else {
      assert Begins(count)[0] == Begin && Begins(count)[1..] == Begins(count - 1);
      BeginsMakeCalls(PoolApply(s, poolLen, Begin), poolLen, count - 1);
    }
  }

  /** If n does not divide 2^64, the last ticket before the wrap that falls on coordinator 0
      and the first one after it are fewer than n calls apart. */
  lemma UnfairRun(poolLen: nat) returns (start: PoolState, steps: seq<PoolStep>)
    requires poolLen > 0 && U64_MODULUS % poolLen != 0
    ensures start.calls == [] && !FairShare(PoolExec(start, poolLen, steps).calls, 0, poolLen)
  {
    var r := U64_MODULUS % poolLen;
    DivMod(U64_MODULUS, poolLen);
    var first := (U64_MODULUS / poolLen) * poolLen;
    start, steps := PoolState(first, []), Begins(r + 1);
    var calls := PoolExec(start, poolLen, steps).calls;
    BeginsMakeCalls(start, poolLen, r + 1);
    SmallMod(first, U64_MODULUS);
    TicketsStayInOrder(start, first, poolLen, steps);
    assert calls[0].ticket == first by { SmallMod(first, U64_MODULUS); }
    assert calls[r].ticket == 0 by { ModUnique(first + r, U64_MODULUS, 1, 0); }
    ModUnique(first, poolLen, U64_MODULUS / poolLen, 0);
    SmallMod(0, poolLen);
    TwoHits(calls, 0, r, 0, poolLen);
    if r + 1 < poolLen {
      SmallMod(r + 1, poolLen);
    } else {
      ModUnique(poolLen, poolLen, 1, 0);
    }
  }

  lemma {:induction false} TwoHits(calls: seq<Call>, a: nat, b: nat, index: nat, poolLen: nat)
    requires a < b < |calls| && poolLen > 0
    requires calls[a].ticket % poolLen == index == calls[b].ticket % poolLen
    ensures FirstChoices(calls, index, poolLen) >= 2
    decreases |calls|
  {
    var init := calls[..|calls| - 1];
    CandidateOfTicket(calls[|calls| - 1].ticket, poolLen);
    if b == |calls| - 1 {
      OneHit(init, a, index, poolLen);
    } else {
      TwoHits(init, a, b, index, poolLen);
    }
  }

  lemma {:induction false} OneHit(calls: seq<Call>, a: nat, index: nat, poolLen: nat)
    requires a < |calls| && poolLen > 0 && calls[a].ticket % poolLen == index
    ensures FirstChoices(calls, index, poolLen) >= 1
    decreases |calls|
  {
    CandidateOfTicket(calls[|calls| - 1].ticket, poolLen);
    if a == |calls| - 1 {
    } else {
      OneHit(calls[..|calls| - 1], a, index, poolLen);
    }
  }

  /** At the wrap the rotation carries on unbroken only if the pool size divides 2^64. */
  lemma RotationSurvivesWrapIff(poolLen: nat)
    requires poolLen > 0
    ensures var last := U64_MODULUS - 1;
            Candidate((last + 1) % U64_MODULUS, 0, poolLen) == Candidate(last, 1, poolLen)
            <==> U64_MODULUS % poolLen == 0
  {
    var last := U64_MODULUS - 1;
    CandidateOfTicket(0, poolLen);
    SmallMod(0, poolLen);
    RemainderStep(last, poolLen);
  }
}
