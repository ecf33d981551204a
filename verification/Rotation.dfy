/** The session rotation loop: a byte counter shared with any number of adders,
    two triggers, and a compare-exchange subtraction after each rotation. */
module Rotation {
  import opened Base

  const ROTATION_INTERVAL: nat := 15 * 60
  const ROTATION_BYTE_CAP: nat := 500 * 1024 * 1024
  const BYTE_CAP_POLL_INTERVAL: nat := 5

  // ------------------------------------------------------------- the atomic cell

  class AtomicU64 {
    var value: u64

    constructor (initial: u64)
      ensures value == initial
    {
      value := initial;
    }

    method Load() returns (r: u64)
      ensures r == value
    {
      r := value;
    }

    method FetchAdd(n: u64) returns (previous: u64)
      modifies this
      ensures previous == old(value) && value == WrappingAdd(old(value), n)
    {
      previous := value;
      value := WrappingAdd(value, n);
    }

    /** May fail with no reason; a failure reports what the cell holds. */
    method CompareExchangeWeak(expected: u64, next: u64, spurious: bool) returns (r: Result<u64, u64>)
      modifies this
      ensures if old(value) == expected && !spurious
              then r == Ok(old(value)) && value == next
              else r == Err(old(value)) && value == old(value)
    {
      if value == expected && !spurious {
        r := Ok(value);
        value := next;
      } else {
        r := Err(value);
      }
    }
  }

  /** What happens before one compare-exchange: other tasks' adds, in order, and
      whether the exchange then fails for no reason. */
  datatype Turn = Turn(adds: seq<u64>, spurious: bool)

  function AddAll(value: u64, adds: seq<u64>): u64
    decreases |adds|
  {
    if adds == [] then value else AddAll(WrappingAdd(value, adds[0]), adds[1..])
  }

  function AddsOf(turns: seq<Turn>): seq<u64> {
    if turns == [] then [] else turns[0].adds + AddsOf(turns[1..])
  }

  function Sum(adds: seq<u64>): nat {
    if adds == [] then 0 else adds[0] + Sum(adds[1..])
  }

  lemma {:induction false} AddAllAppend(value: u64, first: seq<u64>, rest: seq<u64>)
    ensures AddAll(value, first + rest) == AddAll(AddAll(value, first), rest)
    decreases |first|
  {
    if first == [] {
      assert first + rest == rest;
    } else {
      assert (first + rest)[1..] == first[1..] + rest;
      AddAllAppend(WrappingAdd(value, first[0]), first[1..], rest);
    }
  }

  lemma {:induction false} AddsOfSnoc(turns: seq<Turn>, k: nat)
    requires k < |turns|
    ensures AddsOf(turns[..k + 1]) == AddsOf(turns[..k]) + turns[k].adds
    decreases k
  {
    if k == 0 {
      assert turns[..1][1..] == [];
    } else {
      AddsOfSnoc(turns[1..], k - 1);
      assert turns[..k + 1][1..] == turns[1..][..k];
      assert turns[..k][1..] == turns[1..][..k - 1];
    }
  }

  lemma {:induction false} AddAllExact(value: u64, adds: seq<u64>)
    requires value + Sum(adds) < U64_MODULUS
    ensures AddAll(value, adds) == value + Sum(adds)
    decreases |adds|
  {
    if adds == [] {
    } else {
      AddAllExact(WrappingAdd(value, adds[0]), adds[1..]);
    }
  }

  /** Whatever the adds, the cell holds their sum and what it held, modulo 2^64. */
  lemma {:induction false} AddAllModulo(value: u64, adds: seq<u64>)
    ensures AddAll(value, adds) == (value + Sum(adds)) % U64_MODULUS
    decreases |adds|
  {
    if adds == [] {
    } else {
      AddAllModulo(WrappingAdd(value, adds[0]), adds[1..]);
    }
  }

  method Interfere(counter: AtomicU64, adds: seq<u64>)
    modifies counter
    ensures counter.value == AddAll(old(counter.value), adds)
  {
    var i := 0;
    while i < |adds|
      invariant 0 <= i <= |adds|
      invariant AddAll(counter.value, adds[i..]) == AddAll(old(counter.value), adds)
    {
      assert adds[i..][1..] == adds[i + 1..];
      var _ := counter.FetchAdd(adds[i]);
      i := i + 1;
    }
  }

  /** How many turns pass before an exchange lands, if the loop last saw `value`: it
      lands at the first turn whose adds leave that value in the cell and which does
      not fail spuriously, or once no turn is left to disturb it. */
  function Lands(value: u64, turns: seq<Turn>): (n: nat)
    ensures n <= |turns|
    decreases |turns|
  {
    if turns == [] then 0
    else
      var met := AddAll(value, turns[0].adds);
      if met == value && !turns[0].spurious then 1 else 1 + Lands(met, turns[1..])
  }

  /** Every add that gets in before an exchange lands. */
  function AddsBeforeLanding(value: u64, turns: seq<Turn>): seq<u64> {
    AddsOf(turns[..Lands(value, turns)])
  }

  /** What the cell holds once `delta` has been subtracted from it. */
  function Subtracted(value: u64, delta: u64, turns: seq<Turn>): u64 {
    SaturatingSub(AddAll(value, AddsBeforeLanding(value, turns)), delta)
  }

  /** Subtracts `delta` from whatever the cell holds when the exchange lands, after
      every add that got in before it. With no overflow nothing is clamped or lost. */
  method SaturatingSubtract(counter: AtomicU64, delta: u64, turns: seq<Turn>) returns (adds: seq<u64>)
    modifies counter
    ensures adds == AddsBeforeLanding(old(counter.value), turns)
    ensures counter.value == Subtracted(old(counter.value), delta, turns)
    ensures delta <= old(counter.value) && old(counter.value) + Sum(adds) < U64_MODULUS
            ==> counter.value == old(counter.value) + Sum(adds) - delta
  {
    ghost var start := counter.value;
    var current := counter.Load();
    var used := 0;
    adds := [];
    while true
      invariant used <= |turns| && adds == AddsOf(turns[..used])
      invariant Lands(start, turns) == used + Lands(current, turns[used..])
      invariant current == counter.value == AddAll(start, adds)
      decreases |turns| - used
    {
      var next := SaturatingSub(current, delta);
      var spurious := false;
      if used < |turns| {
        assert turns[used..][0] == turns[used] && turns[used..][1..] == turns[used + 1..];
        Interfere(counter, turns[used].adds);
        AddsOfSnoc(turns, used);
        AddAllAppend(start, adds, turns[used].adds);
        adds := adds + turns[used].adds;
        spurious := turns[used].spurious;
        used := used + 1;
      }
      var exchanged := counter.CompareExchangeWeak(current, next, spurious);
      match exchanged {
        case Ok(_) =>
          if start + Sum(adds) < U64_MODULUS {
            AddAllExact(start, adds);
          }
          return;
        case Err(observed) => current := observed;
      }
    }
  }

  // ------------------------------------------------------------ the loop itself

  datatype Cause = WallClock | ByteCap

  datatype Rotated = Rotated(cause: Cause, observed: u64)

  /** What one rotation meets: adds while the callback runs, whether the callback
      succeeds, and the turns of the exchange that follows. */
  datatype Firing = Firing(during: seq<u64>, succeeds: bool, turns: seq<Turn>)

  /** Which arm one round of the select takes, and the adds before each of its loads. */
  datatype Round =
    | CancelRound
    | TickRound(before: seq<u64>, firing: Firing)
    | PollRound(polls: seq<seq<u64>>, firing: Firing)

  datatype LoopEnd = Waiting | Cancelled | RotationFailed

  function Observed(completed: seq<Rotated>): nat {
    if completed == [] then 0
    else Observed(completed[..|completed| - 1]) + completed[|completed| - 1].observed
  }

  // What a wait, a rotation and the whole loop do to the cell, as functions of what
  // other tasks do meanwhile.

  /** The first poll that finds the cell at or over the cap, counting from one; none if
      the wait is not over. */
  function PollAtCap(cell: u64, cap: u64, polls: seq<seq<u64>>): (n: Option<nat>)
    ensures n.Some? ==> 1 <= n.value <= |polls|
    decreases |polls|
  {
    if polls == [] then None
    else if AddAll(cell, polls[0]) >= cap then Some(1)
    else match PollAtCap(AddAll(cell, polls[0]), cap, polls[1..]) case None => None case Some(n) => Some(n + 1)
  }

  function Concat(parts: seq<seq<u64>>): seq<u64> {
    if parts == [] then [] else parts[0] + Concat(parts[1..])
  }

  /** Every add of the polls a wait takes. */
  function AddsBeforeCap(cell: u64, cap: u64, polls: seq<seq<u64>>): seq<u64> {
    var n := PollAtCap(cell, cap, polls);
    if n.Some? then Concat(polls[..n.value]) else Concat(polls)
  }

  /** Every add from the start of a callback to the end of its rotation. */
  function AddsWhileFiring(cell: u64, firing: Firing): seq<u64> {
    firing.during
    + if firing.succeeds then AddsBeforeLanding(AddAll(cell, firing.during), firing.turns) else []
  }

  /** The cell after a rotation: a failed callback takes nothing out of it. */
  function Fired(cell: u64, observed: u64, firing: Firing): u64 {
    var met := AddAll(cell, firing.during);
    if firing.succeeds then Subtracted(met, observed, firing.turns) else met
  }

  /** A stretch of the loop: why it ended, if it did, what the cell then holds, every
      add of other tasks in order, and the rotations completed. */
  datatype Stretch = Stretch(end: Option<LoopEnd>, cell: u64, adds: seq<u64>, completed: seq<Rotated>) {
    function Then(rest: Stretch): Stretch {
      Stretch(rest.end, rest.cell, adds + rest.adds, completed + rest.completed)
    }
  }

  /** One rotation, for this cause, of a cell seen at its present value. */
  function FiringStretch(cell: u64, cause: Cause, before: seq<u64>, firing: Firing): Stretch {
    var adds := before + AddsWhileFiring(cell, firing);
    if firing.succeeds then Stretch(None, Fired(cell, cell, firing), adds, [Rotated(cause, cell)])
    else Stretch(Some(RotationFailed), Fired(cell, cell, firing), adds, [])
  }

  function RoundStretch(cell: u64, round: Round): Stretch {
    match round
    case CancelRound => Stretch(Some(Cancelled), cell, [], [])
    case TickRound(before, firing) => FiringStretch(AddAll(cell, before), WallClock, before, firing)
    case PollRound(polls, firing) =>
      var adds := AddsBeforeCap(cell, ROTATION_BYTE_CAP, polls);
      if PollAtCap(cell, ROTATION_BYTE_CAP, polls).None? then
        Stretch(Some(Waiting), AddAll(cell, adds), adds, [])
      else
        FiringStretch(AddAll(cell, adds), ByteCap, adds, firing)
  }

  /** The rounds up to the first that ends the loop. */
  function LoopStretch(cell: u64, rounds: seq<Round>): Stretch
    decreases |rounds|
  {
    if rounds == [] then Stretch(None, cell, [], [])
    else
      var first := RoundStretch(cell, rounds[0]);
      if first.end.Some? then first else first.Then(LoopStretch(first.cell, rounds[1..]))
  }

  /** Polls until the counter is seen at or over the cap; no value if the wait is not over.
      Takes nothing from the cell, and every poll before the one it ends on was below the cap. */
  method WaitForBytesCap(counter: AtomicU64, cap: u64, polls: seq<seq<u64>>)
    returns (observed: Option<u64>, adds: seq<u64>)
    modifies counter
    ensures adds == AddsBeforeCap(old(counter.value), cap, polls)
    ensures counter.value == AddAll(old(counter.value), adds)
    ensures observed.Some? <==> PollAtCap(old(counter.value), cap, polls).Some?
    ensures observed.Some? ==> observed.value == counter.value >= cap
  {
    ghost var start := counter.value;
    adds := [];
    var i := 0;
    assert polls[0..] == polls;
    while i < |polls|
      invariant 0 <= i <= |polls| && adds == Concat(polls[..i])
      invariant counter.value == AddAll(start, adds)
      invariant PollAtCap(start, cap, polls)
                == match PollAtCap(counter.value, cap, polls[i..]) case None => None case Some(n) => Some(n + i)
    {
      assert polls[i..][0] == polls[i] && polls[i..][1..] == polls[i + 1..];
      Interfere(counter, polls[i]);
      ConcatSnoc(polls, i);
      AddAllAppend(start, adds, polls[i]);
      adds := adds + polls[i];
      var seen := counter.Load();
      if seen >= cap {
        return Some(seen), adds;
      }
      i := i + 1;
    }
    assert polls[..i] == polls;
    observed := None;
  }

  /** Runs the callback, then subtracts exactly what was observed; a failed callback
      subtracts nothing, even if the cell overflows. */
  method Fire(counter: AtomicU64, observed: u64, firing: Firing) returns (ok: bool, adds: seq<u64>)
    modifies counter
    ensures ok == firing.succeeds
    ensures adds == AddsWhileFiring(old(counter.value), firing)
    ensures counter.value == Fired(old(counter.value), observed, firing)
    ensures !ok ==> counter.value == AddAll(old(counter.value), adds)
    ensures observed <= old(counter.value) && old(counter.value) + Sum(adds) < U64_MODULUS
            ==> counter.value == old(counter.value) + Sum(adds) - (if ok then observed else 0)
  {
    ghost var start := counter.value;
    Interfere(counter, firing.during);
    if !firing.succeeds {
      if start + Sum(firing.during) < U64_MODULUS {
        AddAllExact(start, firing.during);
      }
      return false, firing.during;
    }
    adds := SaturatingSubtract(counter, observed, firing.turns);
    SumAppend(firing.during, adds);
    if start + Sum(firing.during) < U64_MODULUS {
      AddAllExact(start, firing.during);
    }
    adds := firing.during + adds;
    ok := true;
  }

  /** One turn of the select: the arm that is taken, and the rotation it fires. */
  method Select(counter: AtomicU64, round: Round)
    returns (end: Option<LoopEnd>, adds: seq<u64>, completed: seq<Rotated>)
    modifies counter
    ensures Stretch(end, counter.value, adds, completed) == RoundStretch(old(counter.value), round)
  {
    var cause, observed := WallClock, 0;
    adds := [];
    match round {
      case CancelRound =>
        return Some(Cancelled), [], [];
      case TickRound(others, _) =>
        Interfere(counter, others);
        adds := others;
        observed := counter.Load();
      case PollRound(polls, _) =>
        var seen;
        seen, adds := WaitForBytesCap(counter, ROTATION_BYTE_CAP, polls);
        if seen.None? {
          return Some(Waiting), adds, [];
        }
        cause, observed := ByteCap, seen.value;
    }
    var ok, more := Fire(counter, observed, round.firing);
    adds := adds + more;
    end := if ok then None else Some(RotationFailed);
    completed := if ok then [Rotated(cause, observed)] else [];
  }

  /** The rotation loop, every other task's add placed wherever it may fall. */
  method RotationLoop(counter: AtomicU64, rounds: seq<Round>)
    returns (end: LoopEnd, completed: seq<Rotated>, adds: seq<u64>)
    modifies counter
    ensures var whole := LoopStretch(old(counter.value), rounds);
            && counter.value == whole.cell && adds == whole.adds && completed == whole.completed
            && end == EndOf(whole.end)
    ensures old(counter.value) + Sum(adds) < U64_MODULUS
            ==> counter.value + Observed(completed) == old(counter.value) + Sum(adds)
    ensures EndsAsPlayed(rounds, end, completed)
  {
    ghost var start := counter.value;
    LoopConserves(start, rounds);
    LoopMeans(start, rounds);
    completed, adds := [], [];
    var i := 0;
    assert rounds[0..] == rounds;
    while i < |rounds|
      invariant 0 <= i <= |rounds|
      invariant LoopStretch(start, rounds)
                == Stretch(None, counter.value, adds, completed).Then(LoopStretch(counter.value, rounds[i..]))
    {
      assert rounds[i..][0] == rounds[i] && rounds[i..][1..] == rounds[i + 1..];
      LaterStretch(counter.value, adds, completed, rounds[i..]);
      var ended, more, rotated := Select(counter, rounds[i]);
      adds, completed := adds + more, completed + rotated;
      if ended.Some? {
        return ended.value, completed, adds;
      }
      i := i + 1;
    }
    end := Waiting;
  }

  lemma {:induction false} ConcatSnoc(parts: seq<seq<u64>>, k: nat)
    requires k < |parts|
    ensures Concat(parts[..k + 1]) == Concat(parts[..k]) + parts[k]
    decreases k
  {
    if k == 0 {
      assert parts[..1][1..] == [];
    } else {
      ConcatSnoc(parts[1..], k - 1);
      assert parts[..k + 1][1..] == parts[1..][..k];
      assert parts[..k][1..] == parts[1..][..k - 1];
    }
  }

  lemma {:induction false} SumAppend(first: seq<u64>, rest: seq<u64>)
    ensures Sum(first + rest) == Sum(first) + Sum(rest)
    decreases |first|
  {
    if first == [] {
      assert first + rest == rest;
    } else {
      assert (first + rest)[1..] == first[1..] + rest;
      SumAppend(first[1..], rest);
    }
  }

  /** The next round joins what came before it, and what follows joins them unless it
      ended the loop. */
  lemma LaterStretch(cell: u64, adds: seq<u64>, completed: seq<Rotated>, rounds: seq<Round>)
    requires rounds != []
    ensures var first := RoundStretch(cell, rounds[0]);
            var sofar := Stretch(first.end, first.cell, adds + first.adds, completed + first.completed);
            Stretch(None, cell, adds, completed).Then(LoopStretch(cell, rounds))
            == if first.end.Some? then sofar else sofar.Then(LoopStretch(first.cell, rounds[1..]))
  {
    var first := RoundStretch(cell, rounds[0]);
    var rest := LoopStretch(first.cell, rounds[1..]);
    assert adds + (first.adds + rest.adds) == adds + first.adds + rest.adds;
    assert completed + (first.completed + rest.completed) == completed + first.completed + rest.completed;
  }

  lemma ObservedSnoc(completed: seq<Rotated>, last: Rotated)
    ensures Observed(completed + [last]) == Observed(completed) + last.observed
  {
    assert (completed + [last])[..|completed|] == completed;
  }

  /** No add is lost, and none counted twice: a stretch begun at `cell` that did not
      overflow the 64 bits holds what it began with and what was added, less what its
      completed rotations observed. */
  ghost predicate KeepsBytes(cell: u64, s: Stretch) {
    && (cell + Sum(s.adds) < U64_MODULUS ==> s.cell + Observed(s.completed) == cell + Sum(s.adds))
    && CapsSeen(s.completed)
  }

  /** Rotations for the byte cap all observed it. */
  ghost predicate CapsSeen(completed: seq<Rotated>) {
    forall i :: 0 <= i < |completed| && completed[i].cause == ByteCap ==> completed[i].observed >= ROTATION_BYTE_CAP
  }

  lemma CapsSeenInBoth(first: seq<Rotated>, rest: seq<Rotated>)
    requires CapsSeen(first) && CapsSeen(rest)
    ensures CapsSeen(first + rest)
  {
  }

  /** A rotation that observed all the cell held leaves just what came in meanwhile. */
  lemma FiringExact(cell: u64, firing: Firing)
    requires cell + Sum(AddsWhileFiring(cell, firing)) < U64_MODULUS
    ensures Fired(cell, cell, firing) + (if firing.succeeds then cell else 0)
            == cell + Sum(AddsWhileFiring(cell, firing))
  {
    var met := AddAll(cell, firing.during);
    var landing := if firing.succeeds then AddsBeforeLanding(met, firing.turns) else [];
    SumAppend(firing.during, landing);
    AddAllExact(cell, firing.during);
    AddAllExact(met, landing);
  }

  lemma FiringKeepsBytes(cell: u64, cause: Cause, before: seq<u64>, firing: Firing)
    requires cause == ByteCap ==> AddAll(cell, before) >= ROTATION_BYTE_CAP
    ensures KeepsBytes(cell, FiringStretch(AddAll(cell, before), cause, before, firing))
  {
    var met := AddAll(cell, before);
    var adds := AddsWhileFiring(met, firing);
    SumAppend(before, adds);
    if cell + Sum(before + adds) < U64_MODULUS {
      AddAllExact(cell, before);
      FiringExact(met, firing);
      assert Observed([]) == 0;
      ObservedSnoc([], Rotated(cause, met));
      assert [] + [Rotated(cause, met)] == [Rotated(cause, met)];
    }
  }

  /** The poll a wait ends on is the first to see the cap; one that has not ended saw none. */
  lemma {:induction false} CapWasReached(cell: u64, cap: u64, polls: seq<seq<u64>>)
    ensures var n := PollAtCap(cell, cap, polls);
            && (n.Some? ==> AddAll(cell, Concat(polls[..n.value])) >= cap)
            && forall k :: 1 <= k <= |polls| && (n.Some? ==> k < n.value) ==> AddAll(cell, Concat(polls[..k])) < cap
    decreases |polls|
  {
    if polls == [] {
    } else {
      var met := AddAll(cell, polls[0]);
      assert polls[..1][1..] == [];
      assert Concat(polls[..1]) == polls[0] + [] == polls[0];
      CapWasReached(met, cap, polls[1..]);
      forall k | 1 <= k <= |polls|
        ensures AddAll(cell, Concat(polls[..k])) == AddAll(met, Concat(polls[1..][..k - 1]))
      {
        assert polls[..k][1..] == polls[1..][..k - 1];
        AddAllAppend(cell, polls[0], Concat(polls[1..][..k - 1]));
      }
    }
  }

  /** A rotation by this round went through, for this cause. */
  predicate Completes(round: Round, cause: Cause) {
    match round
    case CancelRound => false
    case TickRound(_, firing) => firing.succeeds && cause == WallClock
    case PollRound(_, firing) => firing.succeeds && cause == ByteCap
  }

  /** Begun on a cell that held `cell`, after these adds: observes all that is there; a
      failed callback ends the loop, with every add kept and nothing subtracted. */
  ghost predicate FiredAsSeen(cell: u64, cause: Cause, before: seq<u64>, firing: Firing, s: Stretch) {
    if firing.succeeds then
      s.end == None && s.completed == [Rotated(cause, (cell + Sum(before)) % U64_MODULUS)]
    else
      && s.end == Some(RotationFailed) && s.completed == [] && s.adds == before + firing.during
      && s.cell == (cell + Sum(s.adds)) % U64_MODULUS
  }

  /** Every poll was below the cap: the loop still waits, and only adds have touched the cell. */
  ghost predicate WaitedOn(cell: u64, polls: seq<seq<u64>>, s: Stretch) {
    && s.end == Some(Waiting) && s.completed == [] && s.adds == Concat(polls)
    && s.cell == (cell + Sum(s.adds)) % U64_MODULUS
  }

  /** What a round does: a wall-clock one observes whatever the cell holds when it loads it,
      a byte-cap one what the first poll at the cap saw. */
  lemma RoundMeans(cell: u64, round: Round)
    ensures round.CancelRound? ==> RoundStretch(cell, round) == Stretch(Some(Cancelled), cell, [], [])
    ensures round.TickRound? ==>
              FiredAsSeen(cell, WallClock, round.before, round.firing, RoundStretch(cell, round))
    ensures round.PollRound? ==>
              var n := PollAtCap(cell, 524_288_000, round.polls);
              if n.None? then WaitedOn(cell, round.polls, RoundStretch(cell, round))
              else FiredAsSeen(cell, ByteCap, Concat(round.polls[..n.value]), round.firing, RoundStretch(cell, round))
  {
    match round {
      case CancelRound =>
      case TickRound(before, firing) => FiringMeans(cell, before, firing);
      case PollRound(polls, firing) => FiringMeans(cell, AddsBeforeCap(cell, ROTATION_BYTE_CAP, polls), firing);
    }
  }

  lemma FiringMeans(cell: u64, before: seq<u64>, firing: Firing)
    ensures AddAll(cell, before) == (cell + Sum(before)) % U64_MODULUS
    ensures !firing.succeeds ==>
              AddsWhileFiring(AddAll(cell, before), firing) == firing.during
              && AddAll(AddAll(cell, before), firing.during) == (cell + Sum(before + firing.during)) % U64_MODULUS
  {
    AddAllModulo(cell, before);
    AddAllAppend(cell, before, firing.during);
    AddAllModulo(cell, before + firing.during);
  }

  lemma RoundEnds(cell: u64, round: Round)
    ensures var s := RoundStretch(cell, round);
            if s.end.None? then |s.completed| == 1 && Completes(round, s.completed[0].cause)
            else EndsAsPlayed([round], s.end.value, s.completed) && s.completed == []
  {
    RoundMeans(cell, round);
  }

  lemma EndsOneLater(rounds: seq<Round>, end: LoopEnd, first: Rotated, completed: seq<Rotated>)
    requires rounds != [] && Completes(rounds[0], first.cause) && EndsAsPlayed(rounds[1..], end, completed)
    ensures EndsAsPlayed(rounds, end, [first] + completed)
  {
  }

  /** How the loop goes and ends: one rotation for every round before the last it plays, for
      the cause of the arm taken; it ends on cancellation, on a callback's failure, or in a
      wait no poll has ended, and on nothing else. */
  lemma {:induction false} LoopMeans(cell: u64, rounds: seq<Round>)
    ensures EndsAsPlayed(rounds, EndOf(LoopStretch(cell, rounds).end), LoopStretch(cell, rounds).completed)
    decreases |rounds|
  {
    if rounds == [] {
    } else {
      var first := RoundStretch(cell, rounds[0]);
      RoundEnds(cell, rounds[0]);
      if first.end.None? {
        var rest := LoopStretch(first.cell, rounds[1..]);
        LoopMeans(first.cell, rounds[1..]);
        EndsOneLater(rounds, EndOf(rest.end), first.completed[0], rest.completed);
        assert first.completed == [first.completed[0]];
      }
    }
  }

  /** A loop that has run out of rounds waits for the next. */
  function EndOf(end: Option<LoopEnd>): LoopEnd {
    if end.Some? then end.value else Waiting
  }

  ghost predicate EndsAsPlayed(rounds: seq<Round>, end: LoopEnd, completed: seq<Rotated>) {
    var n := |completed|;
    && n <= |rounds|
    && (forall i :: 0 <= i < n ==> Completes(rounds[i], completed[i].cause))
    && (end == Cancelled <==> n < |rounds| && rounds[n].CancelRound?)
    && (end == RotationFailed ==> n < |rounds| && !rounds[n].CancelRound? && !rounds[n].firing.succeeds)
    && (end == Waiting ==> n == |rounds| || rounds[n].PollRound?)
  }

  lemma RoundKeepsBytes(cell: u64, round: Round)
    ensures KeepsBytes(cell, RoundStretch(cell, round))
  {
    match round {
      case CancelRound =>
      case TickRound(before, firing) => FiringKeepsBytes(cell, WallClock, before, firing);
      case PollRound(polls, firing) =>
        var adds := AddsBeforeCap(cell, ROTATION_BYTE_CAP, polls);
        if PollAtCap(cell, ROTATION_BYTE_CAP, polls).Some? {
          CapWasReached(cell, ROTATION_BYTE_CAP, polls);
          FiringKeepsBytes(cell, ByteCap, adds, firing);
        } else if cell + Sum(adds) < U64_MODULUS {
          AddAllExact(cell, adds);
        }
    }
  }

  lemma {:induction false} ObservedAppend(first: seq<Rotated>, rest: seq<Rotated>)
    ensures Observed(first + rest) == Observed(first) + Observed(rest)
    decreases |rest|
  {
    if rest == [] {
      assert first + rest == first;
    } else {
      assert (first + rest)[..|first + rest| - 1] == first + rest[..|rest| - 1];
      ObservedAppend(first, rest[..|rest| - 1]);
    }
  }

  lemma StretchesKeepBytes(cell: u64, first: Stretch, rest: Stretch)
    requires KeepsBytes(cell, first) && KeepsBytes(first.cell, rest)
    ensures KeepsBytes(cell, first.Then(rest))
  {
    CapsSeenInBoth(first.completed, rest.completed);
    SumAppend(first.adds, rest.adds);
    ObservedAppend(first.completed, rest.completed);
    var whole := first.Then(rest);
    assert Sum(whole.adds) == Sum(first.adds) + Sum(rest.adds);
    assert Observed(whole.completed) == Observed(first.completed) + Observed(rest.completed);
  }

  /** The loop conserves bytes, whatever the other tasks do and however it ends, and
      rotates for the byte cap only on a value at or over it. */
  lemma {:induction false} LoopConserves(cell: u64, rounds: seq<Round>)
    ensures KeepsBytes(cell, LoopStretch(cell, rounds))
    decreases |rounds|
  {
    if rounds == [] {
    } else {
      var first := RoundStretch(cell, rounds[0]);
      RoundKeepsBytes(cell, rounds[0]);
      if first.end.None? {
        LoopConserves(first.cell, rounds[1..]);
        StretchesKeepBytes(cell, first, LoopStretch(first.cell, rounds[1..]));
      }
    }
  }

  // --------------------------------------------------------- all interleavings

  /** Where the loop's task is. */
  datatype Phase =
    | Sleeping(nextPoll: Time)
    | Ticked
    | Rotating(cause: Cause, observed: u64)
    | Loading(cause: Cause, observed: u64)
    | Exchanging(cause: Cause, observed: u64, current: u64)
    | Stopped
    | Failed

  /** The cell, the clock and the loop's task, then history: bytes added from the start, overflows
      of the cell, rotations completed, and bytes lost to the saturating clamp. */
  datatype System = System(
    counter: u64, now: Time, nextTick: Time, cancelled: bool, phase: Phase,
    added: nat, wraps: nat, completed: seq<Rotated>, clamped: nat)

  datatype Step =
    | Add(n: u64)
    | Elapse(seconds: nat)
    | Cancel
    | ObserveCancel
    | WallTick
    | LoadForTick
    | Poll
    | CallbackOk
    | CallbackErr
    | LoadCurrent
    | Exchange(spurious: bool)

  ghost predicate Initial(s: System) {
    && s.added == s.counter && s.wraps == 0 && s.completed == [] && s.clamped == 0
    && s.phase == Sleeping(s.now) && s.nextTick == s.now + ROTATION_INTERVAL
  }

  /** One step of any task. A disabled step changes nothing. The arms are tried in
      order: cancellation, then the wall clock, then the byte-cap poll; and a waiting
      task is woken when a timer it sleeps on is due. */
  function Apply(s: System, step: Step): System {
    match (step, s.phase)
    case (Add(n), _) =>
      s.(counter := WrappingAdd(s.counter, n), added := s.added + n,
         wraps := s.wraps + (if s.counter + n >= U64_MODULUS then 1 else 0))
    case (Elapse(seconds), Sleeping(nextPoll)) =>
      if s.now + seconds <= Min(nextPoll, s.nextTick) then s.(now := s.now + seconds) else s
    case (Elapse(seconds), _) => s.(now := s.now + seconds)
    case (Cancel, _) => s.(cancelled := true)
    case (ObserveCancel, Sleeping(_)) => if s.cancelled then s.(phase := Stopped) else s
    case (WallTick, Sleeping(_)) =>
      if !s.cancelled && s.now >= s.nextTick
      then s.(phase := Ticked, nextTick := s.now + ROTATION_INTERVAL) else s
    case (LoadForTick, Ticked) => s.(phase := Rotating(WallClock, s.counter))
    case (Poll, Sleeping(nextPoll)) =>
      if s.cancelled || s.now >= s.nextTick || s.now < nextPoll then s
      else if s.counter >= ROTATION_BYTE_CAP then s.(phase := Rotating(ByteCap, s.counter))
      else s.(phase := Sleeping(s.now + BYTE_CAP_POLL_INTERVAL))
    case (CallbackOk, Rotating(cause, observed)) => s.(phase := Loading(cause, observed))
    case (CallbackErr, Rotating(_, _)) => s.(phase := Failed)
    case (LoadCurrent, Loading(cause, observed)) => s.(phase := Exchanging(cause, observed, s.counter))
    case (Exchange(spurious), Exchanging(cause, observed, current)) =>
      if s.counter == current && !spurious then
        s.(counter := SaturatingSub(current, observed), phase := Sleeping(s.now),
           completed := s.completed + [Rotated(cause, observed)],
           clamped := s.clamped + SaturatingSub(observed, current))
      else
        s.(phase := Exchanging(cause, observed, s.counter))
    case (_, _) => s
  }

  function Exec(s: System, steps: seq<Step>): System
    decreases |steps|
  {
    if steps == [] then s else Exec(Apply(s, steps[0]), steps[1..])
  }

  function ByteCapRotations(completed: seq<Rotated>): nat {
    if completed == [] then 0
    else ByteCapRotations(completed[..|completed| - 1])
         + (if completed[|completed| - 1].cause == ByteCap then 1 else 0)
  }

  /** Every byte added is in the cell, or was subtracted by a completed rotation,
      or left it by an overflow; clamping is the only way to subtract too little. */
  ghost predicate Conserves(s: System) {
    s.counter + Observed(s.completed) + U64_MODULUS * s.wraps == s.added + s.clamped
  }

  /** What a rotation under way has still to subtract. */
  function Pending(phase: Phase): nat {
    match phase
    case Rotating(_, observed) => observed
    case Loading(_, observed) => observed
    case Exchanging(_, observed, _) => observed
    case _ => 0
  }

  /** Only an overflow can leave less in the cell than a rotation under way will subtract,
      and each overflow pays for at most one clamp. */
  ghost predicate Covered(s: System) {
    && s.clamped <= (U64_MODULUS - 1) * s.wraps
    && (Pending(s.phase) > s.counter ==> s.wraps >= 1 && s.clamped <= (U64_MODULUS - 1) * (s.wraps - 1))
    && (s.wraps >= 1 ==> s.added >= U64_MODULUS)
  }

  ghost predicate CapsHonest(s: System) {
    && Observed(s.completed) >= ByteCapRotations(s.completed) * ROTATION_BYTE_CAP
    && match s.phase
       case Rotating(ByteCap, observed) => observed >= ROTATION_BYTE_CAP
       case Loading(ByteCap, observed) => observed >= ROTATION_BYTE_CAP
       case Exchanging(ByteCap, observed, _) => observed >= ROTATION_BYTE_CAP
       case _ => true
  }

  ghost predicate Inv(s: System) {
    Conserves(s) && Covered(s) && CapsHonest(s)
  }

  /** A completed exchange adds one rotation to the history; nothing else touches it. */
  lemma CompletedGrows(s: System, step: Step)
    ensures var next := Apply(s, step);
            if step.Exchange? && s.phase.Exchanging? && s.counter == s.phase.current && !step.spurious
            then && Observed(next.completed) == Observed(s.completed) + s.phase.observed
                 && ByteCapRotations(next.completed)
                    == ByteCapRotations(s.completed) + (if s.phase.cause == ByteCap then 1 else 0)
            else next.completed == s.completed && next.clamped == s.clamped
  {
    var next := Apply(s, step);
    if |next.completed| > |s.completed| {
      assert next.completed[..|s.completed|] == s.completed;
    }
  }

  lemma StepConserves(s: System, step: Step)
    requires Conserves(s)
    ensures Conserves(Apply(s, step))
  {
    CompletedGrows(s, step);
  }

  /** What is added is never less than what the cell and the completed rotations hold. */
  lemma AddedBounds(s: System)
    requires Conserves(s) && s.clamped <= (U64_MODULUS - 1) * s.wraps
    ensures s.added >= s.counter + Observed(s.completed) + s.wraps
  {
    assert U64_MODULUS * s.wraps == (U64_MODULUS - 1) * s.wraps + s.wraps;
  }

  lemma StepCovers(s: System, step: Step)
    requires Conserves(s) && Covered(s)
    ensures Covered(Apply(s, step))
  {
    AddedBounds(s);
  }

  lemma StepCapsHonest(s: System, step: Step)
    requires CapsHonest(s)
    ensures CapsHonest(Apply(s, step))
  {
    CompletedGrows(s, step);
  }

  lemma StepKeepsInv(s: System, step: Step)
    requires Inv(s)
    ensures Inv(Apply(s, step))
  {
    StepConserves(s, step);
    StepCovers(s, step);
    StepCapsHonest(s, step);
  }

  lemma {:induction false} RunKeepsInv(s: System, steps: seq<Step>)
    requires Inv(s)
    ensures Inv(Exec(s, steps))
    decreases |steps|
  {
    if steps == [] {
    } else {
      StepKeepsInv(s, steps[0]);
      RunKeepsInv(Apply(s, steps[0]), steps[1..]);
    }
  }

  /** Main result, over every interleaving of adders, clock, callback and exchanges,
      spurious failures included: what the cell holds plus what completed rotations
      observed is exactly what was added if and only if the cell never overflowed, and
      then the clamp never fired. A failed rotation is not among the completed ones. */
  lemma RotationConservation(start: System, steps: seq<Step>)
    requires Initial(start)
    ensures var s := Exec(start, steps);
            && s.counter + Observed(s.completed) + U64_MODULUS * s.wraps == s.added + s.clamped
            && (s.counter + Observed(s.completed) == s.added <==> s.wraps == 0)
            && (s.wraps == 0 ==> s.clamped == 0)
  {
    RunKeepsInv(start, steps);
    AddedBounds(Exec(start, steps));
  }

  /** What a caller can check beforehand: fewer than 2^64 bytes in all cannot overflow
      the cell, so the run conserves them. */
  lemma BelowModulusConserves(start: System, steps: seq<Step>)
    requires Initial(start) && Exec(start, steps).added < U64_MODULUS
    ensures var s := Exec(start, steps);
            s.wraps == 0 && s.clamped == 0 && s.counter + Observed(s.completed) == s.added
  {
    RunKeepsInv(start, steps);
  }

  /** A rotation whose callback succeeds goes through: the exchange takes what was observed
      out of the cell, and one that fails looks again before the next. */
  lemma RotationGoesThrough(s: System)
    requires s.phase.Rotating? && s.phase.observed <= s.counter
    ensures var loaded := Apply(Apply(s, CallbackOk), LoadCurrent);
            var next := Apply(loaded, Exchange(false));
            && next.counter == s.counter - s.phase.observed
            && next.completed == s.completed + [Rotated(s.phase.cause, s.phase.observed)]
            && next.phase == Sleeping(s.now)
    ensures forall n: u64 ::
              var loaded := Apply(Apply(Apply(s, CallbackOk), LoadCurrent), Add(n));
              var again := Apply(loaded, Exchange(true));
              again == loaded.(phase := Exchanging(s.phase.cause, s.phase.observed, loaded.counter))
  {
  }

  /** What a rotation observes is all the cell holds when the loop looks, by the tick whatever
      that is, by the poll only at or over the cap; else the poll waits five seconds more. */
  lemma LoopObserves(s: System)
    ensures s.phase.Ticked? ==> Apply(s, LoadForTick) == s.(phase := Rotating(WallClock, s.counter))
    ensures s.phase.Sleeping? && !s.cancelled && s.now >= s.nextTick ==>
              Apply(s, WallTick) == s.(phase := Ticked, nextTick := s.now + 900)
    ensures s.phase.Sleeping? && !s.cancelled && s.phase.nextPoll <= s.now < s.nextTick ==>
              Apply(s, Poll) == s.(phase := if s.counter >= 524_288_000 then Rotating(ByteCap, s.counter)
                                            else Sleeping(s.now + 5))
  {
  }

  /** The cell goes down only when an exchange completes a rotation or an add overflows;
      and once the loop has stopped or failed, no exchange ever will again. */
  lemma OnlyExchangeSubtracts(s: System, step: Step)
    ensures Apply(s, step).counter < s.counter ==>
              if step.Add? then Apply(s, step).wraps == s.wraps + 1
              else |Apply(s, step).completed| == |s.completed| + 1
    ensures !step.Add? && |Apply(s, step).completed| == |s.completed| ==> Apply(s, step).counter == s.counter
    ensures step.CallbackErr? && s.phase.Rotating? ==>
              Apply(s, step).phase == Failed && Apply(s, step).counter == s.counter
    ensures s.phase in {Stopped, Failed} ==>
              Apply(s, step).phase == s.phase && Apply(s, step).completed == s.completed
  {
  }

  /** A byte-cap rotation whose callback runs while an add wraps the cell to zero. */
  function WrappedMidRotation(start: System): System {
    start.(counter := 0, phase := Rotating(ByteCap, ROTATION_BYTE_CAP), added := U64_MODULUS, wraps := 1)
  }

  lemma AddCanWrapMidRotation(start: System)
    requires Initial(start) && start.counter == 0 && !start.cancelled
    ensures Exec(start, [Add(ROTATION_BYTE_CAP), Poll, Add(U64_MODULUS - ROTATION_BYTE_CAP)])
            == WrappedMidRotation(start)
  {
    var cap := ROTATION_BYTE_CAP;
    var s1 := start.(counter := cap, added := cap);
    assert Apply(start, Add(cap)) == s1;
    assert Apply(s1, Poll) == s1.(phase := Rotating(ByteCap, cap));
    ExecThree(start, Add(cap), Poll, Add(U64_MODULUS - cap));
  }

  /** The overflow hypothesis is needed: such an add makes the clamp fire, and the
      two sides no longer agree. */
  lemma OverflowFiresClamp(start: System)
    requires Initial(start) && start.counter == 0 && !start.cancelled
    ensures exists steps ::
              var s := Exec(start, steps);
              s.wraps == 1 && s.clamped == ROTATION_BYTE_CAP && s.counter + Observed(s.completed) != s.added
  {
    var mid := WrappedMidRotation(start);
    AddCanWrapMidRotation(start);
    var s4 := Apply(mid, CallbackOk);
    var s5 := Apply(s4, LoadCurrent);
    assert s5 == mid.(phase := Exchanging(ByteCap, ROTATION_BYTE_CAP, 0));
    CompletedGrows(s5, Exchange(false));
    ExecThree(mid, CallbackOk, LoadCurrent, Exchange(false));
    ExecAppend(start, [Add(ROTATION_BYTE_CAP), Poll, Add(U64_MODULUS - ROTATION_BYTE_CAP)],
               [CallbackOk, LoadCurrent, Exchange(false)]);
  }

  lemma ExecThree(s: System, a: Step, b: Step, c: Step)
    ensures Exec(s, [a, b, c]) == Apply(Apply(Apply(s, a), b), c)
  {
    assert [a, b, c][1..] == [b, c] && [b, c][1..] == [c] && [c][1..] == [];
    assert Exec(Apply(Apply(s, a), b), [c]) == Exec(Apply(Apply(Apply(s, a), b), c), []);
    assert Exec(Apply(s, a), [b, c]) == Exec(Apply(Apply(s, a), b), [c]);
  }

  lemma {:induction false} ExecAppend(s: System, first: seq<Step>, rest: seq<Step>)
    ensures Exec(s, first + rest) == Exec(Exec(s, first), rest)
    decreases |first|
  {
    if first == [] {
      assert first + rest == rest;
    } else {
      assert (first + rest)[1..] == first[1..] + rest;
      ExecAppend(Apply(s, first[0]), first[1..], rest);
    }
  }

  /** k byte-cap rotations mean at least k caps' worth of bytes were added, in every run,
      overflowing or not. */
  lemma ByteCapAccounting(start: System, steps: seq<Step>)
    requires Initial(start)
    ensures var s := Exec(start, steps);
            s.added >= ByteCapRotations(s.completed) * 524_288_000
  {
    RunKeepsInv(start, steps);
    AddedBounds(Exec(start, steps));
  }

  // -------------------------------------------------------------- poll latency

  ghost predicate TimersAhead(s: System) {
    s.phase.Sleeping? ==> s.phase.nextPoll <= s.now + BYTE_CAP_POLL_INTERVAL
  }

  lemma {:induction false} TimersStayAhead(s: System, steps: seq<Step>)
    requires TimersAhead(s)
    ensures TimersAhead(Exec(s, steps))
    decreases |steps|
  {
    if steps == [] {
    } else {
      TimersStayAhead(Apply(s, steps[0]), steps[1..]);
    }
  }

  /** The loop stays in the wait it was in when the steps began, and the counter at its cap. */
  ghost predicate WaitsAtCap(s: System, steps: seq<Step>)
    decreases |steps|
  {
    && s.phase.Sleeping? && s.counter >= ROTATION_BYTE_CAP
    && (steps == [] || WaitsAtCap(Apply(s, steps[0]), steps[1..]))
  }

  lemma {:induction false} WaitIsBounded(s: System, steps: seq<Step>)
    requires TimersAhead(s) && WaitsAtCap(s, steps)
    ensures Exec(s, steps).now <= s.phase.nextPoll || Exec(s, steps).now == s.now
    decreases |steps|
  {
    if steps == [] {
    } else {
      WaitIsBounded(Apply(s, steps[0]), steps[1..]);
    }
  }

  /** A counter at its cap while the loop waits, at any moment of any run, is noticed
      within one poll interval: as long as the loop is in the wait and the counter at its
      cap, at most that much time has passed. */
  lemma CapNoticedWithinOnePoll(start: System, before: seq<Step>, steps: seq<Step>)
    requires Initial(start) && WaitsAtCap(Exec(start, before), steps)
    ensures Exec(start, before + steps).now <= Exec(start, before).now + BYTE_CAP_POLL_INTERVAL
  {
    TimersStayAhead(start, before);
    WaitIsBounded(Exec(start, before), steps);
    ExecAppend(start, before, steps);
  }

  /** The loop is still in the wait it was in when the steps began. */
  ghost predicate StillWaiting(s: System, steps: seq<Step>)
    decreases |steps|
  {
    s.phase.Sleeping? && (steps == [] || StillWaiting(Apply(s, steps[0]), steps[1..]))
  }

  /** A counter that has come to its cap stays there while the loop waits, unless an add
      overflows it. */
  lemma {:induction false} CapIsKept(s: System, steps: seq<Step>)
    requires s.counter >= ROTATION_BYTE_CAP && StillWaiting(s, steps) && Exec(s, steps).wraps == s.wraps
    ensures WaitsAtCap(s, steps)
    decreases |steps|
  {
    if steps == [] {
    } else {
      WrapsGrow(Apply(s, steps[0]), steps[1..]);
      CapIsKept(Apply(s, steps[0]), steps[1..]);
    }
  }

  /** And at that deadline the wait cannot go on: whichever arm comes first in the
      written order takes the loop out of it. */
  lemma DueWaitEnds(s: System)
    requires s.phase.Sleeping? && s.counter >= ROTATION_BYTE_CAP && s.now >= s.phase.nextPoll
    ensures var arm := if s.cancelled then ObserveCancel else if s.now >= s.nextTick then WallTick else Poll;
            && !Apply(s, arm).phase.Sleeping?
            && forall other :: other in {ObserveCancel, WallTick, Poll} && other != arm
                               ==> Apply(s, other) == s
  {
  }

  lemma {:induction false} WrapsGrow(s: System, steps: seq<Step>)
    ensures s.wraps <= Exec(s, steps).wraps
    decreases |steps|
  {
    if steps == [] {
    } else {
      WrapsGrow(Apply(s, steps[0]), steps[1..]);
    }
  }
}
