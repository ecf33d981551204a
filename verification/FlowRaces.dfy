/** Touches and collections racing for the flow table, one atomic operation at a time:
    taking a shard's lock, finding or inserting the entry, the add, the store, testing
    an entry, removing it, letting the lock go. */
module FlowRaces {
  import opened Base
  import opened FlowTable

  // ------------------------------------------------------------------- state

  /** How far a touch has come; once it has found its state it holds on to the state itself. */
  datatype TouchPhase = Queued | Guarded | Found(id: nat) | Counted(id: nat) | Stamped | Finished

  /** Where a collection is: between shards, or holding one with entries still to test.
      `met` is what the shard held when its lock was taken. */
  datatype VisitPhase =
    | Between
    | Scanning(pending: set<FlowKey>, met: Flows)
    | Testing(rest: set<FlowKey>, key: FlowKey, seen: u64, met: Flows)

  datatype Task =
    | Touching(key: FlowKey, side: Side, bytes: u64, at: u64, touch: TouchPhase)
    | Collecting(cutoff: u64, shard: nat, visit: VisitPhase, dropped: nat, removed: set<FlowKey>)

  datatype Event =
    | Created(key: FlowKey, id: nat)
    | Added(key: FlowKey, id: nat, side: Side, bytes: u64)
    | Stored(key: FlowKey, id: nat, at: u64)
    | Removed(key: FlowKey, id: nat, last: Flow)

  /** The map holds references into `states`, which outlive their entry; `guards` says
      which task holds a shard's lock. */
  datatype System = System(
    inner: map<FlowKey, nat>,
    states: seq<Flow>,
    retired: set<nat>,
    guards: map<nat, nat>,
    tasks: seq<Task>,
    history: seq<Event>)

  const EMPTY := System(map[], [], {}, map[], [], [])

  datatype Step =
    | BeginTouch(key: FlowKey, side: Side, bytes: u64, at: u64)
    | BeginGc(now: u64, idle: u64)
    | Advance(task: nat)
    | Test(task: nat, key: FlowKey)

  function StateAt(states: seq<Flow>, id: nat): Flow {
    if id < |states| then states[id] else FRESH_FLOW
  }

  function Written(states: seq<Flow>, id: nat, flow: Flow): seq<Flow> {
    if id < |states| then states[id := flow] else states
  }

  /** The next atomic operation of a touch; one that waits for a lock changes nothing. */
  function AdvanceTouch(s: System, shardOf: FlowKey -> nat, t: nat): System
    requires t < |s.tasks| && s.tasks[t].Touching?
  {
    var me := s.tasks[t];
    var shard := shardOf(me.key);
    match me.touch
    case Queued =>
      if shard in s.guards then s
      else s.(guards := s.guards[shard := t], tasks := s.tasks[t := me.(touch := Guarded)])
    case Guarded =>
      if me.key in s.inner then s.(tasks := s.tasks[t := me.(touch := Found(s.inner[me.key]))])
      else
        var id := |s.states|;
        s.(inner := s.inner[me.key := id], states := s.states + [FRESH_FLOW],
           tasks := s.tasks[t := me.(touch := Found(id))], history := s.history + [Created(me.key, id)])
    case Found(id) =>
      s.(states := Written(s.states, id, WithCount(StateAt(s.states, id), me.side, me.bytes)),
         tasks := s.tasks[t := me.(touch := Counted(id))],
         history := s.history + [Added(me.key, id, me.side, me.bytes)])
    case Counted(id) =>
      s.(states := Written(s.states, id, StateAt(s.states, id).(lastSeen := me.at)),
         tasks := s.tasks[t := me.(touch := Stamped)],
         history := s.history + [Stored(me.key, id, me.at)])
    case Stamped =>
      s.(guards := s.guards - {shard}, tasks := s.tasks[t := me.(touch := Finished)])
    case Finished => s
  }

  /** The values a shard's entries refer to. */
  function ShardOf(inner: map<FlowKey, nat>, states: seq<Flow>, shardOf: FlowKey -> nat, shard: nat): Flows {
    map key | key in inner && shardOf(key) == shard :: StateAt(states, inner[key])
  }

  /** The next atomic operation of a collection, but for choosing an entry to test. */
  function AdvanceGc(s: System, shardOf: FlowKey -> nat, t: nat): System
    requires t < |s.tasks| && s.tasks[t].Collecting?
  {
    var me := s.tasks[t];
    match me.visit
    case Between =>
      if me.shard in s.guards then s
      else
        var met := ShardOf(s.inner, s.states, shardOf, me.shard);
        s.(guards := s.guards[me.shard := t], tasks := s.tasks[t := me.(visit := Scanning(met.Keys, met))])
    case Scanning(pending, _) =>
      if pending != {} then s
      else
        s.(guards := s.guards - {me.shard}, tasks := s.tasks[t := me.(visit := Between, shard := me.shard + 1)])
    case Testing(rest, key, seen, met) =>
      if seen < me.cutoff && key in s.inner then
        var id := s.inner[key];
        s.(inner := s.inner - {key}, retired := s.retired + {id},
           tasks := s.tasks[t := me.(visit := Scanning(rest, met), dropped := me.dropped + 1,
                                     removed := me.removed + {key})],
           history := s.history + [Removed(key, id, StateAt(s.states, id))])
      else
        s.(tasks := s.tasks[t := me.(visit := Scanning(rest, met))])
  }

  /** A collection reads the time stamp of an entry it has not tested yet, in any order. */
  function TestEntry(s: System, t: nat, key: FlowKey): System
    requires t < |s.tasks|
  {
    var me := s.tasks[t];
    if me.Collecting? && me.visit.Scanning? && key in me.visit.pending && key in s.inner then
      var seen := StateAt(s.states, s.inner[key]).lastSeen;
      s.(tasks := s.tasks[t := me.(visit := Testing(me.visit.pending - {key}, key, seen, me.visit.met))])
    else s
  }

  function Apply(s: System, shardOf: FlowKey -> nat, step: Step): System {
    match step
    case BeginTouch(key, side, bytes, at) =>
      s.(tasks := s.tasks + [Touching(key, side, bytes, at, Queued)])
    case BeginGc(now, idle) =>
      s.(tasks := s.tasks + [Collecting(Cutoff(now, idle), 0, Between, 0, {})])
    case Advance(t) =>
      if t >= |s.tasks| then s
      else if s.tasks[t].Touching? then AdvanceTouch(s, shardOf, t)
      else AdvanceGc(s, shardOf, t)
    case Test(t, key) =>
      if t >= |s.tasks| then s else TestEntry(s, t, key)
  }

  function Exec(s: System, shardOf: FlowKey -> nat, steps: seq<Step>): System
    decreases |steps|
  {
    if steps == [] then s else Exec(Apply(s, shardOf, steps[0]), shardOf, steps[1..])
  }

  // ------------------------------------------------------- what the lock buys

  /** The shard whose lock a task holds. */
  function Held(task: Task, shardOf: FlowKey -> nat): Option<nat> {
    match task
    case Touching(key, _, _, _, touch) =>
      if touch.Queued? || touch.Finished? then None else Some(shardOf(key))
    case Collecting(_, shard, visit, _, _) =>
      if visit.Between? then None else Some(shard)
  }

  ghost predicate Guarding(s: System, shardOf: FlowKey -> nat) {
    forall t :: 0 <= t < |s.tasks| && Held(s.tasks[t], shardOf).Some? ==>
                  var shard := Held(s.tasks[t], shardOf).value;
                  shard in s.guards && s.guards[shard] == t
  }

  /** Entries refer to states of their own, none of them retired. */
  ghost predicate Live(s: System) {
    && (forall key :: key in s.inner ==> s.inner[key] < |s.states| && s.inner[key] !in s.retired)
    && (forall a, b :: a in s.inner && b in s.inner && s.inner[a] == s.inner[b] ==> a == b)
    && (forall id :: id in s.retired ==> id < |s.states|)
  }

  /** While a collection holds its shard, the shard is as it was met, but for flows tested
      and found idle: these are gone. */
  ghost predicate ShardAsMet(inner: map<FlowKey, nat>, states: seq<Flow>, shardOf: FlowKey -> nat, task: Task,
                             untested: set<FlowKey>, met: Flows)
    requires task.Collecting?
  {
    && (forall key :: key in untested ==> key in met)
    && (forall key :: key in met ==>
          && shardOf(key) == task.shard
          && (key in inner <==> key in untested || met[key].lastSeen >= task.cutoff))
    && (forall key :: key in inner && shardOf(key) == task.shard ==>
                        key in met && StateAt(states, inner[key]) == met[key])
    && (forall key :: key in task.removed ==>
                        shardOf(key) < task.shard || (shardOf(key) == task.shard && key !in inner))
  }

  ghost predicate VisitOk(inner: map<FlowKey, nat>, states: seq<Flow>, shardOf: FlowKey -> nat, task: Task)
    requires task.Collecting?
  {
    match task.visit
    case Between => forall key :: key in task.removed ==> shardOf(key) < task.shard
    case Scanning(pending, met) => ShardAsMet(inner, states, shardOf, task, pending, met)
    case Testing(rest, tested, seen, met) =>
      && ShardAsMet(inner, states, shardOf, task, rest + {tested}, met)
      && tested !in rest && met[tested].lastSeen == seen
  }

  /** What a task relies on while others run. */
  ghost predicate TaskOk(inner: map<FlowKey, nat>, states: seq<Flow>, shardOf: FlowKey -> nat, task: Task) {
    match task
    case Touching(key, _, _, _, touch) =>
      touch.Found? || touch.Counted? ==> key in inner && inner[key] == touch.id
    case Collecting(_, _, _, dropped, removed) =>
      dropped == |removed| && VisitOk(inner, states, shardOf, task)
  }

  ghost predicate TasksOk(s: System, shardOf: FlowKey -> nat) {
    forall t :: 0 <= t < |s.tasks| ==> TaskOk(s.inner, s.states, shardOf, s.tasks[t])
  }

  ghost predicate Safe(s: System, shardOf: FlowKey -> nat) {
    Guarding(s, shardOf) && Live(s) && TasksOk(s, shardOf)
  }

  /** Nothing outside this shard has changed. */
  ghost predicate SameElsewhere(s: System, next: System, shardOf: FlowKey -> nat, shard: nat) {
    forall key :: shardOf(key) != shard ==>
                    && (key in next.inner <==> key in s.inner)
                    && (key in s.inner ==>
                          && next.inner[key] == s.inner[key]
                          && StateAt(next.states, s.inner[key]) == StateAt(s.states, s.inner[key]))
  }

  /** A task is safe from whoever changes a shard whose lock it does not hold. */
  lemma OthersUnaffected(s: System, next: System, shardOf: FlowKey -> nat, shard: nat, task: Task)
    requires SameElsewhere(s, next, shardOf, shard) && Held(task, shardOf) != Some(shard)
    requires TaskOk(s.inner, s.states, shardOf, task)
    ensures TaskOk(next.inner, next.states, shardOf, task)
  {
  }

  /** The step of task `t`, holding `shard`, keeps the whole system safe if it keeps
      itself and the map safe and leaves other shards alone. */
  lemma HolderKeepsSafe(s: System, next: System, shardOf: FlowKey -> nat, t: nat, shard: nat)
    requires Safe(s, shardOf) && t < |s.tasks| && Held(s.tasks[t], shardOf) == Some(shard)
    requires |next.tasks| == |s.tasks| && next.tasks == s.tasks[t := next.tasks[t]]
    requires next.guards == if Held(next.tasks[t], shardOf) == Some(shard) then s.guards else s.guards - {shard}
    requires Held(next.tasks[t], shardOf) in {Some(shard), None}
    requires Live(next) && SameElsewhere(s, next, shardOf, shard)
    requires TaskOk(next.inner, next.states, shardOf, next.tasks[t])
    ensures Safe(next, shardOf)
  {
    assert s.guards[shard] == t;
    forall u | 0 <= u < |next.tasks|
      ensures TaskOk(next.inner, next.states, shardOf, next.tasks[u])
      ensures Held(next.tasks[u], shardOf).Some? ==>
                var held := Held(next.tasks[u], shardOf).value;
                held in next.guards && next.guards[held] == u
    {
      if u != t {
        assert next.tasks[u] == s.tasks[u];
        assert Held(s.tasks[u], shardOf) != Some(shard);
        OthersUnaffected(s, next, shardOf, shard, s.tasks[u]);
      }
    }
  }

  lemma LockKeepsSafe(s: System, shardOf: FlowKey -> nat, t: nat, shard: nat, me: Task)
    requires Safe(s, shardOf) && t < |s.tasks| && shard !in s.guards
    requires Held(s.tasks[t], shardOf).None? && Held(me, shardOf) == Some(shard)
    requires TaskOk(s.inner, s.states, shardOf, me)
    ensures Safe(s.(guards := s.guards[shard := t], tasks := s.tasks[t := me]), shardOf)
  {
  }

  lemma BeginKeepsSafe(s: System, shardOf: FlowKey -> nat, me: Task)
    requires Safe(s, shardOf) && Held(me, shardOf).None? && TaskOk(s.inner, s.states, shardOf, me)
    ensures Safe(s.(tasks := s.tasks + [me]), shardOf)
  {
  }

  lemma TouchKeepsSafe(s: System, shardOf: FlowKey -> nat, t: nat)
    requires Safe(s, shardOf) && t < |s.tasks| && s.tasks[t].Touching?
    ensures Safe(AdvanceTouch(s, shardOf, t), shardOf)
  {
    var me, next := s.tasks[t], AdvanceTouch(s, shardOf, t);
    assert TaskOk(s.inner, s.states, shardOf, me);
    match me.touch {
      case Queued =>
        if shardOf(me.key) !in s.guards {
          LockKeepsSafe(s, shardOf, t, shardOf(me.key), me.(touch := Guarded));
        }
      case Finished =>
      case _ => HolderKeepsSafe(s, next, shardOf, t, shardOf(me.key));
    }
  }

  lemma GcKeepsSafe(s: System, shardOf: FlowKey -> nat, t: nat)
    requires Safe(s, shardOf) && t < |s.tasks| && s.tasks[t].Collecting?
    ensures Safe(AdvanceGc(s, shardOf, t), shardOf)
  {
    var me, next := s.tasks[t], AdvanceGc(s, shardOf, t);
    assert TaskOk(s.inner, s.states, shardOf, me);
    match me.visit {
      case Between =>
        if me.shard !in s.guards {
          VisitBegins(s, shardOf, t);
          LockKeepsSafe(s, shardOf, t, me.shard, next.tasks[t]);
        }
      case Scanning(pending, _) =>
        if pending == {} {
          VisitEnds(s, shardOf, t);
          HolderKeepsSafe(s, next, shardOf, t, me.shard);
        }
      case Testing(_, _, _, _) =>
        VerdictKeepsLive(s, shardOf, t);
        VerdictIsOk(s, shardOf, t);
        HolderKeepsSafe(s, next, shardOf, t, me.shard);
    }
  }

  lemma VisitBegins(s: System, shardOf: FlowKey -> nat, t: nat)
    requires t < |s.tasks| && s.tasks[t].Collecting? && s.tasks[t].visit.Between? && s.tasks[t].shard !in s.guards
    requires TaskOk(s.inner, s.states, shardOf, s.tasks[t])
    ensures TaskOk(s.inner, s.states, shardOf, AdvanceGc(s, shardOf, t).tasks[t])
  {
  }

  lemma VisitEnds(s: System, shardOf: FlowKey -> nat, t: nat)
    requires t < |s.tasks| && s.tasks[t].Collecting? && s.tasks[t].visit.Scanning? && s.tasks[t].visit.pending == {}
    requires TaskOk(s.inner, s.states, shardOf, s.tasks[t])
    ensures TaskOk(s.inner, s.states, shardOf, AdvanceGc(s, shardOf, t).tasks[t])
  {
  }

  lemma VerdictKeepsLive(s: System, shardOf: FlowKey -> nat, t: nat)
    requires Live(s) && t < |s.tasks| && s.tasks[t].Collecting? && s.tasks[t].visit.Testing?
    ensures Live(AdvanceGc(s, shardOf, t))
  {
  }

  /** Removing an idle entry, or sparing one, leaves the visit as it should be. */
  lemma VerdictIsOk(s: System, shardOf: FlowKey -> nat, t: nat)
    requires t < |s.tasks| && s.tasks[t].Collecting? && s.tasks[t].visit.Testing?
    requires TaskOk(s.inner, s.states, shardOf, s.tasks[t])
    ensures var next := AdvanceGc(s, shardOf, t);
            TaskOk(next.inner, next.states, shardOf, next.tasks[t])
  {
    assert s.tasks[t].visit.key !in s.tasks[t].removed;
  }

  lemma StepKeepsSafe(s: System, shardOf: FlowKey -> nat, step: Step)
    requires Safe(s, shardOf)
    ensures Safe(Apply(s, shardOf, step), shardOf)
  {
    match step {
      case BeginTouch(key, side, bytes, at) =>
        BeginKeepsSafe(s, shardOf, Touching(key, side, bytes, at, Queued));
      case BeginGc(now, idle) =>
        BeginKeepsSafe(s, shardOf, Collecting(Cutoff(now, idle), 0, Between, 0, {}));
      case Advance(t) =>
        if t < |s.tasks| {
          if s.tasks[t].Touching? {
            TouchKeepsSafe(s, shardOf, t);
          } else {
            GcKeepsSafe(s, shardOf, t);
          }
        }
      case Test(t, key) =>
        if t < |s.tasks| {
          TestKeepsSafe(s, shardOf, t, key);
        }
    }
  }

  lemma TestKeepsSafe(s: System, shardOf: FlowKey -> nat, t: nat, key: FlowKey)
    requires Safe(s, shardOf) && t < |s.tasks|
    ensures Safe(TestEntry(s, t, key), shardOf)
  {
    var me := s.tasks[t];
    assert TaskOk(s.inner, s.states, shardOf, me);
    if me.Collecting? && me.visit.Scanning? && key in me.visit.pending {
      HolderKeepsSafe(s, TestEntry(s, t, key), shardOf, t, me.shard);
    }
  }

  // ----------------------------------------------------------- the history

  /** Bytes added on one side of a flow since its entry was last created. */
  function SinceCreation(history: seq<Event>, key: FlowKey, side: Side): nat {
    if history == [] then 0
    else
      var before := SinceCreation(history[..|history| - 1], key, side);
      match history[|history| - 1]
      case Created(k, _) => if k == key then 0 else before
      case Added(k, _, d, bytes) => before + (if k == key && d == side then bytes else 0)
      case Stored(_, _, _) => before
      case Removed(k, _, _) => if k == key then 0 else before
  }

  /** The last time stamp stored in a flow since its entry was created, 0 if none was;
      none if the flow has no entry. */
  function LastSeen(history: seq<Event>, key: FlowKey): Option<u64> {
    if history == [] then None
    else
      var before := LastSeen(history[..|history| - 1], key);
      match history[|history| - 1]
      case Created(k, _) => if k == key then Some(0) else before
      case Added(_, _, _, _) => before
      case Stored(k, _, at) => if k == key then Some(at) else before
      case Removed(k, _, _) => if k == key then None else before
  }

  /** Bytes ever added on one side of a flow. */
  function AllAdded(history: seq<Event>, key: FlowKey, side: Side): nat {
    if history == [] then 0
    else
      AllAdded(history[..|history| - 1], key, side)
      + match history[|history| - 1]
        case Added(k, _, d, bytes) => if k == key && d == side then bytes else 0
        case _ => 0
  }

  /** What the counters of the flow's removed states held when their entries went. */
  function RetiredCount(history: seq<Event>, key: FlowKey, side: Side): nat {
    if history == [] then 0
    else
      RetiredCount(history[..|history| - 1], key, side)
      + match history[|history| - 1]
        case Removed(k, _, last) => if k == key then last.Count(side) else 0
        case _ => 0
  }

  ghost predicate CountersFollow(s: System, key: FlowKey) {
    && (key in s.inner <==> LastSeen(s.history, key).Some?)
    && (key in s.inner ==>
          var flow := StateAt(s.states, s.inner[key]);
          && flow.lastSeen == LastSeen(s.history, key).value
          && flow.bytesIn == SinceCreation(s.history, key, Inbound) % U64_MODULUS
          && flow.bytesOut == SinceCreation(s.history, key, Outbound) % U64_MODULUS)
    && (key !in s.inner ==> SinceCreation(s.history, key, Inbound) == 0 == SinceCreation(s.history, key, Outbound))
  }

  /** What one step did to the map, the states and the history. */
  datatype Effect =
    | Nothing
    | Creates(key: FlowKey)
    | Adds(key: FlowKey, side: Side, bytes: u64)
    | Stores(key: FlowKey, at: u64)
    | Removes(key: FlowKey)

  /** A write, of either kind, goes to the state the key's entry refers to now. */
  ghost predicate HasEffect(s: System, next: System, effect: Effect) {
    match effect
    case Nothing => next.inner == s.inner && next.states == s.states && next.history == s.history
    case Creates(key) =>
      && key !in s.inner && next.inner == s.inner[key := |s.states|]
      && next.states == s.states + [FRESH_FLOW] && next.history == s.history + [Created(key, |s.states|)]
    case Adds(key, side, bytes) =>
      && key in s.inner && next.inner == s.inner && s.inner[key] < |s.states|
      && next.states == s.states[s.inner[key] := WithCount(s.states[s.inner[key]], side, bytes)]
      && next.history == s.history + [Added(key, s.inner[key], side, bytes)]
    case Stores(key, at) =>
      && key in s.inner && next.inner == s.inner && s.inner[key] < |s.states|
      && next.states == s.states[s.inner[key] := s.states[s.inner[key]].(lastSeen := at)]
      && next.history == s.history + [Stored(key, s.inner[key], at)]
    case Removes(key) =>
      && key in s.inner && next.inner == s.inner - {key} && s.inner[key] < |s.states| && next.states == s.states
      && next.history == s.history + [Removed(key, s.inner[key], s.states[s.inner[key]])]
  }

  /** Retired states: those whose entry has gone, and no others. */
  ghost predicate Retires(s: System, next: System, effect: Effect) {
    next.retired == if effect.Removes? && effect.key in s.inner then s.retired + {s.inner[effect.key]} else s.retired
  }

  function EffectOf(s: System, step: Step): Effect {
    if !step.Advance? || step.task >= |s.tasks| then Nothing
    else
      match s.tasks[step.task]
      case Touching(key, side, bytes, at, touch) =>
        (match touch
         case Guarded => if key in s.inner then Nothing else Creates(key)
         case Found(_) => Adds(key, side, bytes)
         case Counted(_) => Stores(key, at)
         case _ => Nothing)
      case Collecting(cutoff, _, visit, _, _) =>
        (match visit
         case Testing(_, key, seen, _) => if seen < cutoff && key in s.inner then Removes(key) else Nothing
         case _ => Nothing)
  }

  lemma StepHasEffect(s: System, shardOf: FlowKey -> nat, step: Step)
    requires Safe(s, shardOf)
    ensures HasEffect(s, Apply(s, shardOf, step), EffectOf(s, step))
    ensures Retires(s, Apply(s, shardOf, step), EffectOf(s, step))
  {
    if step.Advance? && step.task < |s.tasks| {
      assert TaskOk(s.inner, s.states, shardOf, s.tasks[step.task]);
    }
  }

  lemma WrapsOnce(sum: nat, bytes: u64)
    ensures WrappingAdd(sum % U64_MODULUS, bytes) == (sum + bytes) % U64_MODULUS
  {
  }

  lemma SinceSnoc(history: seq<Event>, event: Event, key: FlowKey, side: Side)
    ensures SinceCreation(history + [event], key, side)
            == if event.key == key && (event.Created? || event.Removed?) then 0
               else SinceCreation(history, key, side)
                    + (if event.Added? && event.key == key && event.side == side then event.bytes else 0)
  {
    assert (history + [event])[..|history|] == history;
  }

  lemma LastSeenSnoc(history: seq<Event>, event: Event, key: FlowKey)
    ensures LastSeen(history + [event], key)
            == if event.key != key || event.Added? then LastSeen(history, key)
               else if event.Created? then Some(0)
               else if event.Stored? then Some(event.at)
               else None
  {
    assert (history + [event])[..|history|] == history;
  }

  lemma EffectFollows(s: System, next: System, effect: Effect, key: FlowKey)
    requires Live(s) && HasEffect(s, next, effect) && CountersFollow(s, key)
    ensures CountersFollow(next, key)
  {
    if !effect.Nothing? {
      var event := next.history[|s.history|];
      assert next.history == s.history + [event];
      SinceSnoc(s.history, event, key, Inbound);
      SinceSnoc(s.history, event, key, Outbound);
      LastSeenSnoc(s.history, event, key);
      if effect.Adds? {
        WrapsOnce(SinceCreation(s.history, key, effect.side), effect.bytes);
      }
    }
  }

  ghost predicate Inv(s: System, shardOf: FlowKey -> nat) {
    Safe(s, shardOf) && forall key :: CountersFollow(s, key)
  }

  lemma StepKeepsInv(s: System, shardOf: FlowKey -> nat, step: Step)
    requires Inv(s, shardOf)
    ensures Inv(Apply(s, shardOf, step), shardOf)
  {
    StepKeepsSafe(s, shardOf, step);
    StepHasEffect(s, shardOf, step);
    forall key
      ensures CountersFollow(Apply(s, shardOf, step), key)
    {
      EffectFollows(s, Apply(s, shardOf, step), EffectOf(s, step), key);
    }
  }

  lemma {:induction false} RunKeepsInv(s: System, shardOf: FlowKey -> nat, steps: seq<Step>)
    requires Inv(s, shardOf)
    ensures Inv(Exec(s, shardOf, steps), shardOf)
    decreases |steps|
  {
    if steps == [] {
    } else {
      StepKeepsInv(s, shardOf, steps[0]);
      RunKeepsInv(Apply(s, shardOf, steps[0]), shardOf, steps[1..]);
    }
  }

  // ------------------------------------------------------------- main results

  /** In every interleaving of any number of touches and collections, down to single
      atomic operations, the table holds exactly the flows created since they were last
      removed, and each counter is the sum of what was added on its side since, as a
      64-bit counter shows it. */
  lemma HistoryRefinement(shardOf: FlowKey -> nat, steps: seq<Step>, key: FlowKey)
    ensures CountersFollow(Exec(EMPTY, shardOf, steps), key)
  {
    RunKeepsInv(EMPTY, shardOf, steps);
  }

  /** A write to this state. */
  ghost predicate Writes(event: Event, id: nat) {
    (event.Added? || event.Stored?) && event.id == id
  }

  /** No state is written, nor given to another entry, once its entry is gone; and the
      history's removals are the retired states. */
  ghost predicate NoOrphans(s: System) {
    && (forall i :: 0 <= i < |s.history| && s.history[i].Removed? ==> s.history[i].id in s.retired)
    && (forall i, j :: 0 <= i < j < |s.history| && s.history[i].Removed? ==> s.history[j].id != s.history[i].id)
  }

  lemma StepOrphansNothing(s: System, shardOf: FlowKey -> nat, step: Step)
    requires Safe(s, shardOf) && NoOrphans(s)
    ensures NoOrphans(Apply(s, shardOf, step))
  {
    StepHasEffect(s, shardOf, step);
  }

  lemma {:induction false} RunOrphansNothing(s: System, shardOf: FlowKey -> nat, steps: seq<Step>)
    requires Safe(s, shardOf) && NoOrphans(s)
    ensures NoOrphans(Exec(s, shardOf, steps))
    decreases |steps|
  {
    if steps == [] {
    } else {
      StepOrphansNothing(s, shardOf, steps[0]);
      StepKeepsSafe(s, shardOf, steps[0]);
      RunOrphansNothing(Apply(s, shardOf, steps[0]), shardOf, steps[1..]);
    }
  }

  /** Why the shard's lock is held from the lookup to the store: whatever collections do
      in between, no add and no time stamp ever lands on a state that has left the map. */
  lemma NoOrphanedUpdate(shardOf: FlowKey -> nat, steps: seq<Step>, i: nat, j: nat)
    requires i < j < |Exec(EMPTY, shardOf, steps).history|
    requires Exec(EMPTY, shardOf, steps).history[i].Removed?
    ensures var history := Exec(EMPTY, shardOf, steps).history;
            !Writes(history[j], history[i].id)
  {
    RunOrphansNothing(EMPTY, shardOf, steps);
  }

  /** A touch that has found its state still finds it in the map when it writes. */
  lemma TouchHoldsLiveState(shardOf: FlowKey -> nat, steps: seq<Step>, t: nat)
    requires t < |Exec(EMPTY, shardOf, steps).tasks|
    requires var me := Exec(EMPTY, shardOf, steps).tasks[t];
             me.Touching? && (me.touch.Found? || me.touch.Counted?)
    ensures var s := Exec(EMPTY, shardOf, steps);
            var me := s.tasks[t];
            me.key in s.inner && s.inner[me.key] == me.touch.id && me.touch.id !in s.retired
  {
    RunKeepsInv(EMPTY, shardOf, steps);
    var s := Exec(EMPTY, shardOf, steps);
    assert TaskOk(s.inner, s.states, shardOf, s.tasks[t]);
  }

  /** An entry under test leaves the map exactly if it was last seen before the cutoff, as
      things stand when it leaves: a touch that gets in first saves its flow. */
  lemma TestRemovesExactlyIdle(shardOf: FlowKey -> nat, steps: seq<Step>, t: nat)
    requires t < |Exec(EMPTY, shardOf, steps).tasks|
    requires var me := Exec(EMPTY, shardOf, steps).tasks[t]; me.Collecting? && me.visit.Testing?
    ensures var s := Exec(EMPTY, shardOf, steps);
            var me, next := s.tasks[t], Apply(s, shardOf, Advance(t));
            && LastSeen(s.history, me.visit.key).Some?
            && next.inner == if LastSeen(s.history, me.visit.key).value < me.cutoff then s.inner - {me.visit.key}
                             else s.inner
  {
    HistoryRefinement(shardOf, steps, Exec(EMPTY, shardOf, steps).tasks[t].visit.key);
    RunKeepsInv(EMPTY, shardOf, steps);
    var s := Exec(EMPTY, shardOf, steps);
    assert TaskOk(s.inner, s.states, shardOf, s.tasks[t]);
  }

  /** A visit removes exactly the flows of its shard last touched before the cutoff as things
      stood when it took the lock, whatever other tasks do meanwhile: when it is about to
      let the lock go, the shard holds what it held, less what was idle. */
  lemma VisitRemovesExactlyIdle(shardOf: FlowKey -> nat, steps: seq<Step>, t: nat)
    requires t < |Exec(EMPTY, shardOf, steps).tasks|
    requires var me := Exec(EMPTY, shardOf, steps).tasks[t];
             me.Collecting? && me.visit.Scanning? && me.visit.pending == {}
    ensures var s := Exec(EMPTY, shardOf, steps);
            var me := s.tasks[t];
            ShardOf(s.inner, s.states, shardOf, me.shard)
            == me.visit.met - Idle(me.visit.met, shardOf, me.shard, me.cutoff).Keys
  {
    RunKeepsInv(EMPTY, shardOf, steps);
    var s := Exec(EMPTY, shardOf, steps);
    assert TaskOk(s.inner, s.states, shardOf, s.tasks[t]);
  }

  /** A collection's count is the number of flows it removed, none of them in a shard it
      has not come to. */
  lemma CollectionCount(shardOf: FlowKey -> nat, steps: seq<Step>, t: nat)
    requires t < |Exec(EMPTY, shardOf, steps).tasks| && Exec(EMPTY, shardOf, steps).tasks[t].Collecting?
    ensures var me := Exec(EMPTY, shardOf, steps).tasks[t];
            me.dropped == |me.removed| && forall key :: key in me.removed ==> shardOf(key) <= me.shard
  {
    RunKeepsInv(EMPTY, shardOf, steps);
    var s := Exec(EMPTY, shardOf, steps);
    assert TaskOk(s.inner, s.states, shardOf, s.tasks[t]);
  }

  /** A collection takes the shards in turn from the first, leaving none out: it asks for the
      lock of the one it is at, and moves on by one when no entry is left to test. */
  lemma ShardsInTurn(s: System, shardOf: FlowKey -> nat, t: nat, now: u64, idle: u64)
    requires t < |s.tasks| && s.tasks[t].Collecting?
    ensures var begun := Apply(s, shardOf, BeginGc(now, idle)).tasks[|s.tasks|];
            begun.Collecting? && begun.shard == 0 && begun.visit.Between? && begun.cutoff == SaturatingSub(now, idle)
    ensures var me, next := s.tasks[t], Apply(s, shardOf, Advance(t));
            && (me.visit.Between? && me.shard !in s.guards ==>
                  next.guards == s.guards[me.shard := t] && next.tasks[t].shard == me.shard
                  && next.tasks[t].visit == Scanning(ShardOf(s.inner, s.states, shardOf, me.shard).Keys,
                                                     ShardOf(s.inner, s.states, shardOf, me.shard)))
            && (me.visit.Scanning? && me.visit.pending == {} ==>
                  next.tasks[t].shard == me.shard + 1 && next.tasks[t].visit.Between?)
            && (me.visit.Scanning? && me.visit.pending != {} ==> next == s)
  {
  }

  // ---------------------------------------------------------- no byte is lost

  /** What a touch has contributed to one side of a flow: its bytes, from its add on. */
  function Contribution(task: Task, key: FlowKey, side: Side): nat {
    if task.Touching? && task.key == key && task.side == side
       && (task.touch.Counted? || task.touch.Stamped? || task.touch.Finished?)
    then task.bytes else 0
  }

  function Contributions(tasks: seq<Task>, key: FlowKey, side: Side): nat {
    if tasks == [] then 0
    else Contributions(tasks[..|tasks| - 1], key, side) + Contribution(tasks[|tasks| - 1], key, side)
  }

  lemma {:induction false} ContributionsUpdate(tasks: seq<Task>, t: nat, me: Task, key: FlowKey, side: Side)
    requires t < |tasks|
    ensures Contributions(tasks[t := me], key, side) + Contribution(tasks[t], key, side)
            == Contributions(tasks, key, side) + Contribution(me, key, side)
    decreases |tasks|
  {
    var n := |tasks| - 1;
    if t == n {
      assert tasks[t := me][..n] == tasks[..n];
    } else {
      ContributionsUpdate(tasks[..n], t, me, key, side);
      assert tasks[t := me][..n] == tasks[..n][t := me];
    }
  }

  /** What an effect adds to one side of a flow. */
  function AddedBy(effect: Effect, key: FlowKey, side: Side): nat {
    if effect.Adds? && effect.key == key && effect.side == side then effect.bytes else 0
  }

  lemma EffectAdds(s: System, next: System, effect: Effect, key: FlowKey, side: Side)
    requires HasEffect(s, next, effect)
    ensures AllAdded(next.history, key, side) == AllAdded(s.history, key, side) + AddedBy(effect, key, side)
  {
    if !effect.Nothing? {
      assert next.history[..|s.history|] == s.history;
    }
  }

  lemma TouchContributes(s: System, shardOf: FlowKey -> nat, t: nat, key: FlowKey, side: Side)
    requires t < |s.tasks| && s.tasks[t].Touching?
    ensures var tasks := AdvanceTouch(s, shardOf, t).tasks;
            && |tasks| == |s.tasks| && tasks == s.tasks[t := tasks[t]]
            && Contribution(tasks[t], key, side)
               == Contribution(s.tasks[t], key, side) + AddedBy(EffectOf(s, Advance(t)), key, side)
  {
    var me := s.tasks[t];
    match me.touch {
      case Queued =>
      case Guarded =>
      case Found(id) => assert AdvanceTouch(s, shardOf, t).tasks == s.tasks[t := me.(touch := Counted(id))];
      case Counted(_) => assert AdvanceTouch(s, shardOf, t).tasks == s.tasks[t := me.(touch := Stamped)];
      case Stamped => assert AdvanceTouch(s, shardOf, t).tasks == s.tasks[t := me.(touch := Finished)];
      case Finished =>
    }
  }

  lemma GcContributes(s: System, shardOf: FlowKey -> nat, t: nat, key: FlowKey, side: Side)
    requires t < |s.tasks| && s.tasks[t].Collecting?
    ensures var tasks := AdvanceGc(s, shardOf, t).tasks;
            && |tasks| == |s.tasks| && tasks == s.tasks[t := tasks[t]]
            && tasks[t].Collecting? && !EffectOf(s, Advance(t)).Adds?
  {
  }

  lemma StepContributes(s: System, shardOf: FlowKey -> nat, step: Step, key: FlowKey, side: Side)
    ensures Contributions(Apply(s, shardOf, step).tasks, key, side)
            == Contributions(s.tasks, key, side) + AddedBy(EffectOf(s, step), key, side)
  {
    var tasks := Apply(s, shardOf, step).tasks;
    if step.BeginTouch? || step.BeginGc? {
      assert tasks[..|s.tasks|] == s.tasks;
    } else if step.task < |s.tasks| {
      if step.Test? {
        assert |tasks| == |s.tasks| && tasks == s.tasks[step.task := tasks[step.task]];
        assert Contribution(tasks[step.task], key, side) == Contribution(s.tasks[step.task], key, side);
      } else if s.tasks[step.task].Touching? {
        TouchContributes(s, shardOf, step.task, key, side);
      } else {
        GcContributes(s, shardOf, step.task, key, side);
      }
      ContributionsUpdate(s.tasks, step.task, tasks[step.task], key, side);
    }
  }

  /** Every touch's bytes are added once, and only while it is at that operation. */
  lemma StepAddsOnce(s: System, shardOf: FlowKey -> nat, step: Step, key: FlowKey, side: Side)
    requires Safe(s, shardOf) && AllAdded(s.history, key, side) == Contributions(s.tasks, key, side)
    ensures var next := Apply(s, shardOf, step);
            AllAdded(next.history, key, side) == Contributions(next.tasks, key, side)
  {
    StepHasEffect(s, shardOf, step);
    EffectAdds(s, Apply(s, shardOf, step), EffectOf(s, step), key, side);
    StepContributes(s, shardOf, step, key, side);
  }

  lemma {:induction false} RunAddsOnce(s: System, shardOf: FlowKey -> nat, steps: seq<Step>, key: FlowKey, side: Side)
    requires Safe(s, shardOf) && AllAdded(s.history, key, side) == Contributions(s.tasks, key, side)
    ensures var end := Exec(s, shardOf, steps);
            AllAdded(end.history, key, side) == Contributions(end.tasks, key, side)
    decreases |steps|
  {
    if steps == [] {
    } else {
      StepAddsOnce(s, shardOf, steps[0], key, side);
      StepKeepsSafe(s, shardOf, steps[0]);
      RunAddsOnce(Apply(s, shardOf, steps[0]), shardOf, steps[1..], key, side);
    }
  }

  function LiveCount(s: System, key: FlowKey, side: Side): nat {
    if key in s.inner then StateAt(s.states, s.inner[key]).Count(side) else 0
  }

  /** The counters show all bytes added, but for `wraps` times what a 64-bit counter
      loses when it overflows. */
  ghost predicate Shows(s: System, key: FlowKey, side: Side, wraps: nat) {
    LiveCount(s, key, side) + RetiredCount(s.history, key, side) + U64_MODULUS * wraps
    == AllAdded(s.history, key, side)
  }

  lemma RetiredSnoc(history: seq<Event>, event: Event, key: FlowKey, side: Side)
    ensures RetiredCount(history + [event], key, side)
            == RetiredCount(history, key, side)
               + (if event.Removed? && event.key == key then event.last.Count(side) else 0)
  {
    assert (history + [event])[..|history|] == history;
  }

  /** Whether what an effect adds overflows the live counter. */
  function Overflow(s: System, effect: Effect, key: FlowKey, side: Side): nat {
    if LiveCount(s, key, side) + AddedBy(effect, key, side) >= U64_MODULUS then 1 else 0
  }

  /** Only an add that overflows its counter loses anything, and loses 2^64. */
  lemma EffectCounts(s: System, next: System, effect: Effect, key: FlowKey, side: Side)
    requires Live(s) && HasEffect(s, next, effect)
    ensures LiveCount(next, key, side) + RetiredCount(next.history, key, side)
            == LiveCount(s, key, side) + AddedBy(effect, key, side)
               - (if Overflow(s, effect, key, side) == 1 then U64_MODULUS else 0)
               + RetiredCount(s.history, key, side)
  {
    if !effect.Nothing? {
      var event := next.history[|s.history|];
      assert next.history == s.history + [event];
      RetiredSnoc(s.history, event, key, side);
    }
  }

  lemma EffectShows(s: System, next: System, effect: Effect, key: FlowKey, side: Side, wraps: nat)
    requires Live(s) && HasEffect(s, next, effect) && Shows(s, key, side, wraps)
    ensures Shows(next, key, side, wraps + Overflow(s, effect, key, side))
  {
    var more := Overflow(s, effect, key, side);
    EffectAdds(s, next, effect, key, side);
    EffectCounts(s, next, effect, key, side);
    assert U64_MODULUS * (wraps + more) == U64_MODULUS * wraps + U64_MODULUS * more;
  }

  lemma {:induction false} RunShows(s: System, shardOf: FlowKey -> nat, steps: seq<Step>, key: FlowKey, side: Side,
                                    wraps: nat)
    returns (total: nat)
    requires Safe(s, shardOf) && Shows(s, key, side, wraps)
    ensures Shows(Exec(s, shardOf, steps), key, side, total)
    decreases |steps|
  {
    if steps == [] {
      total := wraps;
    } else {
      StepKeepsSafe(s, shardOf, steps[0]);
      StepHasEffect(s, shardOf, steps[0]);
      EffectShows(s, Apply(s, shardOf, steps[0]), EffectOf(s, steps[0]), key, side, wraps);
      var more := Overflow(s, EffectOf(s, steps[0]), key, side);
      total := RunShows(Apply(s, shardOf, steps[0]), shardOf, steps[1..], key, side, wraps + more);
    }
  }

  /** Nothing is lost to a race: the live counter and the removed ones together show the
      bytes of every touch whose add is done, each once, up to 2^64 for every time a
      counter overflowed; below 2^64 bytes, exactly. */
  lemma LiveAndRetiredBytes(shardOf: FlowKey -> nat, steps: seq<Step>, key: FlowKey, side: Side)
    ensures var s := Exec(EMPTY, shardOf, steps);
            var shown, touched := LiveCount(s, key, side) + RetiredCount(s.history, key, side),
                                  Contributions(s.tasks, key, side);
            && (exists wraps: nat :: shown + U64_MODULUS * wraps == touched)
            && (touched < U64_MODULUS ==> shown == touched)
  {
    RunAddsOnce(EMPTY, shardOf, steps, key, side);
    var wraps := RunShows(EMPTY, shardOf, steps, key, side, 0);
  }

  // --------------------------------------------- letting the lock go too early

  datatype EarlyStep = Usual(step: Step) | LetGo(task: nat)

  /** Another program: a touch may let its shard go as soon as it has found its state. */
  function ApplyEarly(s: System, shardOf: FlowKey -> nat, step: EarlyStep): System {
    match step
    case Usual(usual) => Apply(s, shardOf, usual)
    case LetGo(t) =>
      if t < |s.tasks| && s.tasks[t].Touching? && s.tasks[t].touch.Found?
      then s.(guards := s.guards - {shardOf(s.tasks[t].key)}) else s
  }

  function ExecEarly(s: System, shardOf: FlowKey -> nat, steps: seq<EarlyStep>): System
    decreases |steps|
  {
    if steps == [] then s else ExecEarly(ApplyEarly(s, shardOf, steps[0]), shardOf, steps[1..])
  }

  /** From `s` these steps lead to `next`. */
  ghost predicate Leads(s: System, shardOf: FlowKey -> nat, next: System) {
    exists steps :: ExecEarly(s, shardOf, steps) == next
  }

  lemma OneStepLeads(s: System, shardOf: FlowKey -> nat, step: EarlyStep)
    ensures Leads(s, shardOf, ApplyEarly(s, shardOf, step))
  {
    assert ExecEarly(s, shardOf, [step]) == ExecEarly(ApplyEarly(s, shardOf, step), shardOf, []);
  }

  lemma {:induction false} ExecEarlyAppend(s: System, shardOf: FlowKey -> nat, first: seq<EarlyStep>,
                                           rest: seq<EarlyStep>)
    ensures ExecEarly(s, shardOf, first + rest) == ExecEarly(ExecEarly(s, shardOf, first), shardOf, rest)
    decreases |first|
  {
    if first == [] {
      assert first + rest == rest;
    } else {
      assert (first + rest)[1..] == first[1..] + rest;
      ExecEarlyAppend(ApplyEarly(s, shardOf, first[0]), shardOf, first[1..], rest);
    }
  }

  lemma LeadsOn(s: System, shardOf: FlowKey -> nat, next: System, step: EarlyStep)
    requires Leads(s, shardOf, next)
    ensures Leads(s, shardOf, ApplyEarly(next, shardOf, step))
  {
    var first :| ExecEarly(s, shardOf, first) == next;
    OneStepLeads(next, shardOf, step);
    var rest :| ExecEarly(next, shardOf, rest) == ApplyEarly(next, shardOf, step);
    ExecEarlyAppend(s, shardOf, first, rest);
  }

  /** A touch has found the state of the only flow and has let go; a collection is about to
      take shard `k`. */
  function LetGoBefore(touch: Task, cutoff: u64, k: nat): System
    requires touch.Touching?
  {
    System(map[touch.key := 0], [FRESH_FLOW], {}, map[],
           [touch.(touch := Found(0)), Collecting(cutoff, k, Between, 0, {})], [Created(touch.key, 0)])
  }

  lemma LetGoAtOnce(touch: Task, now: u64, idle: u64, shardOf: FlowKey -> nat)
    requires touch.Touching? && touch.touch.Queued?
    ensures Leads(EMPTY, shardOf, LetGoBefore(touch, Cutoff(now, idle), 0))
  {
    var shard := shardOf(touch.key);
    var s1 := EMPTY.(tasks := [touch]);
    var s2 := s1.(guards := map[shard := 0], tasks := [touch.(touch := Guarded)]);
    var s3 := System(map[touch.key := 0], [FRESH_FLOW], {}, map[shard := 0], [touch.(touch := Found(0))],
                     [Created(touch.key, 0)]);
    var s4 := s3.(guards := map[]);
    OneStepLeads(EMPTY, shardOf, Usual(BeginTouch(touch.key, touch.side, touch.bytes, touch.at)));
    LeadsOn(EMPTY, shardOf, s1, Usual(Advance(0)));
    LeadsOn(EMPTY, shardOf, s2, Usual(Advance(0)));
    LeadsOn(EMPTY, shardOf, s3, LetGo(0));
    LeadsOn(EMPTY, shardOf, s4, Usual(BeginGc(now, idle)));
  }

  /** The collection finds nothing in the shards before the flow's own. */
  lemma {:induction false} ComesToShard(touch: Task, cutoff: u64, k: nat, shardOf: FlowKey -> nat)
    requires touch.Touching? && k <= shardOf(touch.key)
    requires Leads(EMPTY, shardOf, LetGoBefore(touch, cutoff, 0))
    ensures Leads(EMPTY, shardOf, LetGoBefore(touch, cutoff, k))
    decreases k
  {
    if k == 0 {
    } else {
      ComesToShard(touch, cutoff, k - 1, shardOf);
      var before := LetGoBefore(touch, cutoff, k - 1);
      var taken := before.(guards := map[k - 1 := 1],
                           tasks := [touch.(touch := Found(0)), Collecting(cutoff, k - 1, Scanning({}, map[]), 0, {})]);
      var met := ShardOf(before.inner, before.states, shardOf, k - 1);
      assert met == map[] && met.Keys == {} && map[][k - 1 := 1] == map[k - 1 := 1];
      assert before.tasks[1 := taken.tasks[1]] == taken.tasks;
      assert ApplyEarly(before, shardOf, Usual(Advance(1))) == taken;
      LeadsOn(EMPTY, shardOf, before, Usual(Advance(1)));
      LeadsOn(EMPTY, shardOf, taken, Usual(Advance(1)));
      assert ApplyEarly(taken, shardOf, Usual(Advance(1))) == LetGoBefore(touch, cutoff, k);
    }
  }

  /** An add or a store landed on a state after its entry was removed. */
  ghost predicate Orphaned(s: System) {
    exists i, j :: 0 <= i < j < |s.history| && s.history[i].Removed? && Writes(s.history[j], s.history[i].id)
  }

  /** The removal, and then the add that comes too late. */
  lemma RemovedThenAdded(touch: Task, cutoff: u64, shardOf: FlowKey -> nat) returns (end: System)
    requires touch.Touching? && cutoff > 0
    requires Leads(EMPTY, shardOf, LetGoBefore(touch, cutoff, shardOf(touch.key)))
    ensures Leads(EMPTY, shardOf, end) && Orphaned(end)
  {
    var key, k := touch.key, shardOf(touch.key);
    var found, met := touch.(touch := Found(0)), map[key := FRESH_FLOW];
    var s0 := LetGoBefore(touch, cutoff, k);
    var s1 := s0.(guards := map[k := 1], tasks := [found, Collecting(cutoff, k, Scanning({key}, met), 0, {})]);
    var s2 := s1.(tasks := [found, Collecting(cutoff, k, Testing({}, key, 0, met), 0, {})]);
    var s3 := System(map[], [FRESH_FLOW], {0}, map[k := 1],
                     [found, Collecting(cutoff, k, Scanning({}, met), 1, {key})],
                     [Created(key, 0), Removed(key, 0, FRESH_FLOW)]);
    assert ShardOf(s0.inner, s0.states, shardOf, k) == met && met.Keys == {key};
    assert ApplyEarly(s0, shardOf, Usual(Advance(1))) == s1;
    assert {key} - {key} == {} && s1.tasks[1 := s2.tasks[1]] == s2.tasks;
    LeadsOn(EMPTY, shardOf, s0, Usual(Advance(1)));
    assert ApplyEarly(s1, shardOf, Usual(Test(1, key))) == s2;
    LeadsOn(EMPTY, shardOf, s1, Usual(Test(1, key)));
    assert map[key := 0] - {key} == map[] && {} + {0} == {0} && {} + {key} == {key};
    assert [Created(key, 0)] + [Removed(key, 0, FRESH_FLOW)] == s3.history;
    assert s2.tasks[1 := s3.tasks[1]] == s3.tasks;
    assert ApplyEarly(s2, shardOf, Usual(Advance(1))) == s3;
    LeadsOn(EMPTY, shardOf, s2, Usual(Advance(1)));
    LeadsOn(EMPTY, shardOf, s3, Usual(Advance(0)));
    end := ApplyEarly(s3, shardOf, Usual(Advance(0)));
    assert end.history[1].Removed? && Writes(end.history[2], 0);
  }

  /** The guard is needed up to the add: in the program that lets it go at the lookup, for
      any flow and any collection with a cutoff, some run orphans the touch's bytes. */
  lemma EarlyUnlockOrphans(shardOf: FlowKey -> nat, key: FlowKey, side: Side, bytes: u64, at: u64,
                           now: u64, idle: u64)
    requires Cutoff(now, idle) > 0
    ensures exists steps :: Orphaned(ExecEarly(EMPTY, shardOf, steps))
  {
    var touch := Touching(key, side, bytes, at, Queued);
    LetGoAtOnce(touch, now, idle, shardOf);
    ComesToShard(touch, Cutoff(now, idle), shardOf(key), shardOf);
    var end := RemovedThenAdded(touch, Cutoff(now, idle), shardOf);
  }

  // ------------------------------------------------------ a touch left alone

  /** The values the table's entries refer to. */
  function Values(s: System): Flows {
    ValuesOf(s.inner, s.states)
  }

  function ValuesOf(inner: map<FlowKey, nat>, states: seq<Flow>): Flows {
    map key | key in inner :: StateAt(states, inner[key])
  }

  /** The last three operations of a touch: add, store, unlock. */
  function FromLookup(s: System, shardOf: FlowKey -> nat, t: nat): System {
    Apply(Apply(Apply(s, shardOf, Advance(t)), shardOf, Advance(t)), shardOf, Advance(t))
  }

  /** The first two: lock, look up. */
  function UpToLookup(s: System, shardOf: FlowKey -> nat, t: nat): System {
    Apply(Apply(s, shardOf, Advance(t)), shardOf, Advance(t))
  }

  function WholeTouch(s: System, shardOf: FlowKey -> nat, t: nat): System {
    FromLookup(UpToLookup(s, shardOf, t), shardOf, t)
  }

  /** The entry the lookup makes for a key that has none. */
  function WithEntry(s: System, key: FlowKey): System {
    if key in s.inner then s
    else s.(inner := s.inner[key := |s.states|], states := s.states + [FRESH_FLOW])
  }

  lemma EntryIsLive(s: System, key: FlowKey)
    requires Live(s)
    ensures Live(WithEntry(s, key)) && key in WithEntry(s, key).inner
  {
  }

  /** A new entry takes nothing from the flows that were there. */
  lemma NewEntryIsFresh(inner: map<FlowKey, nat>, states: seq<Flow>, key: FlowKey)
    requires key !in inner && forall k :: k in inner ==> inner[k] < |states|
    ensures ValuesOf(inner[key := |states|], states + [FRESH_FLOW]) == ValuesOf(inner, states)[key := FRESH_FLOW]
  {
  }

  lemma EntryIsFresh(s: System, key: FlowKey)
    requires Live(s)
    ensures Values(WithEntry(s, key)) == Values(s)[key := if key in s.inner then Values(s)[key] else FRESH_FLOW]
  {
    if key in s.inner {
      assert Values(s)[key := Values(s)[key]] == Values(s);
    } else {
      NewEntryIsFresh(s.inner, s.states, key);
    }
  }

  /** One write through a live reference changes one flow's value. */
  lemma WritesOne(s: System, key: FlowKey, flow: Flow)
    requires Live(s) && key in s.inner
    ensures Values(s.(states := Written(s.states, s.inner[key], flow))) == Values(s)[key := flow]
  {
  }

  /** From the lookup on, a touch adds, stores, and lets the lock go. */
  lemma WritesBoth(s: System, shardOf: FlowKey -> nat, t: nat)
    requires Live(s) && t < |s.tasks| && s.tasks[t].Touching? && s.tasks[t].touch.Found?
    requires s.tasks[t].key in s.inner && s.inner[s.tasks[t].key] == s.tasks[t].touch.id
    ensures var me, end := s.tasks[t], FromLookup(s, shardOf, t);
            && Values(end) == Values(s)[me.key := WithCount(Values(s)[me.key], me.side, me.bytes).(lastSeen := me.at)]
            && end.tasks == s.tasks[t := me.(touch := Finished)]
            && end.guards == s.guards - {shardOf(me.key)} && end.retired == s.retired
  {
    var me, id := s.tasks[t], s.tasks[t].touch.id;
    var added := WithCount(s.states[id], me.side, me.bytes);
    var s1 := Apply(s, shardOf, Advance(t));
    var s2 := Apply(s1, shardOf, Advance(t));
    var s3 := Apply(s2, shardOf, Advance(t));
    assert s3.states == Written(s.states, id, added.(lastSeen := me.at));
    WritesOne(s, me.key, added.(lastSeen := me.at));
    assert Values(s3) == Values(s.(states := s3.states));
  }

  /** With the shard free, a touch run to its end does what the one-step touch does. */
  lemma TouchAlone(s: System, shardOf: FlowKey -> nat, t: nat)
    requires Live(s) && t < |s.tasks| && s.tasks[t].Touching? && s.tasks[t].touch.Queued?
    requires shardOf(s.tasks[t].key) !in s.guards
    ensures var me, end := s.tasks[t], WholeTouch(s, shardOf, t);
            && Values(end) == Touched(Values(s), me.key, me.side, me.bytes, me.at)
            && end.tasks == s.tasks[t := me.(touch := Finished)] && end.guards == s.guards
            && end.retired == s.retired
  {
    var shard := shardOf(s.tasks[t].key);
    LookupMakesEntry(s, shardOf, t);
    TouchesEntry(s, UpToLookup(s, shardOf, t), shardOf, t);
    assert s.guards[shard := t] - {shard} == s.guards;
  }

  /** The values a touch leaves, once its lookup has given it a state. */
  lemma TouchesEntry(s: System, found: System, shardOf: FlowKey -> nat, t: nat)
    requires Live(s) && t < |s.tasks| && s.tasks[t].Touching?
    requires var me := s.tasks[t];
             var made := WithEntry(s, me.key);
             && found.inner == made.inner && found.states == made.states && found.retired == s.retired
             && found.tasks == s.tasks[t := me.(touch := Found(made.inner[me.key]))]
    ensures var me, end := s.tasks[t], FromLookup(found, shardOf, t);
            && Values(end) == Touched(Values(s), me.key, me.side, me.bytes, me.at)
            && end.tasks == s.tasks[t := me.(touch := Finished)]
            && end.guards == found.guards - {shardOf(me.key)} && end.retired == s.retired
  {
    var me := s.tasks[t];
    EntryIsLive(s, me.key);
    EntryIsFresh(s, me.key);
    SameValues(found, WithEntry(s, me.key));
    WritesBoth(found, shardOf, t);
    TouchedByParts(Values(s), me.key, me.side, me.bytes, me.at);
  }

  lemma LookupMakesEntry(s: System, shardOf: FlowKey -> nat, t: nat)
    requires t < |s.tasks| && s.tasks[t].Touching? && s.tasks[t].touch.Queued?
    requires shardOf(s.tasks[t].key) !in s.guards
    ensures var me, next := s.tasks[t], UpToLookup(s, shardOf, t);
            var made := WithEntry(s, me.key);
            && next.inner == made.inner && next.states == made.states
            && next.guards == s.guards[shardOf(me.key) := t] && next.retired == s.retired
            && next.tasks == s.tasks[t := me.(touch := Found(made.inner[me.key]))]
  {
    var me := s.tasks[t];
    var guarded := s.(guards := s.guards[shardOf(me.key) := t], tasks := s.tasks[t := me.(touch := Guarded)]);
    assert Apply(s, shardOf, Advance(t)) == guarded;
  }

  lemma SameValues(a: System, b: System)
    requires a.inner == b.inner && a.states == b.states && a.retired == b.retired
    ensures Values(a) == Values(b) && (Live(a) <==> Live(b))
  {
  }
}
