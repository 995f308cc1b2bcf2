/**
  `build_firmware_elf`: the shared build cache, as a state machine over the steps of any number of
  concurrent calls. A global mutex guards the map; every entry has a mutex of its own, which the call
  that inserts the entry holds until its build has ended. Entries are never removed or replaced, so an
  Arc to an entry's mutex is named by the entry's id.
 */
module BuildCache {
  import opened Common
  import opened FwIds

  type Elf = seq<Byte>

  datatype Outcome = Built(elf: Elf) | BuildFailed

  datatype Error = NotRegistered | PrebuiltMissing | UncachedBuildFailed

  type Reply = Result<Elf, Error>

  /** The registered ids and, if the environment names a prebuilt directory, its files. */
  datatype Config = Config(registered: set<FwId>, prebuilt: Option<map<FwId, Elf>>)

  datatype Pc =
    | Begin                    // registration and prebuilt-directory checks
    | LockMap                  // about to lock CACHE
    | InMap                    // holds CACHE, about to look the id up
    | Cloned                   // occupied: holds CACHE and a clone of the Arc, about to drop CACHE
    | LockEntry                // about to lock the entry
    | Reading                  // holds the entry, about to copy its value
    | Inserted                 // vacant: holds CACHE and the entry it made, about to drop CACHE
    | Building                 // holds the entry; runs the uncached build
    | Storing(elf: Elf)        // holds the entry; the build succeeded
    | Dropping(reply: Reply)   // holds the entry, about to drop it and return
    | Returned(reply: Reply)

  datatype Call = Call(id: FwId, pc: Pc)

  /** An entry: who holds its mutex, and the bytes it guards. */
  datatype Slot = Slot(holder: Option<nat>, value: Elf)

  /** `started` and `outcomes` record which builds were begun and how they ended. */
  datatype State = State(
    calls: seq<Call>, cacheHolder: Option<nat>, cache: map<FwId, Slot>,
    started: seq<FwId>, outcomes: map<FwId, Outcome>)

  function Init(ids: seq<FwId>): State {
    State(seq(|ids|, i requires 0 <= i < |ids| => Call(ids[i], Begin)), None, map[], [], map[])
  }

  predicate HoldsCache(pc: Pc) {
    pc.InMap? || pc.Cloned? || pc.Inserted?
  }

  predicate HoldsEntry(pc: Pc) {
    pc.Reading? || pc.Inserted? || pc.Building? || pc.Storing? || pc.Dropping?
  }

  /** The call has a reference to the mutex of its id's entry. */
  predicate HasArc(pc: Pc) {
    pc.Cloned? || pc.LockEntry? || HoldsEntry(pc)
  }

  predicate CanStep(s: State, t: nat) {
    && t < |s.calls|
    && var Call(id, pc) := s.calls[t];
       && !pc.Returned?
       && (pc.LockMap? ==> s.cacheHolder.None?)
       && (HasArc(pc) ==> id in s.cache)
       && (pc.LockEntry? ==> s.cache[id].holder.None?)
  }

  function Goto(s: State, t: nat, pc: Pc): State
    requires t < |s.calls|
  {
    s.(calls := s.calls[t := s.calls[t].(pc := pc)])
  }

  function Put(s: State, id: FwId, slot: Slot): State {
    s.(cache := s.cache[id := slot])
  }

  /** The step call `t` takes next; `outcome` is how its build ends, if that is the step. */
  function Step(c: Config, s: State, t: nat, outcome: Outcome): State
    requires CanStep(s, t)
  {
    var id := s.calls[t].id;
    match s.calls[t].pc
    case Begin =>
      if id !in c.registered then Goto(s, t, Returned(Failure(NotRegistered)))
      else if c.prebuilt.None? then Goto(s, t, LockMap)
      else if id in c.prebuilt.value then Goto(s, t, Returned(Success(c.prebuilt.value[id])))
      else Goto(s, t, Returned(Failure(PrebuiltMissing)))
    case LockMap => Goto(s.(cacheHolder := Some(t)), t, InMap)
    case InMap =>
      if id in s.cache then Goto(s, t, Cloned)
      else Goto(Put(s, id, Slot(Some(t), [])), t, Inserted)
    case Cloned => Goto(s.(cacheHolder := None), t, LockEntry)
    case LockEntry => Goto(Put(s, id, s.cache[id].(holder := Some(t))), t, Reading)
    case Reading => Goto(s, t, Dropping(Success(s.cache[id].value)))
    case Inserted => Goto(s.(cacheHolder := None, started := s.started + [id]), t, Building)
    case Building =>
      Goto(s.(outcomes := s.outcomes[id := outcome]), t,
           if outcome.Built? then Storing(outcome.elf) else Dropping(Failure(UncachedBuildFailed)))
    case Storing(elf) => Goto(Put(s, id, s.cache[id].(value := elf)), t, Dropping(Success(elf)))
    case Dropping(reply) => Goto(Put(s, id, s.cache[id].(holder := None)), t, Returned(reply))
    case Returned(_) => s
  }

  /** A run: any interleaving of the calls' steps, with any build outcomes. */
  function Run(c: Config, ids: seq<FwId>, schedule: seq<(nat, Outcome)>): (r: Option<State>)
    ensures r.Some? ==> |r.value.calls| == |ids| && forall i :: 0 <= i < |ids| ==> r.value.calls[i].id == ids[i]
  {
    if schedule == [] then Some(Init(ids))
    else
      var before := Run(c, ids, schedule[..|schedule| - 1]);
      var (t, outcome) := schedule[|schedule| - 1];
      if before.Some? && CanStep(before.value, t) then Some(Step(c, before.value, t, outcome)) else None
  }

  // ---------- The invariant ----------

  /** What the entry of an ended build shows: the built bytes, or the empty default of a failed build. */
  function Visible(o: Outcome): Elf {
    if o.Built? then o.elf else []
  }

  ghost predicate Ended(s: State, id: FwId) {
    id in s.cache && id in s.outcomes && s.cache[id].value == Visible(s.outcomes[id])
  }

  ghost predicate LockInv(s: State, t: nat)
    requires t < |s.calls|
  {
    && (HoldsCache(s.calls[t].pc) <==> s.cacheHolder == Some(t))
    && (HasArc(s.calls[t].pc) ==> s.calls[t].id in s.cache)
    && (forall id :: id in s.cache ==> (s.cache[id].holder == Some(t) <==> id == s.calls[t].id && HoldsEntry(s.calls[t].pc)))
  }

  ghost predicate DataInv(c: Config, s: State, id: FwId, pc: Pc) {
    && (pc.Reading? ==> Ended(s, id))
    && (pc.Inserted? ==> id !in s.started)
    && (pc.Inserted? || pc.Building? ==> id !in s.outcomes && id in s.cache && s.cache[id].value == [])
    && (pc.Building? ==> id in s.started)
    && (pc.Storing? ==> id in s.outcomes && s.outcomes[id] == Built(pc.elf))
    && (pc.Dropping? ==> Ended(s, id) && ReplyInv(c, s, id, pc.reply))
    && (pc.Returned? ==> ReplyInv(c, s, id, pc.reply))
    && (!pc.Begin? && !pc.Returned? ==> c.prebuilt.None? && id in c.registered)
  }

  ghost predicate ReplyInv(c: Config, s: State, id: FwId, reply: Reply) {
    match reply
    case Success(elf) =>
      && id in c.registered
      && if c.prebuilt.Some? then id in c.prebuilt.value && elf == c.prebuilt.value[id]
         else id in s.outcomes && elf == Visible(s.outcomes[id])
    case Failure(UncachedBuildFailed) =>
      id in c.registered && c.prebuilt.None? && id in s.outcomes && s.outcomes[id] == BuildFailed
    case Failure(NotRegistered) => id !in c.registered
    case Failure(PrebuiltMissing) => id in c.registered && c.prebuilt.Some? && id !in c.prebuilt.value
  }

  ghost predicate CallInv(c: Config, s: State, t: nat)
    requires t < |s.calls|
  {
    LockInv(s, t) && DataInv(c, s, s.calls[t].id, s.calls[t].pc)
  }

  /** A lock is held by an existing call; a free entry belongs to an ended build. */
  ghost predicate MapInv(s: State) {
    && (forall id :: id in s.cache ==> if s.cache[id].holder.None? then Ended(s, id) else s.cache[id].holder.value < |s.calls|)
    && (s.cacheHolder.Some? ==> s.cacheHolder.value < |s.calls|)
  }

  ghost predicate HistoryInv(s: State) {
    && (forall id :: id in s.outcomes ==> id in s.started)
    && (forall id :: id in s.started ==> id in s.cache)
    && (forall i, j :: 0 <= i < j < |s.started| ==> s.started[i] != s.started[j])
  }

  ghost predicate Inv(c: Config, s: State) {
    && (forall t :: 0 <= t < |s.calls| ==> CallInv(c, s, t))
    && MapInv(s)
    && HistoryInv(s)
  }

  lemma MoverKeepsLocks(c: Config, s: State, t: nat, outcome: Outcome)
    requires CanStep(s, t) && LockInv(s, t)
    ensures LockInv(Step(c, s, t, outcome), t)
  {
  }

  lemma MoverKeepsData(c: Config, s: State, t: nat, outcome: Outcome)
    requires CanStep(s, t) && CallInv(c, s, t) && MapInv(s) && HistoryInv(s)
    ensures DataInv(c, Step(c, s, t, outcome), s.calls[t].id, Step(c, s, t, outcome).calls[t].pc)
  {
    match s.calls[t].pc {
      case Begin =>
      case Building =>
      case _ =>
    }
  }

  /** What call `u` can rely on while another call moves: its locks protect what they guard. */
  ghost predicate LocksKept(s: State, s': State, u: nat)
    requires u < |s.calls|
  {
    && |s'.calls| == |s.calls| && s'.calls[u] == s.calls[u]
    && (s'.cacheHolder == Some(u) <==> s.cacheHolder == Some(u))
    && (forall id :: id in s.cache ==> id in s'.cache && (s.cache[id].holder == Some(u) <==> s'.cache[id].holder == Some(u)))
    && (forall id :: id in s'.cache && s'.cache[id].holder == Some(u) ==> id in s.cache && s'.cache[id] == s.cache[id])
  }

  ghost predicate HistoryKept(s: State, s': State, u: nat)
    requires u < |s.calls|
  {
    && (s.cacheHolder == Some(u) ==> s'.started == s.started)
    && (forall id :: id in s.started ==> id in s'.started)
    && (forall id :: id in s.outcomes ==> id in s'.outcomes && s'.outcomes[id] == s.outcomes[id])
    && (forall id :: id in s.cache && s.cache[id].holder == Some(u) && id in s'.outcomes ==> id in s.outcomes)
  }

  lemma StepKeepsOthersLocks(c: Config, s: State, t: nat, outcome: Outcome, u: nat)
    requires CanStep(s, t) && LockInv(s, t)
    requires u < |s.calls| && u != t
    ensures LocksKept(s, Step(c, s, t, outcome), u)
  {
  }

  lemma StepKeepsOthersHistory(c: Config, s: State, t: nat, outcome: Outcome, u: nat)
    requires CanStep(s, t) && CallInv(c, s, t)
    requires u < |s.calls| && u != t
    ensures HistoryKept(s, Step(c, s, t, outcome), u)
  {
  }

  lemma UndisturbedCall(c: Config, s: State, s': State, u: nat)
    requires u < |s.calls| && CallInv(c, s, u) && LocksKept(s, s', u) && HistoryKept(s, s', u)
    ensures CallInv(c, s', u)
  {
  }

  lemma StepKeepsMap(c: Config, s: State, t: nat, outcome: Outcome)
    requires CanStep(s, t) && CallInv(c, s, t) && MapInv(s)
    ensures MapInv(Step(c, s, t, outcome))
  {
  }

  lemma StepKeepsHistory(c: Config, s: State, t: nat, outcome: Outcome)
    requires CanStep(s, t) && CallInv(c, s, t) && HistoryInv(s)
    ensures HistoryInv(Step(c, s, t, outcome))
  {
  }

  lemma StepKeepsInv(c: Config, s: State, t: nat, outcome: Outcome)
    requires Inv(c, s) && CanStep(s, t)
    ensures Inv(c, Step(c, s, t, outcome))
  {
    var s' := Step(c, s, t, outcome);
    assert |s'.calls| == |s.calls| && s'.calls[t].id == s.calls[t].id;
    assert CallInv(c, s, t) && MapInv(s) && HistoryInv(s);
    forall u | 0 <= u < |s.calls| ensures CallInv(c, s', u) {
      if u == t {
        MoverKeepsLocks(c, s, t, outcome);
        MoverKeepsData(c, s, t, outcome);
      } else {
        assert CallInv(c, s, u);
        StepKeepsOthersLocks(c, s, t, outcome, u);
        StepKeepsOthersHistory(c, s, t, outcome, u);
        UndisturbedCall(c, s, s', u);
      }
    }
    StepKeepsMap(c, s, t, outcome);
    StepKeepsHistory(c, s, t, outcome);
  }

  lemma {:induction false} RunKeepsInv(c: Config, ids: seq<FwId>, schedule: seq<(nat, Outcome)>)
    requires Run(c, ids, schedule).Some?
    ensures Inv(c, Run(c, ids, schedule).value)
    ensures |Run(c, ids, schedule).value.calls| == |ids|
  {
    if schedule != [] {
      var front, last := schedule[..|schedule| - 1], schedule[|schedule| - 1];
      RunKeepsInv(c, ids, front);
      StepKeepsInv(c, Run(c, ids, front).value, last.0, last.1);
    }
  }

  // ---------- What every run guarantees ----------

  ghost predicate Reachable(c: Config, ids: seq<FwId>, s: State) {
    exists schedule :: Run(c, ids, schedule) == Some(s)
  }

  lemma ReachableInv(c: Config, ids: seq<FwId>, s: State)
    requires Reachable(c, ids, s)
    ensures Inv(c, s)
    ensures |s.calls| == |ids| && forall i :: 0 <= i < |ids| ==> s.calls[i].id == ids[i]
  {
    var schedule :| Run(c, ids, schedule) == Some(s);
    RunKeepsInv(c, ids, schedule);
  }

  /** In every interleaving, no id is built twice, and a build that ended was begun. */
  lemma BuiltAtMostOnce(c: Config, ids: seq<FwId>, s: State)
    requires Reachable(c, ids, s)
    ensures forall i, j :: 0 <= i < j < |s.started| ==> s.started[i] != s.started[j]
    ensures forall id :: id in s.outcomes ==> id in s.started
    ensures c.prebuilt.Some? ==> s.started == []
  {
    ReachableInv(c, ids, s);
    if c.prebuilt.Some? {
      var schedule :| Run(c, ids, schedule) == Some(s);
      PrebuiltNeverBuilds(c, ids, schedule);
    }
  }

  lemma {:induction false} PrebuiltNeverBuilds(c: Config, ids: seq<FwId>, schedule: seq<(nat, Outcome)>)
    requires Run(c, ids, schedule).Some? && c.prebuilt.Some?
    ensures Run(c, ids, schedule).value.started == []
  {
    if schedule != [] {
      var front, last := schedule[..|schedule| - 1], schedule[|schedule| - 1];
      PrebuiltNeverBuilds(c, ids, front);
      RunKeepsInv(c, ids, front);
      assert CallInv(c, Run(c, ids, front).value, last.0);
    }
  }

  /**
    Every reply is explained by the id's one build: Ok carries exactly the built bytes, or, if and only
    if that build failed, the empty placeholder; an Err other than "not registered" means it failed.
   */
  lemma RepliesAgree(c: Config, ids: seq<FwId>, s: State, t: nat, reply: Reply)
    requires Reachable(c, ids, s) && c.prebuilt.None?
    requires t < |s.calls| && s.calls[t].pc == Returned(reply)
    ensures ids[t] !in c.registered <==> reply == Failure(NotRegistered)
    ensures reply.Success? ==> ids[t] in s.outcomes
    ensures reply.Success? && s.outcomes[ids[t]].Built? ==> reply.value == s.outcomes[ids[t]].elf
    ensures reply.Success? && s.outcomes[ids[t]].BuildFailed? ==> reply.value == []
    ensures reply.Failure? && ids[t] in c.registered ==> ids[t] in s.outcomes && s.outcomes[ids[t]].BuildFailed?
  {
    ReachableInv(c, ids, s);
    assert CallInv(c, s, t);
  }

  /** With a prebuilt directory, replies come from its files only, whatever the other calls do. */
  lemma PrebuiltReplies(c: Config, ids: seq<FwId>, s: State, t: nat, reply: Reply)
    requires Reachable(c, ids, s) && c.prebuilt.Some?
    requires t < |s.calls| && s.calls[t].pc == Returned(reply)
    ensures reply == if ids[t] !in c.registered then Failure(NotRegistered)
                     else if ids[t] in c.prebuilt.value then Success(c.prebuilt.value[ids[t]])
                     else Failure(PrebuiltMissing)
  {
    ReachableInv(c, ids, s);
    assert CallInv(c, s, t);
  }

  /** A call that cannot step waits for a call that can: there are no chains of waiting calls. */
  lemma NoDeadlock(c: Config, ids: seq<FwId>, s: State, t: nat)
    requires Reachable(c, ids, s)
    requires t < |s.calls| && !s.calls[t].pc.Returned?
    ensures CanStep(s, t) || exists u :: u != t && CanStep(s, u) && Blocks(s, u, t)
  {
    ReachableInv(c, ids, s);
    assert CallInv(c, s, t);
    if !CanStep(s, t) {
      var u := if s.calls[t].pc.LockMap? then s.cacheHolder.value else s.cache[s.calls[t].id].holder.value;
      assert CallInv(c, s, u);
      assert Blocks(s, u, t);
    }
  }

  /** `u` holds the lock that `t` is about to take. */
  ghost predicate Blocks(s: State, u: nat, t: nat) {
    && t < |s.calls|
    && match s.calls[t].pc
       case LockMap => s.cacheHolder == Some(u)
       case LockEntry => s.calls[t].id in s.cache && s.cache[s.calls[t].id].holder == Some(u)
       case _ => false
  }

  function Rank(pc: Pc): nat {
    match pc
    case Begin => 7
    case LockMap => 6
    case InMap => 5
    case Cloned => 4
    case Inserted => 4
    case LockEntry => 3
    case Building => 3
    case Reading => 2
    case Storing(_) => 2
    case Dropping(_) => 1
    case Returned(_) => 0
  }

  function TotalRank(calls: seq<Call>): nat {
    if calls == [] then 0 else TotalRank(calls[..|calls| - 1]) + Rank(calls[|calls| - 1].pc)
  }

  lemma {:induction false} TotalRankUpdate(calls: seq<Call>, t: nat, call: Call)
    requires t < |calls|
    ensures TotalRank(calls[t := call]) == TotalRank(calls) - Rank(calls[t].pc) + Rank(call.pc)
  {
    var front := calls[..|calls| - 1];
    if t < |calls| - 1 {
      TotalRankUpdate(front, t, call);
      assert calls[t := call][..|calls| - 1] == front[t := call];
    } else {
      assert calls[t := call][..|calls| - 1] == front;
    }
  }

  lemma {:induction false} InitialRank(calls: seq<Call>)
    requires forall i :: 0 <= i < |calls| ==> calls[i].pc == Begin
    ensures TotalRank(calls) == 7 * |calls|
  {
    if calls != [] {
      InitialRank(calls[..|calls| - 1]);
    }
  }

  lemma StepLowersRank(c: Config, s: State, t: nat, outcome: Outcome)
    requires CanStep(s, t)
    ensures var calls := Step(c, s, t, outcome).calls;
            |calls| == |s.calls| && calls == s.calls[t := calls[t]] && Rank(calls[t].pc) < Rank(s.calls[t].pc)
  {
  }

  /** Every run is finite: no call takes more than seven steps. */
  lemma {:induction false} RunsAreBounded(c: Config, ids: seq<FwId>, schedule: seq<(nat, Outcome)>)
    requires Run(c, ids, schedule).Some?
    ensures |schedule| + TotalRank(Run(c, ids, schedule).value.calls) <= 7 * |ids|
  {
    if schedule == [] {
      InitialRank(Init(ids).calls);
    } else {
      var front, last := schedule[..|schedule| - 1], schedule[|schedule| - 1];
      RunsAreBounded(c, ids, front);
      var s := Run(c, ids, front).value;
      var s' := Step(c, s, last.0, last.1);
      StepLowersRank(c, s, last.0, last.1);
      TotalRankUpdate(s.calls, last.0, s'.calls[last.0]);
    }
  }

  /** Together with RunsAreBounded: scheduled for as long as anything can move, every call returns. */
  lemma StuckMeansFinished(c: Config, ids: seq<FwId>, s: State)
    requires Reachable(c, ids, s) && forall t :: !CanStep(s, t)
    ensures forall t :: 0 <= t < |s.calls| ==> s.calls[t].pc.Returned?
  {
    forall t | 0 <= t < |s.calls| ensures s.calls[t].pc.Returned? {
      if !s.calls[t].pc.Returned? {
        NoDeadlock(c, ids, s, t);
      }
    }
  }

  lemma Advance(c: Config, ids: seq<FwId>, s: State, t: nat, outcome: Outcome) returns (s': State)
    requires Reachable(c, ids, s) && CanStep(s, t)
    ensures Reachable(c, ids, s') && s' == Step(c, s, t, outcome)
  {
    s' := Step(c, s, t, outcome);
    var schedule :| Run(c, ids, schedule) == Some(s);
    var longer := schedule + [(t, outcome)];
    assert longer[..|longer| - 1] == schedule;
    assert Run(c, ids, longer) == Some(s');
  }

  /** Two calls for `id`, at these points; nobody holds CACHE; the id's entry is as given. */
  ghost predicate TwoCalls(id: FwId, s: State, pc0: Pc, pc1: Pc, slot: Slot) {
    && s.calls == [Call(id, pc0), Call(id, pc1)]
    && s.cacheHolder.None? && id in s.cache && s.cache[id] == slot
  }

  lemma FirstCallBuilds(id: FwId) returns (s: State)
    ensures Reachable(Config({id}, None), [id, id], s)
    ensures TwoCalls(id, s, Building, Begin, Slot(Some(0), []))
  {
    var c, ids := Config({id}, None), [id, id];
    s := Init(ids);
    assert Run(c, ids, []) == Some(s);
    s := Advance(c, ids, s, 0, BuildFailed);
    assert s.calls[0] == Call(id, LockMap);
    s := Advance(c, ids, s, 0, BuildFailed);
    assert s.calls[0] == Call(id, InMap);
    s := Advance(c, ids, s, 0, BuildFailed);
    assert s.calls[0] == Call(id, Inserted);
    s := Advance(c, ids, s, 0, BuildFailed);
  }

  lemma FirstCallFails(id: FwId) returns (s: State)
    ensures Reachable(Config({id}, None), [id, id], s)
    ensures TwoCalls(id, s, Returned(Failure(UncachedBuildFailed)), Begin, Slot(None, []))
  {
    var c, ids := Config({id}, None), [id, id];
    s := FirstCallBuilds(id);
    s := Advance(c, ids, s, 0, BuildFailed);
    assert s.calls[0] == Call(id, Dropping(Failure(UncachedBuildFailed)));
    s := Advance(c, ids, s, 0, BuildFailed);
  }

  lemma SecondCallWaits(id: FwId) returns (s: State)
    ensures Reachable(Config({id}, None), [id, id], s)
    ensures TwoCalls(id, s, Returned(Failure(UncachedBuildFailed)), LockEntry, Slot(None, []))
  {
    var c, ids := Config({id}, None), [id, id];
    s := FirstCallFails(id);
    s := Advance(c, ids, s, 1, BuildFailed);
    assert s.calls[1] == Call(id, LockMap);
    s := Advance(c, ids, s, 1, BuildFailed);
    assert s.calls[1] == Call(id, InMap);
    s := Advance(c, ids, s, 1, BuildFailed);
    assert s.calls[1] == Call(id, Cloned);
    s := Advance(c, ids, s, 1, BuildFailed);
  }

  /** "Ok carries the built bytes" needs RepliesAgree's condition: after a failed build a second caller gets Ok(empty). */
  lemma FailedBuildServesEmptyBytes(id: FwId) returns (s: State)
    ensures Reachable(Config({id}, None), [id, id], s)
    ensures TwoCalls(id, s, Returned(Failure(UncachedBuildFailed)), Returned(Success([])), Slot(None, []))
  {
    var c, ids := Config({id}, None), [id, id];
    s := SecondCallWaits(id);
    s := Advance(c, ids, s, 1, BuildFailed);
    assert s.calls[1] == Call(id, Reading);
    s := Advance(c, ids, s, 1, BuildFailed);
    assert s.calls[1] == Call(id, Dropping(Success([])));
    s := Advance(c, ids, s, 1, BuildFailed);
  }
}
