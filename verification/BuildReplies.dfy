/**
  What the callers of the build cache are told, in terms of how the builds of the schedule ended: not of
  anything the cache itself recorded.
 */
module BuildReplies {
  import opened Common
  import opened FwIds
  import opened BuildCache

  /** Step `k` of the schedule ends the build of `id`: it is a step of a call for `id` that stands at Building. */
  ghost predicate Builds(c: Config, ids: seq<FwId>, schedule: seq<(nat, Outcome)>, k: nat, id: FwId) {
    && k < |schedule|
    && var before := Run(c, ids, schedule[..k]);
       var t := schedule[k].0;
       && before.Some? && t < |ids| && ids[t] == id
       && before.value.calls[t].pc == Building
  }

  lemma BuildsPrefix(c: Config, ids: seq<FwId>, schedule: seq<(nat, Outcome)>, k: nat, id: FwId)
    requires schedule != [] && k < |schedule| - 1
    ensures Builds(c, ids, schedule, k, id) <==> Builds(c, ids, schedule[..|schedule| - 1], k, id)
  {
    assert schedule[..|schedule| - 1][..k] == schedule[..k];
  }

  lemma StepOutcomes(c: Config, s: State, t: nat, outcome: Outcome)
    requires CanStep(s, t)
    ensures Step(c, s, t, outcome).outcomes
            == if s.calls[t].pc == Building then s.outcomes[s.calls[t].id := outcome] else s.outcomes
  {
  }

  lemma BuildingIsFresh(c: Config, ids: seq<FwId>, schedule: seq<(nat, Outcome)>, t: nat)
    requires Run(c, ids, schedule).Some? && t < |ids| && Run(c, ids, schedule).value.calls[t].pc == Building
    ensures ids[t] !in Run(c, ids, schedule).value.outcomes
  {
    RunKeepsInv(c, ids, schedule);
    assert CallInv(c, Run(c, ids, schedule).value, t);
  }

  lemma LastBuilds(c: Config, ids: seq<FwId>, schedule: seq<(nat, Outcome)>, id: FwId)
    requires schedule != [] && Run(c, ids, schedule).Some?
    ensures var n := |schedule| - 1;
            var s, t := Run(c, ids, schedule[..n]).value, schedule[n].0;
            && (Builds(c, ids, schedule, n, id) <==> ids[t] == id && s.calls[t].pc == Building)
            && (Builds(c, ids, schedule, n, id) ==> id !in s.outcomes)
            && Run(c, ids, schedule).value.outcomes
               == if Builds(c, ids, schedule, n, ids[t]) then s.outcomes[ids[t] := schedule[n].1] else s.outcomes
  {
    var n := |schedule| - 1;
    var s, t := Run(c, ids, schedule[..n]).value, schedule[n].0;
    StepOutcomes(c, s, t, schedule[n].1);
    if s.calls[t].pc == Building {
      BuildingIsFresh(c, ids, schedule[..n], t);
    }
  }

  /** `outcomes` tells of `id` what the schedule does. */
  ghost predicate Recorded(c: Config, ids: seq<FwId>, schedule: seq<(nat, Outcome)>, outcomes: map<FwId, Outcome>, id: FwId) {
    && (id in outcomes <==> exists k: nat :: Builds(c, ids, schedule, k, id))
    && (forall k: nat :: Builds(c, ids, schedule, k, id) ==> outcomes[id] == schedule[k].1)
  }

  lemma RecordedStep(c: Config, ids: seq<FwId>, schedule: seq<(nat, Outcome)>, id: FwId,
                     before: map<FwId, Outcome>, after: map<FwId, Outcome>)
    requires schedule != [] && Recorded(c, ids, schedule[..|schedule| - 1], before, id)
    requires if Builds(c, ids, schedule, |schedule| - 1, id)
             then id !in before && id in after && after[id] == schedule[|schedule| - 1].1
             else (id in after <==> id in before) && (id in before ==> after[id] == before[id])
    ensures Recorded(c, ids, schedule, after, id)
  {
    var n := |schedule| - 1;
    forall k: nat | k < n ensures Builds(c, ids, schedule, k, id) <==> Builds(c, ids, schedule[..n], k, id) {
      BuildsPrefix(c, ids, schedule, k, id);
    }
    if id in before {
      var k: nat :| Builds(c, ids, schedule[..n], k, id);
      assert Builds(c, ids, schedule, k, id);
    }
    forall k: nat | Builds(c, ids, schedule, k, id) ensures id in after && after[id] == schedule[k].1 {
      assert k < n ==> Builds(c, ids, schedule[..n], k, id);
    }
  }

  /** What is recorded for an id is exactly how its scheduled build ended. */
  lemma {:induction false} OutcomesAreScheduled(c: Config, ids: seq<FwId>, schedule: seq<(nat, Outcome)>, id: FwId)
    requires Run(c, ids, schedule).Some?
    ensures Recorded(c, ids, schedule, Run(c, ids, schedule).value.outcomes, id)
  {
    if schedule != [] {
      var front := schedule[..|schedule| - 1];
      OutcomesAreScheduled(c, ids, front, id);
      LastBuilds(c, ids, schedule, id);
      RecordedStep(c, ids, schedule, id, Run(c, ids, front).value.outcomes, Run(c, ids, schedule).value.outcomes);
    }
  }

  /** An id's build ends once. */
  lemma BuildsOnce(c: Config, ids: seq<FwId>, schedule: seq<(nat, Outcome)>, j: nat, k: nat, id: FwId)
    requires Builds(c, ids, schedule, j, id) && Builds(c, ids, schedule, k, id)
    ensures j == k
  {
    if j < k {
      BuildsBefore(c, ids, schedule, j, k, id);
    } else if k < j {
      BuildsBefore(c, ids, schedule, k, j, id);
    }
  }

  lemma BuildsBefore(c: Config, ids: seq<FwId>, schedule: seq<(nat, Outcome)>, j: nat, k: nat, id: FwId)
    requires j < k && Builds(c, ids, schedule, j, id)
    ensures !Builds(c, ids, schedule, k, id)
  {
    if k < |schedule| {
      var earlier := schedule[..k];
      assert earlier[..j] == schedule[..j];
      assert Builds(c, ids, earlier, j, id);
      if Builds(c, ids, schedule, k, id) {
        OutcomesAreScheduled(c, ids, earlier, id);
        BuildingIsFresh(c, ids, earlier, schedule[k].0);
      }
    }
  }

  /** What the call that built gets. */
  function OwnerReply(o: Outcome): Reply {
    match o
    case Built(elf) => Success(elf)
    case BuildFailed => Failure(UncachedBuildFailed)
  }

  /** Where the call that built stands afterwards. */
  ghost predicate AfterBuild(pc: Pc, o: Outcome) {
    || (o.Built? && pc == Storing(o.elf))
    || pc == Dropping(OwnerReply(o))
    || pc == Returned(OwnerReply(o))
  }

  lemma StepAfterBuild(c: Config, s: State, t: nat, outcome: Outcome, u: nat, o: Outcome)
    requires CanStep(s, t) && u < |s.calls|
    requires AfterBuild(s.calls[u].pc, o) || (t == u && s.calls[u].pc == Building && o == outcome)
    ensures AfterBuild(Step(c, s, t, outcome).calls[u].pc, o)
  {
  }

  lemma {:induction false} OwnerAfterBuild(c: Config, ids: seq<FwId>, schedule: seq<(nat, Outcome)>, k: nat, id: FwId)
    requires Run(c, ids, schedule).Some? && Builds(c, ids, schedule, k, id)
    ensures AfterBuild(Run(c, ids, schedule).value.calls[schedule[k].0].pc, schedule[k].1)
  {
    var n := |schedule| - 1;
    if k < n {
      BuildsPrefix(c, ids, schedule, k, id);
      OwnerAfterBuild(c, ids, schedule[..n], k, id);
    }
    StepAfterBuild(c, Run(c, ids, schedule[..n]).value, schedule[n].0, schedule[n].1, schedule[k].0, schedule[k].1);
  }

  ghost predicate BuiltNothing(c: Config, ids: seq<FwId>, schedule: seq<(nat, Outcome)>, u: nat) {
    forall k: nat, id :: Builds(c, ids, schedule, k, id) ==> schedule[k].0 != u
  }

  ghost predicate NoBuildError(pc: Pc) {
    pc.Dropping? || pc.Returned? ==> pc.reply != Failure(UncachedBuildFailed)
  }

  lemma StepNoBuildError(c: Config, s: State, t: nat, outcome: Outcome, u: nat)
    requires CanStep(s, t) && u < |s.calls| && NoBuildError(s.calls[u].pc)
    requires t == u ==> s.calls[u].pc != Building
    ensures NoBuildError(Step(c, s, t, outcome).calls[u].pc)
  {
  }

  /** Only the call that built can be told that the build failed. */
  lemma {:induction false} OthersNeverFail(c: Config, ids: seq<FwId>, schedule: seq<(nat, Outcome)>, u: nat)
    requires Run(c, ids, schedule).Some? && u < |ids| && BuiltNothing(c, ids, schedule, u)
    ensures NoBuildError(Run(c, ids, schedule).value.calls[u].pc)
  {
    if schedule != [] {
      var n := |schedule| - 1;
      forall k: nat, id | Builds(c, ids, schedule[..n], k, id) ensures schedule[..n][k].0 != u {
        BuildsPrefix(c, ids, schedule, k, id);
      }
      OthersNeverFail(c, ids, schedule[..n], u);
      var s := Run(c, ids, schedule[..n]).value;
      assert Builds(c, ids, schedule, n, ids[u]) || schedule[n].0 != u || s.calls[u].pc != Building;
      StepNoBuildError(c, s, schedule[n].0, schedule[n].1, u);
    }
  }

  /**
    In every interleaving, a reply for a registered id follows the one scheduled build of that id: the
    call that built it gets the bytes or the error, every other call the bytes or the empty placeholder.
   */
  lemma RepliesFollowBuild(c: Config, ids: seq<FwId>, schedule: seq<(nat, Outcome)>, u: nat, reply: Reply)
    requires Run(c, ids, schedule).Some? && u < |ids| && ids[u] in c.registered && c.prebuilt.None?
    requires Run(c, ids, schedule).value.calls[u].pc == Returned(reply)
    ensures exists k: nat :: Builds(c, ids, schedule, k, ids[u])
    ensures forall k: nat :: Builds(c, ids, schedule, k, ids[u]) ==>
              match schedule[k].1
              case Built(elf) => reply == Success(elf)
              case BuildFailed => reply == if schedule[k].0 == u then Failure(UncachedBuildFailed) else Success([])
  {
    SomeBuild(c, ids, schedule, u, reply);
    forall k: nat | Builds(c, ids, schedule, k, ids[u])
      ensures match schedule[k].1
              case Built(elf) => reply == Success(elf)
              case BuildFailed => reply == if schedule[k].0 == u then Failure(UncachedBuildFailed) else Success([])
    {
      ReplyOf(c, ids, schedule, k, u, reply);
    }
  }

  lemma SomeBuild(c: Config, ids: seq<FwId>, schedule: seq<(nat, Outcome)>, u: nat, reply: Reply)
    requires Run(c, ids, schedule).Some? && u < |ids| && ids[u] in c.registered && c.prebuilt.None?
    requires Run(c, ids, schedule).value.calls[u].pc == Returned(reply)
    ensures exists k: nat :: Builds(c, ids, schedule, k, ids[u])
  {
    RunKeepsInv(c, ids, schedule);
    assert CallInv(c, Run(c, ids, schedule).value, u);
    OutcomesAreScheduled(c, ids, schedule, ids[u]);
  }

  lemma ReturnedReply(c: Config, s: State, u: nat, reply: Reply)
    requires Inv(c, s) && u < |s.calls| && s.calls[u].pc == Returned(reply)
    ensures ReplyInv(c, s, s.calls[u].id, reply)
  {
    assert CallInv(c, s, u);
  }

  lemma VisibleReply(c: Config, s: State, id: FwId, reply: Reply)
    requires ReplyInv(c, s, id, reply) && id in c.registered && c.prebuilt.None? && reply != Failure(UncachedBuildFailed)
    ensures id in s.outcomes && reply == Success(Visible(s.outcomes[id]))
  {
  }

  lemma ReplyIsVisible(c: Config, ids: seq<FwId>, schedule: seq<(nat, Outcome)>, u: nat, reply: Reply)
    requires Run(c, ids, schedule).Some? && u < |ids| && ids[u] in c.registered && c.prebuilt.None?
    requires Run(c, ids, schedule).value.calls[u].pc == Returned(reply) && reply != Failure(UncachedBuildFailed)
    ensures var outcomes := Run(c, ids, schedule).value.outcomes;
            ids[u] in outcomes && reply == Success(Visible(outcomes[ids[u]]))
  {
    var s := Run(c, ids, schedule).value;
    RunKeepsInv(c, ids, schedule);
    ReturnedReply(c, s, u, reply);
    VisibleReply(c, s, ids[u], reply);
  }

  lemma ReplyOf(c: Config, ids: seq<FwId>, schedule: seq<(nat, Outcome)>, k: nat, u: nat, reply: Reply)
    requires Run(c, ids, schedule).Some? && u < |ids| && ids[u] in c.registered && c.prebuilt.None?
    requires Run(c, ids, schedule).value.calls[u].pc == Returned(reply)
    requires Builds(c, ids, schedule, k, ids[u])
    ensures reply == if schedule[k].0 == u then OwnerReply(schedule[k].1) else Success(Visible(schedule[k].1))
  {
    if schedule[k].0 == u {
      OwnerAfterBuild(c, ids, schedule, k, ids[u]);
    } else {
      forall j: nat, id | Builds(c, ids, schedule, j, id) ensures schedule[j].0 != u {
        if schedule[j].0 == u {
          BuildsOnce(c, ids, schedule, j, k, ids[u]);
        }
      }
      OthersNeverFail(c, ids, schedule, u);
      ReplyIsVisible(c, ids, schedule, u, reply);
      OutcomesAreScheduled(c, ids, schedule, ids[u]);
    }
  }
}
