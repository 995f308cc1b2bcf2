/**
  `build_firmware_elfs_uncached`: run the plan, reading every binary back before the builder lock is
  released. The target directory is shared: outside the lock, other builders may leave anything in it.
 */
module UncachedBuild {
  import opened Common
  import opened Orders
  import opened FwIds
  import opened Planner
  import opened PlanOptimality

  type Elf = seq<Byte>

  /** File contents by file name; the name of a built file is the binary's name and nothing else. */
  type Directory = map<string, Elf>

  datatype CargoCommand = CargoCommand(crateName: string, featuresCsv: string, hwRevision: Option<HwVersion>, bins: seq<string>)

  datatype BuildError = DuplicateFwId(id: FwId) | RunFailed(run: nat)

  /**
    The environment, run by run: whether the lock file can be locked, what cargo writes (None: it exits
    with an error), and whether a file can be read.
   */
  datatype World = World(
    lock: nat -> bool,
    cargo: (nat, CargoCommand) -> Option<Directory>,
    readable: (nat, string) -> bool) {

    /** Cargo reports success only after writing every binary it was asked for. */
    ghost predicate Honest() {
      forall run, c {:trigger cargo(run, c)} ::
        cargo(run, c).Some? ==> forall bin :: bin in c.bins ==> bin in cargo(run, c).value
    }
  }

  function Join(features: seq<string>): string {
    if features == [] then ""
    else if |features| == 1 then features[0]
    else features[0] + "," + Join(features[1..])
  }

  function FeaturesCsv(features: seq<string>): string {
    var csv := Join(features);
    if "riscv" in features then csv
    else if csv == "" then "riscv"
    else csv + ",riscv"
  }

  /** The features handed to cargo: the group's, with `riscv` added if missing; a lone empty feature is dropped. */
  lemma FeaturesIncludeRiscv(features: seq<string>)
    ensures features != [""] <==> FeaturesCsv(features) == Join(if "riscv" in features then features else features + ["riscv"])
    ensures features == [""] ==> FeaturesCsv(features) == "riscv"
  {
    if features != [] && "riscv" !in features {
      JoinAppend(features, "riscv");
      JoinEmpty(features);
    }
  }

  lemma {:induction false} JoinAppend(features: seq<string>, f: string)
    requires features != []
    ensures Join(features + [f]) == Join(features) + "," + f
  {
    var more := features + [f];
    assert more[1..] == features[1..] + [f];
    if |features| > 1 {
      JoinAppend(features[1..], f);
    } else {
      assert more[1..] == [f];
    }
  }

  lemma JoinEmpty(features: seq<string>)
    requires features != []
    ensures Join(features) == "" <==> features == [""]
  {
  }

  function Command(i: CargoInvocation): (c: CargoCommand)
    ensures |c.bins| == |i.fwids|
    ensures forall f :: f in i.fwids ==> f.binName in c.bins
  {
    var bins := seq(|i.fwids|, k requires 0 <= k < |i.fwids| => i.fwids[k].binName);
    assert forall k :: 0 <= k < |i.fwids| ==> bins[k] == i.fwids[k].binName;
    CargoCommand(i.group.crateName, FeaturesCsv(i.group.features), i.group.hwRevision, bins)
  }

  ghost predicate RunSucceeds(w: World, run: nat, i: CargoInvocation) {
    && w.lock(run)
    && w.cargo(run, Command(i)).Some?
    && forall f :: f in i.fwids ==> w.readable(run, f.binName)
  }

  /** `elf` is what run `run` of the plan wrote for `f`, and that run was made for `f`. */
  ghost predicate BuiltBy(w: World, plan: seq<CargoInvocation>, run: nat, f: FwId, elf: Elf)
    requires w.Honest()
  {
    && run < |plan|
    && f in plan[run].fwids
    && w.cargo(run, Command(plan[run])).Some?
    && elf == w.cargo(run, Command(plan[run])).value[f.binName]
  }

  /** The results are the inputs, in order, each with the file its own run wrote. */
  ghost predicate OwnElfs(w: World, fwids: seq<FwId>, plan: seq<CargoInvocation>, elfs: seq<(FwId, Elf)>)
    requires w.Honest()
  {
    && |elfs| == |fwids|
    && forall i :: 0 <= i < |fwids| ==> elfs[i].0 == fwids[i] && exists run :: BuiltBy(w, plan, run, fwids[i], elfs[i].1)
  }

  /** What a call returns, given the plan it followed. */
  ghost predicate Follows(w: World, fwids: seq<FwId>, plan: seq<CargoInvocation>, r: Result<seq<(FwId, Elf)>, BuildError>)
    requires w.Honest()
  {
    match r
    case Success(elfs) =>
      && (forall run :: 0 <= run < |plan| ==> RunSucceeds(w, run, plan[run]))
      && OwnElfs(w, fwids, plan, elfs)
    case Failure(e) =>
      && e.RunFailed?
      && e.run < |plan|
      && !RunSucceeds(w, e.run, plan[e.run])
      && forall run :: 0 <= run < e.run ==> RunSucceeds(w, run, plan[run])
  }

  method BuildElfs(w: World, fwids: seq<FwId>) returns (r: Result<seq<(FwId, Elf)>, BuildError>)
    requires w.Honest()
    ensures r.Failure? && r.error.DuplicateFwId? <==> !Distinct(fwids)
    ensures Distinct(fwids) ==> exists plan :: IsPlan(fwids, plan) && Follows(w, fwids, plan, r)
  {
    var planned := CargoInvocations(fwids);
    if planned.Failure? {
      return Failure(DuplicateFwId(planned.error));
    }
    var plan := planned.value;
    var built := RunPlan(w, plan);
    if built.Failure? {
      r := Failure(RunFailed(built.error));
    } else {
      PlanIsValidPartition(fwids, plan);
      var elfs := InInputOrder(w, fwids, plan, built.value);
      r := Success(elfs);
    }
    assert Follows(w, fwids, plan, r);
  }

  method RunPlan(w: World, plan: seq<CargoInvocation>) returns (r: Result<map<FwId, Elf>, nat>)
    requires w.Honest()
    ensures r.Success? ==> Collected(w, plan, |plan|, r.value)
    ensures var runs := if r.Success? then |plan| else r.error;
            && runs <= |plan|
            && (forall t :: 0 <= t < runs ==> RunSucceeds(w, t, plan[t]))
            && (r.Failure? ==> runs < |plan| && !RunSucceeds(w, runs, plan[runs]))
  {
    var results: map<FwId, Elf> := map[];
    for run := 0 to |plan|
      invariant forall t :: 0 <= t < run ==> RunSucceeds(w, t, plan[t])
      invariant Collected(w, plan, run, results)
    {
      var done, files := RunOne(w, run, plan[run]);
      if !done {
        return Failure(run);
      }
      CollectedStep(w, plan, run, results, files);
      results := results + files;
    }
    return Success(results);
  }

  method InInputOrder(w: World, fwids: seq<FwId>, plan: seq<CargoInvocation>, results: map<FwId, Elf>)
    returns (elfs: seq<(FwId, Elf)>)
    requires w.Honest() && ValidPartition(fwids, plan) && Collected(w, plan, |plan|, results)
    ensures OwnElfs(w, fwids, plan, elfs)
  {
    elfs := [];
    for i := 0 to |fwids|
      invariant OwnElfs(w, fwids[..i], plan, elfs)
    {
      EveryIdHasARun(fwids, plan, fwids[i]);
      TakeNext(fwids, i);
      OwnElfsAppend(w, fwids[..i], plan, elfs, fwids[i], results[fwids[i]]);
      elfs := elfs + [(fwids[i], results[fwids[i]])];
    }
    TakeAll(fwids);
  }

  lemma OwnElfsAppend(w: World, fwids: seq<FwId>, plan: seq<CargoInvocation>, elfs: seq<(FwId, Elf)>, f: FwId, elf: Elf)
    requires w.Honest() && OwnElfs(w, fwids, plan, elfs) && exists run :: BuiltBy(w, plan, run, f, elf)
    ensures OwnElfs(w, fwids + [f], plan, elfs + [(f, elf)])
  {
  }

  ghost predicate Collected(w: World, plan: seq<CargoInvocation>, runs: nat, results: map<FwId, Elf>)
    requires w.Honest() && runs <= |plan|
  {
    && (forall t, f :: 0 <= t < runs && f in plan[t].fwids ==> f in results)
    && (forall f :: f in results ==> exists t :: BuiltBy(w, plan, t, f, results[f]))
  }

  lemma CollectedStep(w: World, plan: seq<CargoInvocation>, run: nat, results: map<FwId, Elf>, files: map<FwId, Elf>)
    requires w.Honest() && run < |plan| && Collected(w, plan, run, results)
    requires RunSucceeds(w, run, plan[run]) && files.Keys == set f | f in plan[run].fwids
    requires forall f :: f in plan[run].fwids ==> files[f] == w.cargo(run, Command(plan[run])).value[f.binName]
    ensures Collected(w, plan, run + 1, results + files)
  {
    forall f | f in results + files ensures exists t :: BuiltBy(w, plan, t, f, (results + files)[f]) {
      if f in files {
        assert (results + files)[f] == files[f];
        assert BuiltBy(w, plan, run, f, (results + files)[f]);
      } else {
        var t :| BuiltBy(w, plan, t, f, results[f]);
        assert BuiltBy(w, plan, t, f, (results + files)[f]);
      }
    }
  }

  /** One iteration: lock, build, read back, unlock. */
  method RunOne(w: World, run: nat, i: CargoInvocation) returns (done: bool, files: map<FwId, Elf>)
    requires w.Honest()
    ensures done <==> RunSucceeds(w, run, i)
    ensures done ==> files.Keys == set f | f in i.fwids
    ensures done ==> forall f :: f in i.fwids ==> files[f] == w.cargo(run, Command(i)).value[f.binName]
  {
    files := map[];
    var target: Directory := *;  // whatever other builders left behind
    if !w.lock(run) {
      return false, files;
    }
    var output := w.cargo(run, Command(i));
    if output.None? {
      return false, files;
    }
    target := target + output.value;
    for k := 0 to |i.fwids|
      invariant files.Keys == set f | f in i.fwids[..k]
      invariant forall f :: f in i.fwids[..k] ==> w.readable(run, f.binName)
      invariant forall f :: f in i.fwids[..k] ==> files[f] == output.value[f.binName]
    {
      var f := i.fwids[k];
      if !w.readable(run, f.binName) {
        return false, files;
      }
      TakeNext(i.fwids, k);
      files := files[f := target[f.binName]];
    }
    TakeAll(i.fwids);
    return true, files;
  }

  lemma {:induction false} FlattenMember(p: seq<CargoInvocation>, f: FwId)
    ensures f in Flatten(p) <==> exists t :: 0 <= t < |p| && f in p[t].fwids
  {
    if p != [] {
      FlattenMember(p[..|p| - 1], f);
    }
  }

  /** The lookup that the source guards with `expect` always finds the id. */
  lemma EveryIdHasARun(fwids: seq<FwId>, plan: seq<CargoInvocation>, f: FwId)
    requires ValidPartition(fwids, plan)
    ensures f in fwids <==> exists t :: 0 <= t < |plan| && f in plan[t].fwids
  {
    FlattenMember(plan, f);
    assert f in fwids <==> f in multiset(fwids);
    assert f in Flatten(plan) <==> f in multiset(Flatten(plan));
  }

  /** ... in one run only, so `OwnElfs` speaks of the id's own run. */
  lemma RunIsUnique(fwids: seq<FwId>, plan: seq<CargoInvocation>, f: FwId, t: nat, u: nat)
    requires Distinct(fwids) && IsPlan(fwids, plan)
    requires t < |plan| && u < |plan| && f in plan[t].fwids && f in plan[u].fwids
    ensures t == u
  {
    PlanIsValidPartition(fwids, plan);
    DistinctCount(fwids, f);
    if t < u {
      FlattenCount(plan, f, t, u);
    } else if u < t {
      FlattenCount(plan, f, u, t);
    }
  }

  /** ... and that run is made with the id's own crate, features and hardware revision, and names its binary. */
  lemma RunFitsId(fwids: seq<FwId>, plan: seq<CargoInvocation>, run: nat, f: FwId)
    requires IsPlan(fwids, plan) && run < |plan| && f in plan[run].fwids
    ensures var c := Command(plan[run]);
            && c.crateName == f.crateName && f.binName in c.bins
            && match f.fwType
               case Source(features, hwRevision) => c.featuresCsv == FeaturesCsv(features) && c.hwRevision == hwRevision
               case TaggedReleaseFromNetwork(_, _) => c.featuresCsv == "riscv" && c.hwRevision == None
  {
    PlanIsValidPartition(fwids, plan);
    assert CollisionFree(plan[run]);
  }

  lemma {:induction false} DistinctCount(s: seq<FwId>, f: FwId)
    requires Distinct(s)
    ensures multiset(s)[f] <= 1
  {
    if s != [] {
      var front, last := s[..|s| - 1], s[|s| - 1];
      DistinctCount(front, f);
      SplitLast(s);
      assert last !in multiset(front);
    }
  }

  lemma {:induction false} FlattenCount(p: seq<CargoInvocation>, f: FwId, t: nat, u: nat)
    requires t < u < |p| && f in p[t].fwids && f in p[u].fwids
    ensures multiset(Flatten(p))[f] >= 2
  {
    var front, last := p[..|p| - 1], p[|p| - 1];
    if u == |p| - 1 {
      FlattenMember(front, f);
      assert f in multiset(last.fwids) && f in multiset(Flatten(front));
    } else {
      FlattenCount(front, f, t, u);
    }
  }

  /** `build_firmware_elf_uncached`: its panic on an unexpected number of results cannot happen. */
  method BuildElf(w: World, id: FwId) returns (r: Result<Elf, BuildError>)
    requires w.Honest()
    ensures r.Success? <==> RunSucceeds(w, 0, CargoInvocation(id.Group(), [id]))
    ensures r.Success? ==> r.value == w.cargo(0, Command(CargoInvocation(id.Group(), [id]))).value[id.binName]
  {
    var built := BuildElfs(w, [id]);
    ghost var plan :| IsPlan([id], plan) && Follows(w, [id], plan, built);
    SinglePlan(id, plan);
    if built.Failure? {
      return Failure(built.error);
    }
    assert |built.value| == 1;
    return Success(built.value[0].1);
  }

  lemma SinglePlan(id: FwId, plan: seq<CargoInvocation>)
    requires IsPlan([id], plan)
    ensures plan == [CargoInvocation(id.Group(), [id])]
  {
    var only := CargoInvocation(id.Group(), [id]);
    assert [id][..0] == [];
    assert Retained([id]) == [] && Taken([id], id.Group()) == [id];
    assert Groups([id]) == {id.Group()};
    assert Round([id]) == {only};
    assert Rounds([]) == multiset{};
    assert multiset([only]) == Rounds([id]);
    PlanIsUnique([id], plan, [only]);
  }
}
