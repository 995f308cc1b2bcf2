/** The plan covers every id exactly once and uses the fewest possible cargo runs. */
module PlanOptimality {
  import opened Common
  import opened Orders
  import opened FwIds
  import opened Planner
  import opened Sums

  // ---------- Coverage ----------

  function Flatten(p: seq<CargoInvocation>): seq<FwId> {
    if p == [] then [] else Flatten(p[..|p| - 1]) + p[|p| - 1].fwids
  }

  ghost function PickOne(ms: multiset<CargoInvocation>): (i: CargoInvocation)
    requires ms != multiset{}
    ensures i in ms
  {
    var i :| i in ms; i
  }

  /** The ids held by a collection of invocations, with multiplicity. */
  ghost function Content(ms: multiset<CargoInvocation>): multiset<FwId>
    decreases |ms|
  {
    if ms == multiset{} then multiset{}
    else var i := PickOne(ms); multiset(i.fwids) + Content(ms - multiset{i})
  }

  lemma {:induction false} ContentRemove(ms: multiset<CargoInvocation>, x: CargoInvocation)
    requires x in ms
    ensures Content(ms) == multiset(x.fwids) + Content(ms - multiset{x})
    decreases |ms|
  {
    var i := PickOne(ms);
    if i != x {
      var without := ms - multiset{i} - multiset{x};
      assert ms - multiset{x} - multiset{i} == without;
      ContentRemove(ms - multiset{i}, x);
      ContentRemove(ms - multiset{x}, i);
      calc {
        Content(ms);
        multiset(i.fwids) + (multiset(x.fwids) + Content(without));
        multiset(x.fwids) + (multiset(i.fwids) + Content(without));
        multiset(x.fwids) + Content(ms - multiset{x});
      }
    }
  }

  lemma {:induction false} ContentUnion(a: multiset<CargoInvocation>, b: multiset<CargoInvocation>)
    ensures Content(a + b) == Content(a) + Content(b)
    decreases |a|
  {
    if a == multiset{} {
      assert a + b == b;
    } else {
      var i := PickOne(a);
      ContentRemove(a + b, i);
      ContentUnion(a - multiset{i}, b);
      assert a + b - multiset{i} == (a - multiset{i}) + b;
    }
  }

  lemma LastMultiset<T>(s: seq<T>)
    requires s != []
    ensures s[|s| - 1] in multiset(s)
    ensures multiset(s) - multiset{s[|s| - 1]} == multiset(s[..|s| - 1])
  {
    SplitLast(s);
  }

  lemma {:induction false} FlattenContent(p: seq<CargoInvocation>)
    ensures multiset(Flatten(p)) == Content(multiset(p))
  {
    if p != [] {
      var front, last := p[..|p| - 1], p[|p| - 1];
      FlattenContent(front);
      LastMultiset(p);
      ContentRemove(multiset(p), last);
    }
  }

  lemma AppendCount(s: seq<FwId>, x: FwId, f: FwId)
    ensures multiset(s + [x])[f] == multiset(s)[f] + if x == f then 1 else 0
  {
  }

  lemma {:induction false} TakenOrRetained(s: seq<FwId>, f: FwId)
    ensures multiset(Taken(s, f.Group()))[f] + multiset(Retained(s))[f] == multiset(s)[f]
  {
    if s != [] {
      var front, last := s[..|s| - 1], s[|s| - 1];
      TakenOrRetained(front, f);
      SplitLast(s);
      TakenAppend(front, last, f.Group());
      RetainedAppend(front, last);
      AppendCount(front, last, f);
      AppendCount(Taken(front, f.Group()), last, f);
      AppendCount(Retained(front), last, f);
    }
  }

  ghost function InvocationsOf(s: seq<FwId>, gs: set<BuildGroup>): set<CargoInvocation> {
    set g | g in gs :: CargoInvocation(g, Taken(s, g))
  }

  lemma InvocationsSplit(s: seq<FwId>, gs: set<BuildGroup>, g: BuildGroup)
    requires g in gs
    ensures var i := CargoInvocation(g, Taken(s, g));
            && i in InvocationsOf(s, gs)
            && |InvocationsOf(s, gs)| == |InvocationsOf(s, gs - {g})| + 1
            && multiset(InvocationsOf(s, gs)) - multiset{i} == multiset(InvocationsOf(s, gs - {g}))
  {
    var i := CargoInvocation(g, Taken(s, g));
    assert InvocationsOf(s, gs) == InvocationsOf(s, gs - {g}) + {i};
    assert i !in InvocationsOf(s, gs - {g});
  }

  lemma {:induction false} GroupContent(s: seq<FwId>, gs: set<BuildGroup>, f: FwId)
    ensures Content(multiset(InvocationsOf(s, gs)))[f]
            == if f.Group() in gs then multiset(Taken(s, f.Group()))[f] else 0
    ensures |InvocationsOf(s, gs)| == |gs|
    decreases |gs|
  {
    if gs != {} {
      var g :| g in gs;
      var i := CargoInvocation(g, Taken(s, g));
      GroupContent(s, gs - {g}, f);
      InvocationsSplit(s, gs, g);
      ContentRemove(multiset(InvocationsOf(s, gs)), i);
      TakenGroup(s, g);
      assert f.Group() != g ==> f !in i.fwids;
    }
  }

  lemma {:induction false} RoundsContent(s: seq<FwId>)
    ensures Content(Rounds(s)) == multiset(s)
    decreases |s|
  {
    if s != [] {
      forall f: FwId ensures Content(Rounds(s))[f] == multiset(s)[f] {
        ContentUnion(multiset(Round(s)), Rounds(Retained(s)));
        RoundsContent(Retained(s));
        TakenOrRetained(s, f);
        GroupContent(s, Groups(s), f);
        assert InvocationsOf(s, Groups(s)) == Round(s);
        if f.Group() !in Groups(s) {
          NothingTaken(s, f.Group());
        }
      }
    }
  }

  /** A way to build all of `fwids`: collision-free runs that hold every id exactly as often as the input. */
  ghost predicate ValidPartition(fwids: seq<FwId>, p: seq<CargoInvocation>) {
    && (forall i :: i in p ==> CollisionFree(i))
    && multiset(Flatten(p)) == multiset(fwids)
  }

  lemma PlanIsValidPartition(fwids: seq<FwId>, p: seq<CargoInvocation>)
    requires IsPlan(fwids, p)
    ensures ValidPartition(fwids, p)
    ensures forall i :: i in p ==> i.fwids != []
  {
    FlattenContent(p);
    RoundsContent(fwids);
    RoundsRunnable(fwids);
    forall i | i in p ensures Runnable(i) { assert i in multiset(p); }
  }

  // ---------- The number of runs ----------

  /** The largest number of ids of group `g` that share one target file name. */
  ghost function Multiplicity(s: seq<FwId>, g: BuildGroup): (m: nat)
    ensures forall bin :: Occurrences(s, g, bin) <= m
    ensures exists bin :: Occurrences(s, g, bin) == m
  {
    if s == [] then
      assert Occurrences(s, g, "") == 0;
      0
    else
      var front, last := s[..|s| - 1], s[|s| - 1];
      var m := Multiplicity(front, g);
      var n := Occurrences(s, g, last.binName);
      if last.Group() == g && n > m then n
      else
        assert exists bin :: Occurrences(s, g, bin) == m by {
          var bin :| Occurrences(front, g, bin) == m;
          assert Occurrences(s, g, bin) == m;
        }
        m
  }

  ghost function Multiplicities(s: seq<FwId>, gs: set<BuildGroup>): map<BuildGroup, nat> {
    map g | g in gs :: Multiplicity(s, g)
  }

  /** The sum, over the groups of the input, of each group's largest file-name multiplicity. */
  ghost function MinimumRuns(s: seq<FwId>): nat {
    Sum(Multiplicities(s, Groups(s)))
  }

  lemma RetainedMultiplicity(s: seq<FwId>, g: BuildGroup)
    ensures g in Groups(s) ==> Multiplicity(s, g) == Multiplicity(Retained(s), g) + 1
    ensures g in Groups(Retained(s)) ==> g in Groups(s)
    ensures g !in Groups(s) ==> Multiplicity(s, g) == 0
  {
    var b :| Occurrences(s, g, b) == Multiplicity(s, g);
    var b' :| Occurrences(Retained(s), g, b') == Multiplicity(Retained(s), g);
    RetainedOccurrences(s, g, b);
    RetainedOccurrences(s, g, b');
    OccursIffMember(s, g, b);
    if g in Groups(s) {
      var f :| f in s && f.Group() == g;
      OccursIffMember(s, g, f.binName);
    }
    if g in Groups(Retained(s)) {
      var f :| f in Retained(s) && f.Group() == g;
      OccursIffMember(Retained(s), g, f.binName);
      RetainedOccurrences(s, g, f.binName);
      OccursIffMember(s, g, f.binName);
    }
  }

  lemma MinimumRunsStep(s: seq<FwId>)
    requires s != []
    ensures MinimumRuns(s) == |Groups(s)| + MinimumRuns(Retained(s))
  {
    var rest := Retained(s);
    var now := Multiplicities(s, Groups(s));
    var later := Multiplicities(rest, Groups(s));
    var remaining := Multiplicities(rest, Groups(rest));
    assert later.Keys == now.Keys == Groups(s) && remaining.Keys == Groups(rest);
    forall g | g in Groups(s) ensures now[g] == later[g] + 1 { RetainedMultiplicity(s, g); }
    forall g | g in Groups(rest) ensures g in Groups(s) { RetainedMultiplicity(s, g); }
    forall g | g !in Groups(rest) ensures Multiplicity(rest, g) == 0 { RetainedMultiplicity(rest, g); }
    SumIncrement(later, now);
    SumSupport(remaining, later);
  }

  lemma {:induction false} RoundsSize(s: seq<FwId>)
    ensures |Rounds(s)| == MinimumRuns(s)
    decreases |s|
  {
    if s == [] {
      assert Multiplicities(s, Groups(s)) == map[];
    } else {
      RoundsSize(Retained(s));
      MinimumRunsStep(s);
      GroupContent(s, Groups(s), s[0]);
      assert InvocationsOf(s, Groups(s)) == Round(s);
    }
  }

  function RunsFor(p: seq<CargoInvocation>, g: BuildGroup): nat {
    if p == [] then 0 else RunsFor(p[..|p| - 1], g) + if p[|p| - 1].group == g then 1 else 0
  }

  ghost function RunsByGroup(p: seq<CargoInvocation>, gs: set<BuildGroup>): map<BuildGroup, nat> {
    map g | g in gs :: RunsFor(p, g)
  }

  lemma {:induction false} OccurrencesConcat(s: seq<FwId>, t: seq<FwId>, g: BuildGroup, bin: string)
    ensures Occurrences(s + t, g, bin) == Occurrences(s, g, bin) + Occurrences(t, g, bin)
  {
    if t == [] {
      assert s + t == s;
    } else {
      OccurrencesConcat(s, t[..|t| - 1], g, bin);
      assert (s + t)[..|s + t| - 1] == s + t[..|t| - 1];
    }
  }

  lemma {:induction false} OccurrencesPermute(s: seq<FwId>, t: seq<FwId>, g: BuildGroup, bin: string)
    requires multiset(s) == multiset(t)
    ensures Occurrences(s, g, bin) == Occurrences(t, g, bin)
    decreases |s|
  {
    assert |s| == |multiset(s)| == |multiset(t)| == |t|;
    if s != [] {
      var front, last := s[..|s| - 1], s[|s| - 1];
      SplitLast(s);
      assert last in multiset(t);
      var k :| 0 <= k < |t| && t[k] == last;
      var t' := t[..k] + t[k + 1..];
      assert t == t[..k] + [last] + t[k + 1..];
      assert multiset(front) == multiset(s) - multiset{last};
      assert multiset(t') == multiset(t) - multiset{last};
      OccurrencesPermute(front, t', g, bin);
      OccurrencesConcat(t[..k], t[k + 1..], g, bin);
      OccurrencesConcat(t[..k] + [last], t[k + 1..], g, bin);
      OccurrencesAppend(t[..k], last, g, bin);
    }
  }

  /** A collision-free run builds at most one id per file name, and only for its own group. */
  lemma {:induction false} RunsBoundOccurrences(p: seq<CargoInvocation>, g: BuildGroup, bin: string)
    requires forall i :: i in p ==> CollisionFree(i)
    ensures Occurrences(Flatten(p), g, bin) <= RunsFor(p, g)
  {
    if p != [] {
      var front, last := p[..|p| - 1], p[|p| - 1];
      RunsBoundOccurrences(front, g, bin);
      OccurrencesConcat(Flatten(front), last.fwids, g, bin);
      OccursIffMember(last.fwids, g, bin);
      assert last in p;
    }
  }

  /** Every run serves one group. */
  lemma {:induction false} RunsTotal(p: seq<CargoInvocation>, gs: set<BuildGroup>)
    ensures Sum(RunsByGroup(p, gs)) <= |p|
  {
    var m := RunsByGroup(p, gs);
    if p == [] {
      var none: map<BuildGroup, nat> := map[];
      assert Sum(none) == 0;
      SumSupport(none, m);
    } else {
      var front, last := p[..|p| - 1], p[|p| - 1];
      RunsTotal(front, gs);
      var m' := RunsByGroup(front, gs);
      if last.group in gs {
        SumUpdate(m', last.group, m[last.group]);
        assert m == m'[last.group := m[last.group]];
      } else {
        assert m == m';
      }
    }
  }

  /** "Compute the minimum number of cargo invocations": the formula, and no valid partition has fewer runs. */
  lemma PlanIsMinimal(fwids: seq<FwId>, p: seq<CargoInvocation>, q: seq<CargoInvocation>)
    requires IsPlan(fwids, p) && ValidPartition(fwids, q)
    ensures |p| == MinimumRuns(fwids) <= |q|
  {
    RoundsSize(fwids);
    assert |p| == |multiset(p)|;
    PartitionLowerBound(fwids, q);
  }

  lemma GroupLowerBound(fwids: seq<FwId>, q: seq<CargoInvocation>, g: BuildGroup)
    requires ValidPartition(fwids, q)
    ensures Multiplicity(fwids, g) <= RunsFor(q, g)
  {
    var bin :| Occurrences(fwids, g, bin) == Multiplicity(fwids, g);
    RunsBoundOccurrences(q, g, bin);
    OccurrencesPermute(fwids, Flatten(q), g, bin);
  }

  lemma PartitionLowerBound(fwids: seq<FwId>, q: seq<CargoInvocation>)
    requires ValidPartition(fwids, q)
    ensures MinimumRuns(fwids) <= |q|
  {
    var need := Multiplicities(fwids, Groups(fwids));
    var have := RunsByGroup(q, Groups(fwids));
    forall g | g in need ensures need[g] <= have[g] { GroupLowerBound(fwids, q, g); }
    assert need.Keys == have.Keys;
    SumMonotonic(need, have);
    RunsTotal(q, Groups(fwids));
  }
}
