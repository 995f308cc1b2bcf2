/** `cargo_invocations_from_fwids`: greedy rounds over the remaining ids, then a sort. */
module Planner {
  import opened Common
  import opened Orders
  import opened FwIds

  // ---------- One greedy round ----------

  /** How many ids of `s` belong to group `g` and write the target file `bin`. */
  function Occurrences(s: seq<FwId>, g: BuildGroup, bin: string): nat {
    if s == [] then 0
    else
      var last := s[|s| - 1];
      Occurrences(s[..|s| - 1], g, bin) + if last.Group() == g && last.binName == bin then 1 else 0
  }

  /** The ids of group `g` that one pass over `s` puts into an invocation. */
  function Taken(s: seq<FwId>, g: BuildGroup): seq<FwId> {
    if s == [] then []
    else
      var front, last := s[..|s| - 1], s[|s| - 1];
      Taken(front, g)
      + if last.Group() == g && Occurrences(front, g, last.binName) == 0 then [last] else []
  }

  /** The ids that one pass over `s` retains for a later round. */
  function Retained(s: seq<FwId>): (r: seq<FwId>)
    ensures s != [] ==> |r| < |s|
  {
    if s == [] then []
    else
      var front, last := s[..|s| - 1], s[|s| - 1];
      Retained(front) + if Occurrences(front, last.Group(), last.binName) == 0 then [] else [last]
  }

  function Groups(s: seq<FwId>): set<BuildGroup> {
    set f | f in s :: f.Group()
  }

  ghost function Round(s: seq<FwId>): set<CargoInvocation> {
    set g | g in Groups(s) :: CargoInvocation(g, Taken(s, g))
  }

  /** All the invocations of all the rounds, in no order. */
  ghost function Rounds(s: seq<FwId>): multiset<CargoInvocation>
    decreases |s|
  {
    if s == [] then multiset{} else multiset(Round(s)) + Rounds(Retained(s))
  }

  lemma OccurrencesAppend(s: seq<FwId>, f: FwId, g: BuildGroup, bin: string)
    ensures Occurrences(s + [f], g, bin)
            == Occurrences(s, g, bin) + if f.Group() == g && f.binName == bin then 1 else 0
  {
    Unsplit(s, f);
  }

  /** What one more id does to a round. */
  lemma TakenAppend(s: seq<FwId>, f: FwId, g: BuildGroup)
    ensures Taken(s + [f], g)
            == if f.Group() == g && Occurrences(s, g, f.binName) == 0 then Taken(s, g) + [f] else Taken(s, g)
  {
    Unsplit(s, f);
  }

  lemma RetainedAppend(s: seq<FwId>, f: FwId)
    ensures Retained(s + [f])
            == if Occurrences(s, f.Group(), f.binName) == 0 then Retained(s) else Retained(s) + [f]
  {
    Unsplit(s, f);
  }

  lemma {:induction false} TakenOccurrences(s: seq<FwId>, g: BuildGroup, bin: string)
    ensures Occurrences(Taken(s, g), g, bin) == if Occurrences(s, g, bin) == 0 then 0 else 1
  {
    if s != [] {
      var front, last := s[..|s| - 1], s[|s| - 1];
      TakenOccurrences(front, g, bin);
      OccurrencesAppend(Taken(front, g), last, g, bin);
      assert Taken(front, g) + [] == Taken(front, g);
    }
  }

  lemma {:induction false} TakenGroup(s: seq<FwId>, g: BuildGroup)
    ensures forall f :: f in Taken(s, g) ==> f in s && f.Group() == g
  {
    if s != [] {
      TakenGroup(s[..|s| - 1], g);
    }
  }

  lemma {:induction false} RetainedOccurrences(s: seq<FwId>, g: BuildGroup, bin: string)
    ensures Occurrences(Retained(s), g, bin) == if Occurrences(s, g, bin) == 0 then 0 else Occurrences(s, g, bin) - 1
  {
    if s != [] {
      var front, last := s[..|s| - 1], s[|s| - 1];
      RetainedOccurrences(front, g, bin);
      if Occurrences(front, last.Group(), last.binName) == 0 {
        assert Retained(s) == Retained(front);
      } else {
        assert Retained(s) == Retained(front) + [last];
        OccurrencesAppend(Retained(front), last, g, bin);
      }
    }
  }

  lemma {:induction false} OccursIffMember(s: seq<FwId>, g: BuildGroup, bin: string)
    ensures Occurrences(s, g, bin) > 0 <==> exists f :: f in s && f.Group() == g && f.binName == bin
  {
    if s != [] {
      var front, last := s[..|s| - 1], s[|s| - 1];
      OccursIffMember(front, g, bin);
      assert s == front + [last];
    }
  }

  /** The test the source makes on the invocation under construction. */
  lemma BinCollides(s: seq<FwId>, g: BuildGroup, bin: string)
    ensures (exists f :: f in Taken(s, g) && f.binName == bin) <==> Occurrences(s, g, bin) > 0
  {
    TakenOccurrences(s, g, bin);
    TakenGroup(s, g);
    OccursIffMember(Taken(s, g), g, bin);
  }

  // ---------- Well-formed plans ----------

  /** A cargo run can build these ids together: one group, no two writing the same file. */
  ghost predicate CollisionFree(i: CargoInvocation) {
    && (forall f :: f in i.fwids ==> f.Group() == i.group)
    && (forall bin :: Occurrences(i.fwids, i.group, bin) <= 1)
  }

  ghost predicate Runnable(i: CargoInvocation) {
    i.fwids != [] && CollisionFree(i)
  }

  lemma RoundRunnable(s: seq<FwId>, i: CargoInvocation)
    requires i in Round(s)
    ensures Runnable(i)
  {
    var f :| f in s && f.Group() == i.group;
    TakenGroup(s, i.group);
    BinCollides(s, i.group, f.binName);
    OccursIffMember(s, i.group, f.binName);
    forall bin ensures Occurrences(i.fwids, i.group, bin) <= 1 {
      TakenOccurrences(s, i.group, bin);
    }
  }

  lemma {:induction false} RoundsRunnable(s: seq<FwId>)
    ensures forall i :: i in Rounds(s) ==> Runnable(i)
    decreases |s|
  {
    if s != [] {
      forall i | i in Round(s) ensures Runnable(i) { RoundRunnable(s, i); }
      RoundsRunnable(Retained(s));
    }
  }

  /** What the planner promises of an accepted input: the rounds' invocations, in the comparator's order. */
  ghost predicate IsPlan(fwids: seq<FwId>, p: seq<CargoInvocation>) {
    multiset(p) == Rounds(fwids) && SortedBy(InvocationCompare, p)
  }

  /** No enumeration order of the hash map shows in the result: an input has only one plan. */
  lemma PlanIsUnique(fwids: seq<FwId>, p: seq<CargoInvocation>, q: seq<CargoInvocation>)
    requires IsPlan(fwids, p) && IsPlan(fwids, q)
    ensures p == q
  {
    RoundsRunnable(fwids);
    forall a, b | a in p && b in p && InvocationCompare(a, b) != Greater && InvocationCompare(b, a) != Greater
      ensures a == b
    {
      assert a in multiset(p) && b in multiset(p);
      EquivalentRunnablesAreEqual(a, b);
    }
    SortedPermutationsAgree(InvocationCompare, p, q);
  }

  /** The comparator skips the hardware revision, but the (non-empty) id list fixes it. */
  lemma EquivalentRunnablesAreEqual(a: CargoInvocation, b: CargoInvocation)
    requires Runnable(a) && Runnable(b)
    ensures a == b || InvocationCompare(a, b) == Greater || InvocationCompare(b, a) == Greater
  {
    InvocationPreorder(a, b, a);
    if InvocationCompare(a, b) == Equal {
      assert a.fwids[0] in a.fwids && b.fwids[0] in b.fwids;
    }
  }

  // ---------- The planner ----------

  ghost predicate Distinct<T(!new)>(s: seq<T>) {
    forall i, j :: 0 <= i < j < |s| ==> s[i] != s[j]
  }

  method CargoInvocations(fwids: seq<FwId>) returns (r: Result<seq<CargoInvocation>, FwId>)
    ensures r.Success? <==> Distinct(fwids)
    ensures r.Success? ==> IsPlan(fwids, r.value)
    ensures r.Failure? ==> exists i :: 0 <= i < |fwids| && RepeatsFirstAt(fwids, i, r.error)
  {
    var seen := {};
    for i := 0 to |fwids|
      invariant forall f :: f in seen <==> f in fwids[..i]
      invariant Distinct(fwids[..i])
    {
      if fwids[i] in seen {
        assert RepeatsFirstAt(fwids, i, fwids[i]);
        return Failure(fwids[i]);
      }
      seen := seen + {fwids[i]};
    }
    TakeAll(fwids);
    var result := GreedyRounds(fwids);
    return Success(result);
  }

  /** The id reported as a duplicate is the first one that repeats an earlier id. */
  ghost predicate RepeatsFirstAt(fwids: seq<FwId>, i: nat, f: FwId)
    requires i < |fwids|
  {
    fwids[i] == f && f in fwids[..i] && Distinct(fwids[..i])
  }

  method GreedyRounds(fwids: seq<FwId>) returns (result: seq<CargoInvocation>)
    ensures IsPlan(fwids, result)
  {
    result := [];
    var remaining := fwids;
    while remaining != []
      invariant multiset(result) + Rounds(remaining) == Rounds(fwids)
      decreases |remaining|
    {
      var invocations, kept := RetainPass(remaining);
      assert invocations.Values == Round(remaining) by { MapValues(remaining, invocations); }
      var values := IntoValues(invocations);
      assert multiset(result + values) == multiset(result) + multiset(values);
      result, remaining := result + values, kept;
    }
    ComparatorIsPreorder();
    result := SortBy(InvocationCompare, result);
  }

  lemma ComparatorIsPreorder()
    ensures Preorder(InvocationCompare)
  {
    forall a, b, c { InvocationPreorder(a, b, c); }
  }

  ghost predicate Collects(s: seq<FwId>, invocations: map<BuildGroup, CargoInvocation>) {
    && invocations.Keys == Groups(s)
    && forall g :: g in invocations ==> invocations[g] == CargoInvocation(g, Taken(s, g))
  }

  lemma MapValues(s: seq<FwId>, invocations: map<BuildGroup, CargoInvocation>)
    requires Collects(s, invocations)
    ensures invocations.Values == Round(s)
  {
    forall i | i in Round(s) ensures i in invocations.Values {
      assert invocations[i.group] == i;
    }
  }

  /** `remaining_fwids.retain(..)`, filling the invocation map as it goes. */
  method RetainPass(remaining: seq<FwId>) returns (invocations: map<BuildGroup, CargoInvocation>, kept: seq<FwId>)
    ensures Collects(remaining, invocations)
    ensures kept == Retained(remaining)
  {
    invocations, kept := map[], [];
    for i := 0 to |remaining|
      invariant Collects(remaining[..i], invocations)
      invariant kept == Retained(remaining[..i])
    {
      var fwid := remaining[i];
      var g := fwid.Group();
      var fwids := if g in invocations then invocations[g].fwids else [];
      TakeNext(remaining, i);
      RetainStep(remaining[..i], fwid, invocations);
      if exists x :: x in fwids && x.binName == fwid.binName {
        kept := kept + [fwid];
      } else {
        invocations := invocations[g := CargoInvocation(g, fwids + [fwid])];
      }
    }
    TakeAll(remaining);
  }

  /** One call of the closure handed to `retain`. */
  lemma RetainStep(front: seq<FwId>, f: FwId, invocations: map<BuildGroup, CargoInvocation>)
    requires Collects(front, invocations)
    ensures var g := f.Group();
            var fwids := if g in invocations then invocations[g].fwids else [];
            if exists x :: x in fwids && x.binName == f.binName then
              && Retained(front + [f]) == Retained(front) + [f]
              && Collects(front + [f], invocations)
            else
              && Retained(front + [f]) == Retained(front)
              && Collects(front + [f], invocations[g := CargoInvocation(g, fwids + [f])])
  {
    var g := f.Group();
    RetainedAppend(front, f);
    BinCollides(front, g, f.binName);
    if g !in invocations {
      NothingTaken(front, g);
    }
    if Occurrences(front, g, f.binName) > 0 {
      OccursIffMember(front, g, f.binName);
      CollectsCollision(front, f, invocations);
    } else {
      CollectsNew(front, f, invocations);
    }
  }

  lemma GroupsAppend(s: seq<FwId>, f: FwId)
    ensures Groups(s + [f]) == Groups(s) + {f.Group()}
  {
    assert f in s + [f];
  }

  lemma CollectsCollision(front: seq<FwId>, f: FwId, invocations: map<BuildGroup, CargoInvocation>)
    requires Collects(front, invocations)
    requires Occurrences(front, f.Group(), f.binName) > 0 && f.Group() in Groups(front)
    ensures Collects(front + [f], invocations)
  {
    GroupsAppend(front, f);
    forall h | h in invocations ensures invocations[h] == CargoInvocation(h, Taken(front + [f], h)) {
      TakenAppend(front, f, h);
    }
  }

  lemma CollectsNew(front: seq<FwId>, f: FwId, invocations: map<BuildGroup, CargoInvocation>)
    requires Collects(front, invocations) && Occurrences(front, f.Group(), f.binName) == 0
    ensures Collects(front + [f], invocations[f.Group() := CargoInvocation(f.Group(), Taken(front, f.Group()) + [f])])
  {
    GroupsAppend(front, f);
    var after := invocations[f.Group() := CargoInvocation(f.Group(), Taken(front, f.Group()) + [f])];
    forall h | h in after ensures after[h] == CargoInvocation(h, Taken(front + [f], h)) {
      TakenAppend(front, f, h);
    }
  }

  lemma {:induction false} NothingTaken(s: seq<FwId>, g: BuildGroup)
    requires g !in Groups(s)
    ensures Taken(s, g) == []
  {
    if s != [] {
      NothingTaken(s[..|s| - 1], g);
    }
  }

  /** `HashMap::into_values`: the enumeration order is arbitrary. */
  method IntoValues(m: map<BuildGroup, CargoInvocation>) returns (values: seq<CargoInvocation>)
    requires forall g :: g in m ==> m[g].group == g
    ensures multiset(values) == multiset(m.Values)
  {
    values := [];
    var rest := m;
    while rest != map[]
      invariant rest.Keys <= m.Keys && forall g :: g in rest ==> rest[g] == m[g]
      invariant multiset(values) + multiset(rest.Values) == multiset(m.Values)
      decreases |rest|
    {
      var g :| g in rest;
      assert rest.Values == (rest - {g}).Values + {rest[g]} by {
        forall v | v in rest.Values ensures v in (rest - {g}).Values + {rest[g]} {
          var h :| h in rest && rest[h] == v;
          assert h == g || h in rest - {g};
        }
      }
      assert rest[g] !in (rest - {g}).Values;
      values := values + [rest[g]];
      rest := rest - {g};
    }
  }
}
