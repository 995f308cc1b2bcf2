/** The order of a plan and of the ids inside its runs, stated without the comparator and the greedy pass. */
module PlanOrder {
  import opened Common
  import opened Orders
  import opened FwIds
  import opened Planner
  import opened PlanOptimality
  import opened UncachedBuild

  // ---------- The order of the runs ----------

  /** `s` is a proper prefix of `t`, or smaller at the first position where they differ. */
  ghost predicate Precedes<T(!new)>(less: (T, T) -> bool, s: seq<T>, t: seq<T>) {
    || s < t
    || exists k :: 0 <= k < |s| && DiffersFirstAt(s, t, k) && less(s[k], t[k])
  }

  ghost predicate DiffersFirstAt<T(!new)>(s: seq<T>, t: seq<T>, k: nat) {
    k < |s| && k < |t| && s[..k] == t[..k] && s[k] != t[k]
  }

  /** `less` is what the comparator calls Less. */
  ghost predicate Means<T(!new)>(cmp: (T, T) -> Ordering, less: (T, T) -> bool) {
    forall x, y :: less(x, y) <==> cmp(x, y) == Less
  }

  lemma {:induction false} LexicographicMeaning<T(!new)>(cmp: (T, T) -> Ordering, less: (T, T) -> bool, a: seq<T>, b: seq<T>)
    requires TotalOrder(cmp) && Means(cmp, less)
    ensures Lexicographic(cmp, a, b) == Less <==> Precedes(less, a, b)
  {
    if a != [] && b != [] {
      LexicographicMeaning(cmp, less, a[1..], b[1..]);
      if a[0] == b[0] {
        PrecedesTail(less, a, b);
      } else {
        assert less(a[0], b[0]) ==> DiffersFirstAt(a, b, 0);
        forall k | 0 < k <= |a| && k <= |b| ensures a[..k] != b[..k] {
          assert a[..k][0] != b[..k][0];
        }
      }
    }
  }

  lemma PrecedesTail<T(!new)>(less: (T, T) -> bool, a: seq<T>, b: seq<T>)
    requires a != [] && b != [] && a[0] == b[0]
    ensures Precedes(less, a, b) <==> Precedes(less, a[1..], b[1..])
  {
    assert a < b <==> a[1..] < b[1..] by {
      SplitFirst(a);
      SplitFirst(b);
      assert a[1..] <= b[1..] ==> a <= b;
    }
    forall k: nat ensures DiffersFirstAt(a, b, k + 1) <==> DiffersFirstAt(a[1..], b[1..], k) {
      DiffersTail(a, b, k);
    }
    if k :| 0 <= k < |a[1..]| && DiffersFirstAt(a[1..], b[1..], k) && less(a[1..][k], b[1..][k]) {
      assert DiffersFirstAt(a, b, k + 1);
    }
    if k :| 0 <= k < |a| && DiffersFirstAt(a, b, k) && less(a[k], b[k]) {
      assert DiffersFirstAt(a[1..], b[1..], k - 1);
    }
  }

  lemma DiffersTail<T(!new)>(a: seq<T>, b: seq<T>, k: nat)
    requires a != [] && b != [] && a[0] == b[0]
    ensures DiffersFirstAt(a, b, k + 1) <==> DiffersFirstAt(a[1..], b[1..], k)
  {
    if k < |a| - 1 && k < |b| - 1 {
      assert a[..k + 1] == [a[0]] + a[1..][..k] && b[..k + 1] == [b[0]] + b[1..][..k];
      assert a[1..][..k] == a[..k + 1][1..] && b[1..][..k] == b[..k + 1][1..];
    }
  }

  ghost predicate CharLess(a: char, b: char) {
    a < b
  }

  ghost predicate StringPrecedes(a: string, b: string) {
    Precedes(CharLess, a, b)
  }

  ghost predicate StringsPrecede(a: seq<string>, b: seq<string>) {
    Precedes(StringPrecedes, a, b)
  }

  lemma StringMeaning()
    ensures Means(StringCompare, StringPrecedes)
  {
    assert TotalOrder(CharCompare) && Means(CharCompare, CharLess);
    forall a, b { LexicographicMeaning(CharCompare, CharLess, a, b); }
  }

  lemma StringsMeaning()
    ensures Means(StringsCompare, StringsPrecede)
  {
    StringOrder();
    StringMeaning();
    forall a, b { LexicographicMeaning(StringCompare, StringPrecedes, a, b); }
  }

  const HW_REVISIONS: seq<Option<HwVersion>> := [None, Some(Latest), Some(V2_0), Some(V2_1), Some(V2_2)]

  ghost predicate HwPrecedes(a: Option<HwVersion>, b: Option<HwVersion>) {
    exists i, j :: 0 <= i < j < |HW_REVISIONS| && HW_REVISIONS[i] == a && HW_REVISIONS[j] == b
  }

  /** Sources come before tagged releases. */
  ghost predicate TypePrecedes(a: FirmwareType, b: FirmwareType) {
    match (a, b)
    case (Source(f, h), Source(f', h')) => StringsPrecede(f, f') || (f == f' && HwPrecedes(h, h'))
    case (TaggedReleaseFromNetwork(v, u), TaggedReleaseFromNetwork(v', u')) =>
      StringPrecedes(v, v') || (v == v' && StringPrecedes(u, u'))
    case (Source(_, _), TaggedReleaseFromNetwork(_, _)) => true
    case (TaggedReleaseFromNetwork(_, _), Source(_, _)) => false
  }

  lemma HwMeaning(a: Option<HwVersion>, b: Option<HwVersion>)
    ensures HwPrecedes(a, b) <==> NatCompare(HwRank(a), HwRank(b)) == Less
  {
    assert HW_REVISIONS[HwRank(a)] == a && HW_REVISIONS[HwRank(b)] == b;
    assert forall i :: 0 <= i < |HW_REVISIONS| ==> HwRank(HW_REVISIONS[i]) == i;
  }

  lemma TypeMeaning()
    ensures Means(FirmwareTypeCompare, TypePrecedes)
  {
    forall a, b ensures TypePrecedes(a, b) <==> FirmwareTypeCompare(a, b) == Less {
      StringOrder();
      StringsOrder();
      StringMeaning();
      StringsMeaning();
      if a.Source? && b.Source? {
        HwMeaning(a.hwRevision, b.hwRevision);
      }
    }
  }

  ghost predicate IdPrecedes(a: FwId, b: FwId) {
    || StringPrecedes(a.crateName, b.crateName)
    || (a.crateName == b.crateName && StringPrecedes(a.binName, b.binName))
    || (a.crateName == b.crateName && a.binName == b.binName && TypePrecedes(a.fwType, b.fwType))
  }

  lemma IdMeaning()
    ensures Means(FwIdCompare, IdPrecedes)
  {
    StringOrder();
    StringMeaning();
    TypeMeaning();
  }

  /** Larger runs first; then crate names, feature lists and id lists ascending. */
  ghost predicate RunPrecedes(a: CargoInvocation, b: CargoInvocation) {
    || |a.fwids| > |b.fwids|
    || (|a.fwids| == |b.fwids| && NamePrecedes(a, b))
  }

  ghost predicate NamePrecedes(a: CargoInvocation, b: CargoInvocation) {
    || StringPrecedes(a.group.crateName, b.group.crateName)
    || (a.group.crateName == b.group.crateName && StringsPrecede(a.group.features, b.group.features))
    || (a.group.crateName == b.group.crateName && a.group.features == b.group.features && Precedes(IdPrecedes, a.fwids, b.fwids))
  }

  lemma ComparatorMeaning(a: CargoInvocation, b: CargoInvocation)
    ensures InvocationCompare(a, b) == Less <==> RunPrecedes(a, b)
  {
    StringOrder();
    StringsOrder();
    FwIdOrder();
    StringMeaning();
    StringsMeaning();
    IdMeaning();
    LexicographicMeaning(FwIdCompare, IdPrecedes, a.fwids, b.fwids);
  }

  /** "Run the largest invocations first", and in a consistent order: any two runs of a plan are in it strictly. */
  lemma PlanIsOrdered(fwids: seq<FwId>, p: seq<CargoInvocation>, i: nat, j: nat)
    requires Distinct(fwids) && IsPlan(fwids, p) && i < j < |p|
    ensures RunPrecedes(p[i], p[j])
    ensures |p[i].fwids| >= |p[j].fwids|
  {
    ComparatorMeaning(p[i], p[j]);
    PlanIsValidPartition(fwids, p);
    assert p[i] in p && p[j] in p;
    InvocationPreorder(p[i], p[j], p[j]);
    if InvocationCompare(p[i], p[j]) == Equal {
      RunIsUnique(fwids, p, p[i].fwids[0], i, j);
    }
  }

  // ---------- The order of the ids in a run ----------

  /** No earlier id of `s` is of the same group and writes the same file. */
  ghost predicate FirstOfItsName(s: seq<FwId>, k: nat)
    requires k < |s|
  {
    forall j :: 0 <= j < k ==> s[j].Group() != s[k].Group() || s[j].binName != s[k].binName
  }

  /** `r` is the part of `s` at the ascending positions `ix`. */
  ghost predicate PartAt(s: seq<FwId>, ix: seq<nat>, r: seq<FwId>) {
    && |ix| == |r|
    && (forall m, n :: 0 <= m < n < |ix| ==> ix[m] < ix[n])
    && (forall m :: 0 <= m < |ix| ==> ix[m] < |s| && r[m] == s[ix[m]])
  }

  lemma PartGrows(s: seq<FwId>, f: FwId, ix: seq<nat>, r: seq<FwId>)
    requires PartAt(s, ix, r)
    ensures PartAt(s + [f], ix, r) && PartAt(s + [f], ix + [|s|], r + [f])
  {
  }

  lemma FirstInFront(s: seq<FwId>, k: nat)
    requires s != [] && k < |s|
    ensures k < |s| - 1 ==> (FirstOfItsName(s, k) <==> FirstOfItsName(s[..|s| - 1], k))
    ensures k == |s| - 1 ==> (FirstOfItsName(s, k) <==> Occurrences(s[..k], s[k].Group(), s[k].binName) == 0)
  {
    if k == |s| - 1 {
      OccursIffMember(s[..k], s[k].Group(), s[k].binName);
      assert forall j :: 0 <= j < k ==> s[j] == s[..k][j] && s[j] in s[..k];
    } else {
      assert forall j :: 0 <= j <= k ==> s[j] == s[..|s| - 1][j];
    }
  }

  /** Appending position `n` to positions below it. */
  lemma AppendPosition(ix: seq<nat>, n: nat, k: nat)
    requires forall m :: 0 <= m < |ix| ==> ix[m] < n
    ensures n !in ix && (k in ix + [n] <==> k == n || k in ix)
  {
  }

  /** A run holds, in input order, the first id of every file name of its group. */
  lemma {:induction false} TakenAreFirsts(s: seq<FwId>, g: BuildGroup) returns (ix: seq<nat>)
    ensures PartAt(s, ix, Taken(s, g))
    ensures forall k :: 0 <= k < |s| ==> (k in ix <==> s[k].Group() == g && FirstOfItsName(s, k))
  {
    ix := [];
    if s != [] {
      var n := |s| - 1;
      var front := s[..n];
      var before := TakenAreFirsts(front, g);
      SplitLast(s);
      PartGrows(front, s[n], before, Taken(front, g));
      TakenAppend(front, s[n], g);
      ix := if s[n].Group() == g && Occurrences(front, g, s[n].binName) == 0 then before + [n] else before;
      forall k | 0 <= k < |s| ensures k in ix <==> s[k].Group() == g && FirstOfItsName(s, k) {
        FirstInFront(s, k);
        AppendPosition(before, n, k);
        assert k < n ==> front[k] == s[k];
      }
    }
  }

  /** The other ids stay for the next round, in input order. */
  lemma {:induction false} RetainedAreRepeats(s: seq<FwId>) returns (ix: seq<nat>)
    ensures PartAt(s, ix, Retained(s))
    ensures forall k :: 0 <= k < |s| ==> (k in ix <==> !FirstOfItsName(s, k))
  {
    ix := [];
    if s != [] {
      var n := |s| - 1;
      var front := s[..n];
      var before := RetainedAreRepeats(front);
      SplitLast(s);
      PartGrows(front, s[n], before, Retained(front));
      RetainedAppend(front, s[n]);
      ix := if Occurrences(front, s[n].Group(), s[n].binName) == 0 then before else before + [n];
      forall k | 0 <= k < |s| ensures k in ix <==> !FirstOfItsName(s, k) {
        FirstInFront(s, k);
        AppendPosition(before, n, k);
      }
    }
  }
}
