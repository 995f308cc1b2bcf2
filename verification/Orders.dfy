/** The total orders that Rust derives for the planner's types. */
module Orders {
  import opened Common

  datatype Ordering = Less | Equal | Greater {
    /** `Ordering::then_with` */
    function Then(next: Ordering): Ordering {
      if Equal? then next else this
    }
  }

  ghost predicate TotalOrder<T(!new)>(cmp: (T, T) -> Ordering) {
    && (forall a, b :: cmp(a, b) == Equal <==> a == b)
    && (forall a, b :: cmp(a, b) == Less <==> cmp(b, a) == Greater)
    && (forall a, b, c :: cmp(a, b) == Less && cmp(b, c) == Less ==> cmp(a, c) == Less)
  }

  function NatCompare(a: nat, b: nat): Ordering {
    if a < b then Less else if a == b then Equal else Greater
  }

  function CharCompare(a: char, b: char): Ordering {
    if a < b then Less else if a == b then Equal else Greater
  }

  /** The order Rust derives for slices. */
  function Lexicographic<T(!new)>(cmp: (T, T) -> Ordering, a: seq<T>, b: seq<T>): Ordering {
    if a == [] then
      if b == [] then Equal else Less
    else if b == [] then Greater
    else cmp(a[0], b[0]).Then(Lexicographic(cmp, a[1..], b[1..]))
  }

  lemma {:induction false} LexicographicEqual<T(!new)>(cmp: (T, T) -> Ordering, a: seq<T>, b: seq<T>)
    requires TotalOrder(cmp)
    ensures Lexicographic(cmp, a, b) == Equal <==> a == b
    ensures Lexicographic(cmp, a, b) == Less <==> Lexicographic(cmp, b, a) == Greater
  {
    if a != [] && b != [] {
      LexicographicEqual(cmp, a[1..], b[1..]);
      SplitFirst(a);
      SplitFirst(b);
    }
  }

  lemma {:induction false} LexicographicTransitive<T(!new)>(cmp: (T, T) -> Ordering, a: seq<T>, b: seq<T>, c: seq<T>)
    requires TotalOrder(cmp)
    requires Lexicographic(cmp, a, b) == Less && Lexicographic(cmp, b, c) == Less
    ensures Lexicographic(cmp, a, c) == Less
  {
    if a != [] && cmp(a[0], b[0]) == Equal && cmp(b[0], c[0]) == Equal {
      LexicographicTransitive(cmp, a[1..], b[1..], c[1..]);
    }
  }

  function StringCompare(a: string, b: string): Ordering {
    Lexicographic(CharCompare, a, b)
  }

  function StringsCompare(a: seq<string>, b: seq<string>): Ordering {
    Lexicographic(StringCompare, a, b)
  }

  lemma StringOrder()
    ensures TotalOrder(StringCompare)
  {
    assert TotalOrder(CharCompare);
    forall a, b { LexicographicEqual(CharCompare, a, b); }
    forall a, b, c | StringCompare(a, b) == Less && StringCompare(b, c) == Less
      ensures StringCompare(a, c) == Less
    {
      LexicographicTransitive(CharCompare, a, b, c);
    }
  }

  lemma StringsOrder()
    ensures TotalOrder(StringsCompare)
  {
    StringOrder();
    forall a, b { LexicographicEqual(StringCompare, a, b); }
    forall a, b, c | StringsCompare(a, b) == Less && StringsCompare(b, c) == Less
      ensures StringsCompare(a, c) == Less
    {
      LexicographicTransitive(StringCompare, a, b, c);
    }
  }

  // ---------- Sorting ----------

  ghost predicate Preorder<T(!new)>(cmp: (T, T) -> Ordering) {
    && (forall a :: cmp(a, a) != Greater)
    && (forall a, b :: cmp(a, b) == Greater ==> cmp(b, a) != Greater)
    && (forall a, b, c :: cmp(a, b) != Greater && cmp(b, c) != Greater ==> cmp(a, c) != Greater)
  }

  ghost predicate SortedBy<T(!new)>(cmp: (T, T) -> Ordering, s: seq<T>) {
    forall i, j :: 0 <= i < j < |s| ==> cmp(s[i], s[j]) != Greater
  }

  /** Any sort may stand for `sort_unstable_by` when SortedPermutationsAgree applies. */
  method SortBy<T(!new)>(cmp: (T, T) -> Ordering, xs: seq<T>) returns (ys: seq<T>)
    requires Preorder(cmp)
    ensures multiset(ys) == multiset(xs) && SortedBy(cmp, ys)
  {
    ys := [];
    for i := 0 to |xs|
      invariant multiset(ys) == multiset(xs[..i]) && SortedBy(cmp, ys)
    {
      ys := Insert(cmp, ys, xs[i]);
      TakeNext(xs, i);
    }
    TakeAll(xs);
  }

  method Insert<T(!new)>(cmp: (T, T) -> Ordering, xs: seq<T>, x: T) returns (ys: seq<T>)
    requires Preorder(cmp) && SortedBy(cmp, xs)
    ensures multiset(ys) == multiset(xs) + multiset{x} && SortedBy(cmp, ys)
  {
    var k := 0;
    while k < |xs| && cmp(xs[k], x) != Greater
      invariant 0 <= k <= |xs|
      invariant forall i :: 0 <= i < k ==> cmp(xs[i], x) != Greater
    {
      k := k + 1;
    }
    forall i | k <= i < |xs| ensures cmp(x, xs[i]) != Greater {
      assert cmp(x, xs[k]) != Greater && cmp(xs[k], xs[i]) != Greater;
    }
    InsertKeepsSorted(cmp, xs, x, k);
    ys := xs[..k] + [x] + xs[k..];
    assert xs == xs[..k] + xs[k..];
  }

  lemma InsertKeepsSorted<T(!new)>(cmp: (T, T) -> Ordering, xs: seq<T>, x: T, k: nat)
    requires k <= |xs| && SortedBy(cmp, xs)
    requires forall i :: 0 <= i < k ==> cmp(xs[i], x) != Greater
    requires forall i :: k <= i < |xs| ==> cmp(x, xs[i]) != Greater
    ensures SortedBy(cmp, xs[..k] + [x] + xs[k..])
  {
    var ys := xs[..k] + [x] + xs[k..];
    forall i, j | 0 <= i < j < |ys| ensures cmp(ys[i], ys[j]) != Greater {
      if i == k {
        assert ys[i] == x && ys[j] == xs[j - 1];
      } else if j == k {
        assert ys[i] == xs[i] && ys[j] == x;
      } else {
        var i', j' := if i < k then i else i - 1, if j < k then j else j - 1;
        assert ys[i] == xs[i'] && ys[j] == xs[j'];
      }
    }
  }

  lemma {:induction false} SortedPermutationsAgree<T(!new)>(cmp: (T, T) -> Ordering, p: seq<T>, q: seq<T>)
    requires multiset(p) == multiset(q)
    requires SortedBy(cmp, p) && SortedBy(cmp, q)
    requires forall a, b :: a in p && b in p && cmp(a, b) != Greater && cmp(b, a) != Greater ==> a == b
    ensures p == q
  {
    assert |q| == |multiset(q)| == |multiset(p)| == |p|;
    if p != [] {
      HeadsAgree(cmp, p, q);
      TailMultiset(p);
      TailMultiset(q);
      TailSorted(cmp, p);
      TailSorted(cmp, q);
      assert forall a :: a in p[1..] ==> a in p;
      SortedPermutationsAgree(cmp, p[1..], q[1..]);
      SplitFirst(p);
      SplitFirst(q);
    }
  }

  lemma TailSorted<T(!new)>(cmp: (T, T) -> Ordering, s: seq<T>)
    requires s != [] && SortedBy(cmp, s)
    ensures SortedBy(cmp, s[1..])
  {
    forall i, j | 0 <= i < j < |s| - 1 ensures cmp(s[1..][i], s[1..][j]) != Greater {
      assert cmp(s[i + 1], s[j + 1]) != Greater;
    }
  }

  lemma TailMultiset<T>(s: seq<T>)
    requires s != []
    ensures multiset(s[1..]) == multiset(s) - multiset{s[0]}
  {
    SplitFirst(s);
  }

  lemma HeadsAgree<T(!new)>(cmp: (T, T) -> Ordering, p: seq<T>, q: seq<T>)
    requires p != [] && q != [] && multiset(p) == multiset(q)
    requires SortedBy(cmp, p) && SortedBy(cmp, q)
    requires forall a, b :: a in p && b in p && cmp(a, b) != Greater && cmp(b, a) != Greater ==> a == b
    ensures p[0] == q[0]
  {
    assert p[0] in multiset(q) && q[0] in multiset(p);
    var i :| 0 <= i < |p| && p[i] == q[0];
    var j :| 0 <= j < |q| && q[j] == p[0];
    if i != 0 && j != 0 {
      assert cmp(p[0], p[i]) != Greater && cmp(q[0], q[j]) != Greater;
    }
  }
}
