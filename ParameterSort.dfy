// XAuth.sortParameters: an in-place bubble sort of the parameter list by
// name (String.compareTo), swapping neighbours only when the later name is
// strictly smaller. Values are never compared, and entries with equal names
// keep their relative order.
module ParameterSort {
  import opened JavaString
  import opened Parameters

  /** p's name does not sort after q's. */
  predicate NameLe(p: QueryParameter, q: QueryParameter) {
    !Less(q.name, p.name)
  }

  predicate SortedByName(s: seq<QueryParameter>) {
    forall k :: 0 < k < |s| ==> NameLe(s[k - 1], s[k])
  }

  /** The entries of s named nm, in their order in s. */
  function Named(s: seq<QueryParameter>, nm: string): seq<QueryParameter> {
    if s == [] then [] else (if s[0].name == nm then [s[0]] else []) + Named(s[1..], nm)
  }

  /** t holds the entries of s, and entries with equal names in the same order:
      a stable rearrangement. */
  ghost predicate SameRuns(s: seq<QueryParameter>, t: seq<QueryParameter>) {
    forall nm :: Named(s, nm) == Named(t, nm)
  }

  lemma NameLeReflexive(p: QueryParameter)
    ensures NameLe(p, p)
  {
    LessIrreflexive(p.name);
  }

  lemma NameLeTransitive(p: QueryParameter, q: QueryParameter, r: QueryParameter)
    requires NameLe(p, q) && NameLe(q, r)
    ensures NameLe(p, r)
  {
    LessTotal(q.name, p.name);
    if Less(p.name, q.name) && Less(r.name, p.name) {
      LessTransitive(r.name, p.name, q.name);
    }
  }

  lemma {:induction false} SortedAll(s: seq<QueryParameter>, j: int, k: int)
    requires SortedByName(s)
    requires 0 <= j <= k < |s|
    ensures NameLe(s[j], s[k])
    decreases k - j
  {
    if j == k {
      NameLeReflexive(s[j]);
    } else {
      SortedAll(s, j + 1, k);
      NameLeTransitive(s[j], s[j + 1], s[k]);
    }
  }

  lemma {:induction false} NamedAppend(a: seq<QueryParameter>, b: seq<QueryParameter>, nm: string)
    ensures Named(a + b, nm) == Named(a, nm) + Named(b, nm)
    decreases |a|
  {
    if a == [] {
      assert a + b == b;
    } else {
      var h := a[0];
      NamedAppend(a[1..], b, nm);
      NamedFront(h, a[1..] + b, nm);
      NamedFront(h, a[1..], nm);
      assert [h] + (a[1..] + b) == a + b;
      assert [h] + a[1..] == a;
    }
  }

  /** Swapping neighbours with different names is a stable rearrangement. */
  lemma SwapKeepsRuns(s: seq<QueryParameter>, i: int)
    requires 0 < i < |s|
    requires s[i - 1].name != s[i].name
    ensures SameRuns(s[i - 1 := s[i]][i := s[i - 1]], s)
  {
    var t := s[i - 1 := s[i]][i := s[i - 1]];
    var front, back := s[..i - 1], s[i + 1..];
    assert s == front + [s[i - 1], s[i]] + back;
    assert t == front + [s[i], s[i - 1]] + back;
    forall nm
      ensures Named(t, nm) == Named(s, nm)
    {
      NamedAppend(front + [s[i], s[i - 1]], back, nm);
      NamedAppend(front, [s[i], s[i - 1]], nm);
      NamedAppend(front + [s[i - 1], s[i]], back, nm);
      NamedAppend(front, [s[i - 1], s[i]], nm);
      assert [s[i], s[i - 1]][1..] == [s[i - 1]];
      assert [s[i - 1], s[i]][1..] == [s[i]];
    }
  }

  /** A name no entry carries has no entries. */
  lemma {:induction false} NamedNone(s: seq<QueryParameter>, nm: string)
    requires forall k :: 0 <= k < |s| ==> s[k].name != nm
    ensures Named(s, nm) == []
  {
    if s != [] {
      NamedNone(s[1..], nm);
    }
  }

  /** The first entry's name has an entry. */
  lemma NamedFirst(s: seq<QueryParameter>)
    ensures s != [] ==> Named(s, s[0].name) != []
  {
  }

  /** A name with an entry in s. */
  lemma {:induction false} NamedMember(s: seq<QueryParameter>, nm: string) returns (j: int)
    requires Named(s, nm) != []
    ensures 0 <= j < |s| && s[j].name == nm
  {
    if s[0].name == nm {
      j := 0;
    } else {
      j := NamedMember(s[1..], nm);
      j := j + 1;
    }
  }

  // ---------------------------------------------------------------------
  // The reference sort: stable insertion by name.

  /** p placed before the first entry of t whose name is not smaller. */
  function InsertByName(p: QueryParameter, t: seq<QueryParameter>): (r: seq<QueryParameter>)
    ensures |r| == |t| + 1
  {
    if t == [] || !Less(t[0].name, p.name) then [p] + t
    else [t[0]] + InsertByName(p, t[1..])
  }

  /** The parameters ordered by name, equal names in their original order. */
  function SortByName(s: seq<QueryParameter>): (r: seq<QueryParameter>)
    ensures |r| == |s|
  {
    if s == [] then [] else InsertByName(s[0], SortByName(s[1..]))
  }

  lemma {:induction false} InsertSorted(p: QueryParameter, t: seq<QueryParameter>)
    requires SortedByName(t)
    ensures SortedByName(InsertByName(p, t))
    ensures InsertByName(p, t)[0] == p || InsertByName(p, t)[0] == t[0]
  {
    if t != [] && Less(t[0].name, p.name) {
      InsertSorted(p, t[1..]);
      LessAsymmetric(t[0].name, p.name);
      var r := InsertByName(p, t[1..]);
      assert NameLe(t[0], r[0]);
      assert forall k :: 0 < k < |r| + 1 ==> ([t[0]] + r)[k] == r[k - 1];
    }
  }

  lemma {:induction false} InsertRuns(p: QueryParameter, t: seq<QueryParameter>, nm: string)
    ensures Named(InsertByName(p, t), nm) == (if p.name == nm then [p] else []) + Named(t, nm)
  {
    if t == [] || !Less(t[0].name, p.name) {
      NamedFront(p, t, nm);
    } else {
      InsertRuns(p, t[1..], nm);
      LessIrreflexive(p.name);
      NamedFront(t[0], InsertByName(p, t[1..]), nm);
      NamedFront(t[0], t[1..], nm);
      assert [t[0]] + t[1..] == t;
    }
  }

  lemma NamedFront(p: QueryParameter, s: seq<QueryParameter>, nm: string)
    ensures Named([p] + s, nm) == (if p.name == nm then [p] else []) + Named(s, nm)
  {
    assert ([p] + s)[1..] == s;
  }

  lemma {:induction false} InsertMultiset(p: QueryParameter, t: seq<QueryParameter>)
    ensures multiset(InsertByName(p, t)) == multiset(t) + multiset{p}
  {
    if t != [] && Less(t[0].name, p.name) {
      InsertMultiset(p, t[1..]);
      assert t == [t[0]] + t[1..];
    }
  }

  /** The reference sort is sorted by name, stable, and a permutation. */
  lemma {:induction false} SortByNameCorrect(s: seq<QueryParameter>)
    ensures SortedByName(SortByName(s))
    ensures SameRuns(SortByName(s), s)
    ensures multiset(SortByName(s)) == multiset(s)
  {
    if s != [] {
      SortByNameCorrect(s[1..]);
      InsertSorted(s[0], SortByName(s[1..]));
      InsertMultiset(s[0], SortByName(s[1..]));
      assert s == [s[0]] + s[1..];
      forall nm
        ensures Named(SortByName(s), nm) == Named(s, nm)
      {
        InsertRuns(s[0], SortByName(s[1..]), nm);
      }
    }
  }

  /** Sortedness and stability leave only one possible order: whatever
      stable sort by name is used, its result is the same. */
  lemma {:induction false} SortedRunsDetermine(s: seq<QueryParameter>, t: seq<QueryParameter>)
    requires SortedByName(s) && SortedByName(t) && SameRuns(s, t)
    ensures s == t
    decreases |s|
  {
    if s == [] {
      if t != [] {
        NamedFirst(t);
        assert false;
      }
    } else if t == [] {
      NamedFirst(s);
      assert false;
    } else {
      var x, y := s[0], t[0];
      var j := NamedMember(s, y.name);
      var k := NamedMember(t, x.name);
      SortedAll(s, 0, j);
      SortedAll(t, 0, k);
      LessTotal(x.name, y.name);
      assert x.name == y.name;
      assert Named(s, x.name)[0] == x && Named(t, x.name)[0] == y;
      assert Named(s, x.name) == Named(t, x.name);
      forall nm
        ensures Named(s[1..], nm) == Named(t[1..], nm)
      {
        var head := if x.name == nm then [x] else [];
        assert Named(s, nm) == head + Named(s[1..], nm);
        assert Named(t, nm) == head + Named(t[1..], nm);
        assert Named(s, nm) == Named(t, nm);
        assert Named(s[1..], nm) == (head + Named(s[1..], nm))[|head|..];
        assert Named(t[1..], nm) == (head + Named(t[1..], nm))[|head|..];
      }
      SortedRunsDetermine(s[1..], t[1..]);
      assert s == [x] + s[1..] && t == [y] + t[1..];
    }
  }

  /** Any stable sort by name is the reference sort. */
  lemma StableSortIsSortByName(s: seq<QueryParameter>, t: seq<QueryParameter>)
    requires SortedByName(t) && SameRuns(t, s)
    ensures t == SortByName(s)
  {
    SortByNameCorrect(s);
    SortedRunsDetermine(t, SortByName(s));
  }

  // ---------------------------------------------------------------------
  // The bubble sort itself.

  /** The first d entries are in order and none sorts after any later entry. */
  predicate Settled(s: seq<QueryParameter>, d: int) {
    0 <= d <= |s| &&
    (forall k :: 0 < k < d ==> NameLe(s[k - 1], s[k])) &&
    (forall j, k :: 0 <= j < d <= k < |s| ==> NameLe(s[j], s[k]))
  }

  /** s[i] sorts no later than anything after it. */
  predicate LeastFrom(s: seq<QueryParameter>, i: int) {
    0 <= i < |s| && forall k :: i <= k < |s| ==> NameLe(s[i], s[k])
  }

  lemma SettleOne(s: seq<QueryParameter>, d: int)
    requires Settled(s, d) && LeastFrom(s, d)
    ensures Settled(s, d + 1)
  {
  }

  lemma ExtendLeast(s: seq<QueryParameter>, i: int)
    requires 0 < i < |s| && NameLe(s[i - 1], s[i]) && LeastFrom(s, i)
    ensures LeastFrom(s, i - 1)
  {
    forall k | i - 1 <= k < |s|
      ensures NameLe(s[i - 1], s[k])
    {
      if k == i - 1 {
        NameLeReflexive(s[k]);
      } else {
        NameLeTransitive(s[i - 1], s[i], s[k]);
      }
    }
  }

  lemma SwapLeast(s: seq<QueryParameter>, i: int, d: int)
    requires 0 <= d < i < |s| && Less(s[i].name, s[i - 1].name) && LeastFrom(s, i) && Settled(s, d)
    ensures LeastFrom(s[i - 1 := s[i]][i := s[i - 1]], i - 1)
    ensures Settled(s[i - 1 := s[i]][i := s[i - 1]], d)
  {
    LessAsymmetric(s[i].name, s[i - 1].name);
    NameLeReflexive(s[i]);
  }

  /** XAuth.sortParameters. */
  method SortParameters(items: array<QueryParameter>)
    modifies items
    ensures SortedByName(items[..])
    ensures SameRuns(items[..], old(items[..]))
    ensures items[..] == SortByName(old(items[..]))
    ensures multiset(items[..]) == multiset(old(items[..]))
  {
    var n := items.Length;
    var unsorted := true;
    ghost var settled := 0;
    while unsorted
      invariant Settled(items[..], settled)
      invariant !unsorted ==> SortedByName(items[..])
      invariant SameRuns(items[..], old(items[..]))
      decreases n - settled + (if unsorted then 1 else 0)
    {
      unsorted := BubblePass(items, settled);
      if settled < n {
        SettleOne(items[..], settled);
        settled := settled + 1;
      }
    }
    SortByNameCorrect(old(items[..]));
    SortedRunsDetermine(items[..], SortByName(old(items[..])));
  }

  /** One pass of the outer loop of XAuth.sortParameters: from the end down,
      neighbours whose later name is strictly smaller are swapped, and the
      result says whether any were. The least remaining entry moves to index
      `settled`; a pass without swaps finds the array sorted. */
  method BubblePass(items: array<QueryParameter>, ghost settled: int) returns (unsorted: bool)
    requires Settled(items[..], settled)
    modifies items
    ensures Settled(items[..], settled)
    ensures settled < items.Length ==> LeastFrom(items[..], settled)
    ensures settled == items.Length ==> !unsorted
    ensures !unsorted ==> SortedByName(items[..])
    ensures SameRuns(items[..], old(items[..]))
  {
    var n := items.Length;
    unsorted := false;
    var i := n - 1;
    if n > 0 {
      NameLeReflexive(items[n - 1]);
    }
    while i > 0
      invariant -1 <= i < n && (n > 0 ==> 0 <= i)
      invariant Settled(items[..], settled)
      invariant settled <= i ==> LeastFrom(items[..], i)
      invariant i <= settled < n ==> LeastFrom(items[..], settled)
      invariant !unsorted ==> InOrderAbove(items[..], i)
      invariant settled == n ==> !unsorted
      invariant SameRuns(items[..], old(items[..]))
    {
      if CompareTo(items[i].name, items[i - 1].name) < 0 {
        NotSettledYet(items[..], i, settled);
        SwapDown(items, i, settled);
        unsorted := true;
      } else {
        if settled <= i - 1 {
          ExtendLeast(items[..], i);
        }
        if !unsorted {
          InOrderStep(items[..], i);
        }
      }
      i := i - 1;
    }
  }

  /** The neighbours after position i are in order. */
  predicate InOrderAbove(s: seq<QueryParameter>, i: int) {
    forall k :: 0 < k < |s| && i < k ==> NameLe(s[k - 1], s[k])
  }

  lemma InOrderStep(s: seq<QueryParameter>, i: int)
    requires 0 < i < |s| && InOrderAbove(s, i) && NameLe(s[i - 1], s[i])
    ensures InOrderAbove(s, i - 1)
  {
  }

  /** An out-of-order pair of neighbours lies past the settled prefix. */
  lemma NotSettledYet(s: seq<QueryParameter>, i: int, d: int)
    requires 0 < i < |s| && Settled(s, d) && Less(s[i].name, s[i - 1].name)
    ensures d < i
  {
    LessAsymmetric(s[i].name, s[i - 1].name);
  }

  /** The swap of XAuth.sortParameters: the smaller later entry moves one
      place forward, still the least of what follows it. */
  method SwapDown(items: array<QueryParameter>, i: int, ghost settled: int)
    requires 0 <= settled < i < items.Length && Less(items[i].name, items[i - 1].name)
    requires Settled(items[..], settled) && LeastFrom(items[..], i)
    modifies items
    ensures items[..] == old(items[..])[i - 1 := old(items[i])][i := old(items[i - 1])]
    ensures Settled(items[..], settled) && LeastFrom(items[..], i - 1)
    ensures SameRuns(items[..], old(items[..]))
  {
    ghost var before := items[..];
    items[i - 1], items[i] := items[i], items[i - 1];
    assert items[..] == before[i - 1 := before[i]][i := before[i - 1]];
    LessIrreflexive(before[i].name);
    SwapKeepsRuns(before, i);
    SwapLeast(before, i, settled);
  }

  /** Names "b", "a", "c", "a" sort to "a", "a", "b", "c", the two "a"
      entries keeping their order. */
  lemma SortExample()
    ensures SortByName([QueryParameter("b", "1"), QueryParameter("a", "2"), QueryParameter("c", "3"), QueryParameter("a", "4")])
         == [QueryParameter("a", "2"), QueryParameter("a", "4"), QueryParameter("b", "1"), QueryParameter("c", "3")]
  {
    var a2, a4, b1, c3 := QueryParameter("a", "2"), QueryParameter("a", "4"), QueryParameter("b", "1"), QueryParameter("c", "3");
    assert Less("a", "b") && Less("a", "c") && Less("b", "c");
    LessAsymmetric("a", "b");
    LessAsymmetric("a", "c");
    LessAsymmetric("b", "c");
    LessIrreflexive("a");
    assert SortByName([a4]) == [a4];
    assert [c3, a4][1..] == [a4];
    assert InsertByName(c3, [a4]) == [a4] + InsertByName(c3, []);
    assert SortByName([c3, a4]) == [a4, c3];
    assert [a2, c3, a4][1..] == [c3, a4];
    assert SortByName([a2, c3, a4]) == [a2, a4, c3];
    assert [b1, a2, c3, a4][1..] == [a2, c3, a4];
    assert InsertByName(b1, [a2, a4, c3]) == [a2] + InsertByName(b1, [a4, c3]);
    assert [a2, a4, c3][1..] == [a4, c3] && [a4, c3][1..] == [c3];
    assert InsertByName(b1, [a4, c3]) == [a4] + InsertByName(b1, [c3]);
  }
}
