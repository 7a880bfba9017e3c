/** `Array.prototype.sort` with a comparison function: a stable sort, as the language guarantees. */
module StableSort {

  /** A comparison where one of two elements always goes first. */
  ghost predicate Total<T(!new)>(cmp: (T, T) -> int) {
    forall x, y :: cmp(x, y) <= 0 || cmp(y, x) <= 0
  }

  predicate SortedBy<T>(cmp: (T, T) -> int, s: seq<T>)
    decreases |s|
  {
    |s| <= 1 || (cmp(s[|s| - 2], s[|s| - 1]) <= 0 && SortedBy(cmp, s[..|s| - 1]))
  }

  /** Insert x after every element that is not greater, scanning from the right. */
  function Insert<T>(cmp: (T, T) -> int, s: seq<T>, x: T): (r: seq<T>)
    ensures multiset(r) == multiset(s) + multiset{x}
    ensures |r| == |s| + 1
    decreases |s|
  {
    if s == [] || cmp(s[|s| - 1], x) <= 0 then s + [x]
    else
      assert s == s[..|s| - 1] + [s[|s| - 1]];
      Insert(cmp, s[..|s| - 1], x) + [s[|s| - 1]]
  }

  /** `Array.prototype.sort` on a copy: stable. */
  function Sort<T>(cmp: (T, T) -> int, s: seq<T>): (r: seq<T>)
    ensures multiset(r) == multiset(s)
    ensures |r| == |s|
    decreases |s|
  {
    if s == [] then []
    else
      assert s == s[..|s| - 1] + [s[|s| - 1]];
      Insert(cmp, Sort(cmp, s[..|s| - 1]), s[|s| - 1])
  }

  lemma SortedSnoc<T>(cmp: (T, T) -> int, s: seq<T>, x: T)
    requires SortedBy(cmp, s) && (s != [] ==> cmp(s[|s| - 1], x) <= 0)
    ensures SortedBy(cmp, s + [x])
  {
    assert (s + [x])[..|s|] == s;
  }

  lemma {:induction false} InsertSorts<T(!new)>(cmp: (T, T) -> int, s: seq<T>, x: T)
    requires Total(cmp) && SortedBy(cmp, s)
    ensures SortedBy(cmp, Insert(cmp, s, x))
    ensures var r := Insert(cmp, s, x);
      r[|s|] == x || (s != [] && r[|s|] == s[|s| - 1])
    decreases |s|
  {
    if s == [] || cmp(s[|s| - 1], x) <= 0 {
      SortedSnoc(cmp, s, x);
    } else {
      var init, last := s[..|s| - 1], s[|s| - 1];
      InsertSorts(cmp, init, x);
      SortedSnoc(cmp, Insert(cmp, init, x), last);
    }
  }

  lemma {:induction false} SortSorts<T(!new)>(cmp: (T, T) -> int, s: seq<T>)
    requires Total(cmp)
    ensures SortedBy(cmp, Sort(cmp, s))
    decreases |s|
  {
    if s != [] {
      SortSorts(cmp, s[..|s| - 1]);
      InsertSorts(cmp, Sort(cmp, s[..|s| - 1]), s[|s| - 1]);
    }
  }

  lemma InsertAtEnd<T>(cmp: (T, T) -> int, s: seq<T>, x: T)
    requires s == [] || cmp(s[|s| - 1], x) <= 0
    ensures Insert(cmp, s, x) == s + [x]
  {
  }

  /** A sorted list is left alone. */
  lemma {:induction false} SortSorted<T>(cmp: (T, T) -> int, s: seq<T>)
    requires SortedBy(cmp, s)
    ensures Sort(cmp, s) == s
    decreases |s|
  {
    hide Insert;
    if s != [] {
      var init, x := s[..|s| - 1], s[|s| - 1];
      SortSorted(cmp, init);
      InsertAtEnd(cmp, init, x);
      assert s == init + [x];
    }
  }

  lemma SortMembers<T>(cmp: (T, T) -> int, s: seq<T>)
    ensures forall x :: x in Sort(cmp, s) <==> x in s
  {
    assert forall x :: x in Sort(cmp, s) <==> x in multiset(Sort(cmp, s));
  }

  lemma SortNil<T>(cmp: (T, T) -> int)
    ensures Sort(cmp, []) == []
  {
  }

  lemma SortSnoc<T>(cmp: (T, T) -> int, s: seq<T>, x: T)
    ensures Sort(cmp, s + [x]) == Insert(cmp, Sort(cmp, s), x)
  {
    hide Insert;
    assert (s + [x])[..|s|] == s;
  }

  lemma InsertBefore<T>(cmp: (T, T) -> int, s: seq<T>, last: T, x: T)
    requires cmp(last, x) > 0
    ensures Insert(cmp, s + [last], x) == Insert(cmp, s, x) + [last]
  {
    assert (s + [last])[..|s|] == s;
  }
}
