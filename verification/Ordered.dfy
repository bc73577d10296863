/** Component lists in ascending order: sorting by insertion, and lists as the names of sets. */
module Ordered {

  function Elements(s: seq<nat>): (r: set<nat>)
  {
    set x | x in s
  }

  predicate AllBelow(s: seq<nat>, x: nat) {
    forall y <- s :: y < x
  }

  predicate Ascending(s: seq<nat>) {
    s == [] || (Ascending(s[..|s| - 1]) && AllBelow(s[..|s| - 1], s[|s| - 1]))
  }

  function Insert(s: seq<nat>, x: nat): (r: seq<nat>)
    ensures |r| == |s| + 1
  {
    if s == [] || s[|s| - 1] < x then s + [x] else Insert(s[..|s| - 1], x) + [s[|s| - 1]]
  }

  function Sort(s: seq<nat>): (r: seq<nat>)
    ensures |r| == |s|
  {
    if s == [] then [] else Insert(Sort(s[..|s| - 1]), s[|s| - 1])
  }

  lemma Append(s: seq<nat>, x: nat)
    ensures Elements(s + [x]) == Elements(s) + {x}
    ensures Ascending(s) && AllBelow(s, x) ==> Ascending(s + [x])
  {
    assert (s + [x])[..|s|] == s;
  }

  lemma SplitLast(s: seq<nat>)
    requires s != []
    ensures s == s[..|s| - 1] + [s[|s| - 1]]
    ensures Elements(s) == Elements(s[..|s| - 1]) + {s[|s| - 1]}
  {
    Append(s[..|s| - 1], s[|s| - 1]);
  }

  lemma {:induction false} BelowLast(s: seq<nat>, x: nat)
    requires Ascending(s) && (s == [] || s[|s| - 1] < x)
    ensures AllBelow(s, x)
  {
    if s != [] {
      SplitLast(s);
    }
  }

  lemma {:induction false} InsertElements(s: seq<nat>, x: nat)
    ensures Elements(Insert(s, x)) == Elements(s) + {x}
  {
    if s == [] || s[|s| - 1] < x {
      Append(s, x);
    } else {
      InsertElements(s[..|s| - 1], x);
      Append(Insert(s[..|s| - 1], x), s[|s| - 1]);
      SplitLast(s);
    }
  }

  lemma InsertBelow(s: seq<nat>, x: nat, m: nat)
    requires AllBelow(s, m) && x < m
    ensures AllBelow(Insert(s, x), m)
  {
    InsertElements(s, x);
    forall y <- Insert(s, x)
      ensures y < m
    {
      assert y in Elements(Insert(s, x));
    }
  }

  lemma {:induction false} InsertAscending(s: seq<nat>, x: nat)
    requires Ascending(s) && x !in s
    ensures Ascending(Insert(s, x))
  {
    if s == [] || s[|s| - 1] < x {
      BelowLast(s, x);
      Append(s, x);
    } else {
      var init, last := s[..|s| - 1], s[|s| - 1];
      assert last in s;
      InsertAscending(init, x);
      InsertBelow(init, x, last);
      Append(Insert(init, x), last);
    }
  }

  lemma {:induction false} SortSorted(s: seq<nat>)
    requires forall i, j | 0 <= i < j < |s| :: s[i] != s[j]
    ensures Ascending(Sort(s)) && Elements(Sort(s)) == Elements(s)
  {
    if s != [] {
      SortSorted(s[..|s| - 1]);
      SplitLast(s);
      assert s[|s| - 1] !in Elements(s[..|s| - 1]);
      InsertElements(Sort(s[..|s| - 1]), s[|s| - 1]);
      InsertAscending(Sort(s[..|s| - 1]), s[|s| - 1]);
    }
  }

  lemma EmptyElements(s: seq<nat>)
    ensures Elements(s) == {} <==> s == []
  {
    if s != [] {
      assert s[0] in Elements(s);
    }
  }

  /** An ascending list is determined by its elements. */
  lemma {:induction false} SameList(a: seq<nat>, b: seq<nat>)
    requires Ascending(a) && Ascending(b) && Elements(a) == Elements(b)
    ensures a == b
  {
    EmptyElements(a);
    EmptyElements(b);
    if a != [] {
      var x, y := a[|a| - 1], b[|b| - 1];
      SplitLast(a);
      SplitLast(b);
      assert x in Elements(b) && y in Elements(a);
      assert x == y;
      assert Elements(a[..|a| - 1]) == Elements(a) - {x} && Elements(b[..|b| - 1]) == Elements(b) - {x};
      SameList(a[..|a| - 1], b[..|b| - 1]);
    }
  }

  /** Every part at the front of an ascending list ascends, up to the value that follows it. */
  lemma {:induction false} AscendingPrefix(s: seq<nat>, i: nat)
    requires Ascending(s) && i <= |s|
    ensures Ascending(s[..i])
    ensures i < |s| ==> AllBelow(s[..i], s[i])
  {
    if i == |s| {
      assert s[..i] == s;
    } else if i < |s| - 1 {
      AscendingPrefix(s[..|s| - 1], i);
      assert s[..|s| - 1][..i] == s[..i];
    }
  }

  /** Sorting leaves an ascending list as it is. */
  lemma {:induction false} SortAscending(s: seq<nat>)
    requires Ascending(s)
    ensures Sort(s) == s
  {
    if s != [] {
      var init := s[..|s| - 1];
      SortAscending(init);
      SplitLast(s);
      if init != [] {
        assert init[|init| - 1] in init;
      }
    }
  }

  /** An ascending list names no value twice. */
  lemma {:induction false} AscendingDistinct(s: seq<nat>)
    requires Ascending(s)
    ensures forall i, j | 0 <= i < j < |s| :: s[i] != s[j]
  {
    if s != [] {
      var init := s[..|s| - 1];
      AscendingDistinct(init);
      forall i | 0 <= i < |init|
        ensures s[i] == init[i] && s[i] < s[|s| - 1]
      {
        assert init[i] in init;
      }
    }
  }
}
