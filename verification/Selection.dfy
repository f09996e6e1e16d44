/** Keeping some elements of a sequence, in order. */
module Selection {

  /** The elements from index i on that are to be kept, in order. */
  function Select<T>(s: seq<T>, keep: T -> bool, i: nat): seq<T>
    requires i <= |s|
    decreases |s| - i
  {
    if i == |s| then []
    else if keep(s[i]) then [s[i]] + Select(s, keep, i + 1)
    else Select(s, keep, i + 1)
  }

  lemma {:induction false} SelectMembers<T>(s: seq<T>, keep: T -> bool, i: nat)
    requires i <= |s|
    ensures forall x :: x in Select(s, keep, i) <==> x in s[i..] && keep(x)
    decreases |s| - i
  {
    if i == |s| {
    } else {
      SelectMembers(s, keep, i + 1);
      assert s[i..] == [s[i]] + s[i + 1..];
    }
  }

  lemma {:induction false} SelectSlice<T>(s: seq<T>, keep: T -> bool, lo: nat, hi: nat, i: nat)
    requires lo <= hi <= |s| && i <= |s|
    requires forall j :: 0 <= j < |s| ==> (keep(s[j]) <==> lo <= j < hi)
    ensures Select(s, keep, i) == if hi <= i then [] else if lo <= i then s[i..hi] else s[lo..hi]
    decreases |s| - i
  {
    if i == |s| {
    } else {
      SelectSlice(s, keep, lo, hi, i + 1);
      if lo <= i < hi {
        assert s[i..hi] == [s[i]] + s[i + 1..hi];
      } else {
        assert !keep(s[i]);
      }
    }
  }

  lemma {:induction false} SelectCongruent<T>(s: seq<T>, keep: T -> bool, keep': T -> bool, i: nat)
    requires i <= |s|
    requires forall j :: i <= j < |s| ==> keep(s[j]) == keep'(s[j])
    ensures Select(s, keep, i) == Select(s, keep', i)
    decreases |s| - i
  {
    if i == |s| {
    } else {
      assert keep(s[i]) == keep'(s[i]);
      SelectCongruent(s, keep, keep', i + 1);
    }
  }

  ghost predicate Distinct<T>(s: seq<T>) {
    forall i, j :: 0 <= i < j < |s| ==> s[i] != s[j]
  }

  /** Python's list.remove: the first occurrence goes. */
  function RemoveFirst<T(==)>(s: seq<T>, x: T): seq<T>
    requires x in s
  {
    if s[0] == x then s[1..] else [s[0]] + RemoveFirst(s[1..], x)
  }

  /** What is kept stays in order. */
  lemma {:induction false} SelectKeepsOrder<T>(s: seq<T>, keep: T -> bool, i: nat, a: nat, b: nat, p: nat, q: nat)
    requires i <= |s| && Distinct(s)
    requires a < b < |Select(s, keep, i)| && p < |s| && q < |s|
    requires s[p] == Select(s, keep, i)[a] && s[q] == Select(s, keep, i)[b]
    ensures i <= p < q
    decreases |s| - i
  {
    SelectMembers(s, keep, i + 1);
    var rest := Select(s, keep, i + 1);
    if !keep(s[i]) {
      SelectKeepsOrder(s, keep, i + 1, a, b, p, q);
    } else if a > 0 {
      SelectKeepsOrder(s, keep, i + 1, a - 1, b - 1, p, q);
    } else {
      assert p == i;
      assert rest[b - 1] in s[i + 1..];
    }
  }

  /** Removing one kept element of a duplicate-free list is keeping all but it. */
  lemma {:induction false} RemoveFirstSelects<T>(s: seq<T>, keep: T -> bool, keep': T -> bool, x: T, i: nat)
    requires i <= |s| && Distinct(s) && x in s[i..] && keep(x)
    requires forall y :: y in s ==> (keep'(y) <==> keep(y) && y != x)
    ensures x in Select(s, keep, i)
    ensures RemoveFirst(Select(s, keep, i), x) == Select(s, keep', i)
    decreases |s| - i
  {
    var rest := Select(s, keep, i + 1);
    assert s[i..] == [s[i]] + s[i + 1..];
    if s[i] == x {
      forall j | i + 1 <= j < |s| ensures keep(s[j]) == keep'(s[j]) {
        assert s[j] != x;
      }
      SelectCongruent(s, keep, keep', i + 1);
      assert ([x] + rest)[1..] == rest;
    } else {
      RemoveFirstSelects(s, keep, keep', x, i + 1);
      assert ([s[i]] + rest)[1..] == rest;
    }
  }

  lemma {:induction false} RemoveFirstMultiset<T>(s: seq<T>, x: T)
    requires x in s
    ensures multiset(RemoveFirst(s, x)) == multiset(s) - multiset{x}
  {
    assert s == [s[0]] + s[1..];
    if s[0] == x {
    } else {
      RemoveFirstMultiset(s[1..], x);
    }
  }

  /** Selecting twice is selecting once by both conditions. */
  lemma {:induction false} SelectTwice<T>(s: seq<T>, a: T -> bool, b: T -> bool, both: T -> bool, i: nat)
    requires i <= |s|
    requires forall y :: y in s ==> (both(y) <==> a(y) && b(y))
    ensures Select(Select(s, a, i), b, 0) == Select(s, both, i)
    decreases |s| - i
  {
    if i == |s| {
    } else {
      SelectTwice(s, a, b, both, i + 1);
      var rest := Select(s, a, i + 1);
      if a(s[i]) {
        SelectShift([s[i]] + rest, rest, b, 0);
      }
    }
  }

  lemma {:induction false} SelectShift<T>(s: seq<T>, rest: seq<T>, keep: T -> bool, i: nat)
    requires |s| == |rest| + 1 && i <= |rest|
    requires forall j :: 0 <= j < |rest| ==> rest[j] == s[j + 1]
    ensures Select(s, keep, i + 1) == Select(rest, keep, i)
    decreases |rest| - i
  {
    if i == |rest| {
    } else {
      assert rest[i] == s[i + 1];
      SelectShift(s, rest, keep, i + 1);
    }
  }

  lemma {:induction false} SelectFrom<T>(s: seq<T>, keep: T -> bool, i: nat, m: nat)
    requires i <= m <= |s|
    ensures |Select(s, keep, m)| <= |Select(s, keep, i)|
    ensures (exists j :: i <= j < m && keep(s[j])) ==> |Select(s, keep, m)| < |Select(s, keep, i)|
    decreases m - i
  {
    if i == m {
    } else {
      SelectFrom(s, keep, i + 1, m);
    }
  }

  lemma {:induction false} SelectAll<T>(s: seq<T>, keep: T -> bool, lo: nat, hi: nat)
    requires lo <= hi <= |s| && forall j :: lo <= j < hi ==> keep(s[j])
    ensures |Select(s, keep, lo)| == hi - lo + |Select(s, keep, hi)|
    decreases hi - lo
  {
    if lo == hi {
    } else {
      SelectAll(s, keep, lo + 1, hi);
    }
  }

  /** A slice is what is to be kept exactly when all of it is, and nothing else. */
  lemma SliceIsSelection<T>(s: seq<T>, keep: T -> bool, lo: nat, hi: nat)
    requires lo <= hi <= |s| && forall j :: lo <= j < hi ==> keep(s[j])
    ensures Select(s, keep, 0) == s[lo..hi] <==> forall j :: 0 <= j < |s| && keep(s[j]) ==> lo <= j < hi
  {
    if forall j :: 0 <= j < |s| && keep(s[j]) ==> lo <= j < hi {
      SelectSlice(s, keep, lo, hi, 0);
    } else {
      SelectFrom(s, keep, 0, lo);
      SelectAll(s, keep, lo, hi);
      SelectFrom(s, keep, hi, |s|);
      assert |Select(s, keep, 0)| > hi - lo;
    }
  }

  /** What either of two exclusive conditions selects. */
  lemma {:induction false} SelectSizes<T>(s: seq<T>, a: T -> bool, b: T -> bool, either: T -> bool, i: nat)
    requires i <= |s|
    requires forall j :: 0 <= j < |s| ==> !(a(s[j]) && b(s[j])) && (either(s[j]) <==> a(s[j]) || b(s[j]))
    ensures |Select(s, either, i)| == |Select(s, a, i)| + |Select(s, b, i)|
    decreases |s| - i
  {
    if i == |s| {
    } else {
      SelectSizes(s, a, b, either, i + 1);
    }
  }

  lemma {:induction false} SelectDistinct<T>(s: seq<T>, keep: T -> bool, i: nat)
    requires i <= |s| && Distinct(s)
    ensures Distinct(Select(s, keep, i))
    decreases |s| - i
  {
    if i == |s| {
    } else {
      SelectDistinct(s, keep, i + 1);
      SelectMembers(s, keep, i + 1);
      assert s[i] !in s[i + 1..];
    }
  }

  lemma {:induction false} SelectEverything<T>(s: seq<T>, keep: T -> bool, i: nat)
    requires i <= |s|
    requires forall y :: y in s ==> keep(y)
    ensures Select(s, keep, i) == s[i..]
    decreases |s| - i
  {
    if i == |s| {
    } else {
      SelectEverything(s, keep, i + 1);
      assert s[i..] == [s[i]] + s[i + 1..];
    }
  }
}
