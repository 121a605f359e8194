/** Order-preserving selection over sequences: the shape every repository
    query of the loan table has (a WHERE clause over the rows) and the COUNT
    that goes with it. */
module Seqs {

  /** The elements of `s` satisfying `p`, in their original order: each
      matching element as often as it occurs in `s`, and nothing else. */
  function Filter<T(!new)>(s: seq<T>, p: T -> bool): (r: seq<T>)
    ensures |r| <= |s|
    ensures forall i :: 0 <= i < |r| ==> r[i] in s && p(r[i])
    ensures forall i :: 0 <= i < |s| && p(s[i]) ==> s[i] in r
    ensures forall x {:trigger multiset(r)[x]} :: multiset(r)[x] == if p(x) then multiset(s)[x] else 0
  {
    assert |s| > 0 ==> s == [s[0]] + s[1..];
    if |s| == 0 then []
    else if p(s[0]) then [s[0]] + Filter(s[1..], p)
    else Filter(s[1..], p)
  }

  /** The number of elements of `s` satisfying `p`, counted one by one. */
  function CountWhere<T(!new)>(s: seq<T>, p: T -> bool): (n: nat)
    ensures n <= |s|
    ensures n == |Filter(s, p)|
    ensures n == 0 <==> forall i :: 0 <= i < |s| ==> !p(s[i])
  {
    if |s| == 0 then 0
    else (if p(s[0]) then 1 else 0) + CountWhere(s[1..], p)
  }

  /** Selection distributes over concatenation. */
  lemma {:induction false} FilterAppend<T(!new)>(s: seq<T>, t: seq<T>, p: T -> bool)
    ensures Filter(s + t, p) == Filter(s, p) + Filter(t, p)
  {
    if |s| == 0 {
      assert s + t == t;
    } else {
      assert (s + t)[1..] == s[1..] + t;
      FilterAppend(s[1..], t, p);
    }
  }

  /** Selecting by `p` and then by `q` is selecting by their conjunction. */
  lemma {:induction false} FilterOfFilter<T(!new)>(s: seq<T>, p: T -> bool, q: T -> bool, both: T -> bool)
    requires forall x :: both(x) == (p(x) && q(x))
    ensures Filter(Filter(s, p), q) == Filter(s, both)
  {
    if |s| > 0 {
      FilterOfFilter(s[1..], p, q, both);
    }
  }

  /** Two predicates that agree everywhere select the same elements. */
  lemma {:induction false} FilterSamePredicate<T(!new)>(s: seq<T>, p: T -> bool, q: T -> bool)
    requires forall x :: p(x) == q(x)
    ensures Filter(s, p) == Filter(s, q)
  {
    if |s| > 0 {
      FilterSamePredicate(s[1..], p, q);
    }
  }

  /** Selecting from a single element keeps it exactly when it matches. */
  lemma FilterSingleton<T(!new)>(x: T, p: T -> bool)
    ensures Filter([x], p) == if p(x) then [x] else []
  {
    assert [x][1..] == [];
  }

  /** A predicate no element can satisfy selects nothing. */
  lemma {:induction false} FilterNothing<T(!new)>(s: seq<T>, p: T -> bool)
    requires forall x :: !p(x)
    ensures Filter(s, p) == []
  {
    if |s| > 0 {
      FilterNothing(s[1..], p);
    }
  }

  /** Replacing one element changes the number of matches by at most the
      difference the replaced and the new element make. */
  lemma FilterUpdateLength<T(!new)>(s: seq<T>, i: nat, x: T, p: T -> bool)
    requires i < |s|
    ensures |Filter(s[i := x], p)| + (if p(s[i]) then 1 else 0)
         == |Filter(s, p)| + (if p(x) then 1 else 0)
  {
    var before, after := s[..i], s[i + 1..];
    assert s == before + [s[i]] + after;
    assert s[i := x] == before + [x] + after;
    FilterAppend(before + [s[i]], after, p);
    FilterAppend(before, [s[i]], p);
    FilterAppend(before + [x], after, p);
    FilterAppend(before, [x], p);
    assert Filter([s[i]], p) == if p(s[i]) then [s[i]] else [];
    assert Filter([x], p) == if p(x) then [x] else [];
  }
}
