/** Sequence helpers shared by the colour tables and the type grouping: the
    first-occurrence search of `Array.prototype.indexOf`, the append-if-absent
    register that both name lists and the type map follow, and occurrence
    counting. */
module Seqs {

  /** No element occurs twice. */
  predicate NoDuplicates<T(==)>(s: seq<T>) {
    forall i, j :: 0 <= i < j < |s| ==> s[i] != s[j]
  }

  /** Position of the first occurrence of `x` in `s`, or -1 when there is none. */
  function IndexOf<T(==)>(s: seq<T>, x: T): (r: int)
    ensures -1 <= r < |s|
    ensures r == -1 <==> x !in s
    ensures 0 <= r ==> s[r] == x && x !in s[..r]
  {
    if |s| == 0 then -1
    else if s[0] == x then 0
    else
      var k := IndexOf(s[1..], x);
      if k == -1 then -1
      else
        assert s[..k + 1] == [s[0]] + s[1..][..k];
        k + 1
  }

  /** In a list without duplicates, the element at position i is found at i. */
  lemma {:induction false} IndexOfDistinct<T>(s: seq<T>, i: nat)
    requires NoDuplicates(s) && i < |s|
    ensures IndexOf(s, s[i]) == i
  {
    var k := IndexOf(s, s[i]);
    assert s[k] == s[i];
  }

  /** Extending a list at its end keeps the position of every element it already held. */
  lemma {:induction false} IndexOfPrefix<T>(s: seq<T>, t: seq<T>, x: T)
    requires x in s
    ensures IndexOf(s + t, x) == IndexOf(s, x)
  {
    var k := IndexOf(s, x);
    var m := IndexOf(s + t, x);
    assert (s + t)[k] == x;
    assert (s + t)[..k] == s[..k];
  }

  /** Position of the last occurrence of `x` in `s`, or -1 when there is none. */
  function LastIndexOf<T(==)>(s: seq<T>, x: T): (r: int)
    ensures -1 <= r < |s|
    ensures r == -1 <==> x !in s
    ensures 0 <= r ==> s[r] == x && x !in s[r + 1..]
  {
    if |s| == 0 then -1
    else if s[|s| - 1] == x then |s| - 1
    else
      var init := s[..|s| - 1];
      assert x in s <==> x in init || s[|s| - 1] == x;
      var k := LastIndexOf(init, x);
      assert k >= 0 ==> s[k + 1..] == init[k + 1..] + [s[|s| - 1]];
      k
  }

  /** `seen` followed by every element of `xs` not seen before, in first-appearance
      order: the effect of one `indexOf`-then-`push` step per element of `xs`. */
  function AppendNew<T(==,!new)>(seen: seq<T>, xs: seq<T>): (r: seq<T>)
    ensures |seen| <= |r| <= |seen| + |xs|
    ensures r[..|seen|] == seen
    decreases |xs|
  {
    if xs == [] then seen
    else
      var next := if xs[0] in seen then seen else seen + [xs[0]];
      var r := AppendNew(next, xs[1..]);
      assert r[..|seen|] == next[..|seen|];
      r
  }

  /** The register holds exactly the names seen before and the names of `xs`. */
  lemma {:induction false} AppendNewMembers<T(!new)>(seen: seq<T>, xs: seq<T>)
    ensures forall y :: y in AppendNew(seen, xs) <==> y in seen || y in xs
    decreases |xs|
  {
    if xs != [] {
      var next := if xs[0] in seen then seen else seen + [xs[0]];
      AppendNewMembers(next, xs[1..]);
      assert forall y :: y in xs <==> y == xs[0] || y in xs[1..];
    }
  }

  /** A name registered before stays registered. */
  lemma AppendNewKeeps<T(!new)>(seen: seq<T>, xs: seq<T>, y: T)
    requires y in seen
    ensures y in AppendNew(seen, xs)
  {
    var r := AppendNew(seen, xs);
    var k :| 0 <= k < |seen| && seen[k] == y;
    assert r[..|seen|][k] == y;
  }

  /** The register never holds a name twice. */
  lemma {:induction false} AppendNewNoDuplicates<T(!new)>(seen: seq<T>, xs: seq<T>)
    requires NoDuplicates(seen)
    ensures NoDuplicates(AppendNew(seen, xs))
    decreases |xs|
  {
    if xs != [] {
      var next := if xs[0] in seen then seen else seen + [xs[0]];
      assert NoDuplicates(next) by {
        forall i, j | 0 <= i < j < |next| ensures next[i] != next[j] {
          if j == |seen| {
            assert next[i] == seen[i];
          }
        }
      }
      AppendNewNoDuplicates(next, xs[1..]);
    }
  }

  /** Appending names that are all known already changes nothing. */
  lemma {:induction false} AppendNewKnown<T(!new)>(seen: seq<T>, xs: seq<T>)
    requires forall y :: y in xs ==> y in seen
    ensures AppendNew(seen, xs) == seen
    decreases |xs|
  {
    if xs != [] {
      assert xs[0] in xs;
      forall y | y in xs[1..] ensures y in seen {
        assert y in xs;
      }
      AppendNewKnown(seen, xs[1..]);
    }
  }

  /** Registering the same names twice is the same as registering them once. */
  lemma AppendNewIdempotent<T(!new)>(seen: seq<T>, xs: seq<T>)
    ensures AppendNew(AppendNew(seen, xs), xs) == AppendNew(seen, xs)
  {
    AppendNewMembers(seen, xs);
    AppendNewKnown(AppendNew(seen, xs), xs);
  }

  /** Registering `xs` and then `ys` is registering `xs + ys`. */
  lemma {:induction false} AppendNewConcat<T(!new)>(seen: seq<T>, xs: seq<T>, ys: seq<T>)
    ensures AppendNew(AppendNew(seen, xs), ys) == AppendNew(seen, xs + ys)
    decreases |xs|
  {
    if xs != [] {
      var next := if xs[0] in seen then seen else seen + [xs[0]];
      assert (xs + ys)[0] == xs[0];
      assert (xs + ys)[1..] == xs[1..] + ys;
      AppendNewConcat(next, xs[1..], ys);
    } else {
      assert xs + ys == ys;
    }
  }

  /** A name that is already registered keeps its position, whatever other names
      are registered after it. */
  lemma SlotIsStable<T(!new)>(seen: seq<T>, xs: seq<T>, x: T)
    requires x in seen
    ensures IndexOf(AppendNew(seen, xs), x) == IndexOf(seen, x)
  {
    var r := AppendNew(seen, xs);
    assert r == seen + r[|seen|..];
    IndexOfPrefix(seen, r[|seen|..], x);
  }

  /** Number of occurrences of `x` in `s`. */
  function Count<T(==)>(s: seq<T>, x: T): (n: nat)
    ensures n <= |s|
    ensures n == 0 <==> x !in s
  {
    if s == [] then 0
    else
      assert x in s <==> s[|s| - 1] == x || x in s[..|s| - 1];
      Count(s[..|s| - 1], x) + (if s[|s| - 1] == x then 1 else 0)
  }

  /** Appending one element: the first occurrence of anything already present stays put. */
  lemma IndexOfSnoc<T>(s: seq<T>, t: T, x: T)
    ensures IndexOf(s + [t], x) == if x in s then IndexOf(s, x) else if x == t then |s| else -1
  {
    if x in s {
      IndexOfPrefix(s, [t], x);
    } else {
      assert forall i :: 0 <= i < |s| ==> (s + [t])[i] == s[i];
    }
  }

  /** Appending one element: its last occurrence moves to the end, the others stay. */
  lemma LastIndexOfSnoc<T>(s: seq<T>, t: T, x: T)
    ensures LastIndexOf(s + [t], x) == if x == t then |s| else LastIndexOf(s, x)
  {
    assert (s + [t])[..|s|] == s;
  }

  /** Appending one element adds one to its own count and nothing to the others'. */
  lemma CountSnoc<T>(s: seq<T>, t: T, x: T)
    ensures Count(s + [t], x) == Count(s, x) + (if x == t then 1 else 0)
  {
    assert (s + [t])[..|s|] == s;
  }

  /** The elements of `s` in the opposite order. */
  function Reverse<T>(s: seq<T>): (r: seq<T>)
    ensures |r| == |s|
    ensures forall i :: 0 <= i < |s| ==> r[i] == s[|s| - 1 - i]
  {
    if s == [] then [] else [s[|s| - 1]] + Reverse(s[..|s| - 1])
  }
}
