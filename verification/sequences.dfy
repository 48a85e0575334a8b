/** The JavaScript array operations the graph code relies on (indexOf, filter,
    splice), stated over immutable sequences, and the order and duplicate facts
    about them that the view-state proofs use. */
module Sequences {

  /** Array.prototype.indexOf under strict equality: the first index at which
      x occurs in s, or -1 when it does not occur. */
  function IndexOf<T(==)>(s: seq<T>, x: T): (i: int)
    ensures -1 <= i < |s|
    ensures i == -1 <==> x !in s
    ensures 0 <= i ==> s[i] == x && forall j :: 0 <= j < i ==> s[j] != x
  {
    if |s| == 0 then -1
    else if s[0] == x then 0
    else
      var j := IndexOf(s[1..], x);
      if j == -1 then -1 else j + 1
  }

  /** Array.prototype.filter with a predicate that looks only at the element. */
  function Filter<T>(s: seq<T>, keep: T -> bool): (r: seq<T>)
    ensures |r| <= |s|
    ensures forall x :: x in r ==> x in s && keep(x)
    ensures forall x :: x in s && keep(x) ==> x in r
  {
    if |s| == 0 then []
    else (if keep(s[0]) then [s[0]] else []) + Filter(s[1..], keep)
  }

  /** Array.prototype.map with a function that looks only at the element. */
  function Map<T, U>(s: seq<T>, f: T -> U): (r: seq<U>)
    ensures |r| == |s|
    ensures forall i :: 0 <= i < |s| ==> r[i] == f(s[i])
  {
    seq(|s|, i requires 0 <= i < |s| => f(s[i]))
  }

  /** A value is in the image exactly when some element maps to it. */
  lemma MapMembership<T, U>(s: seq<T>, f: T -> U, y: U)
    ensures y in Map(s, f) <==> exists x :: x in s && f(x) == y
  {
    if y in Map(s, f) {
      var i :| 0 <= i < |s| && Map(s, f)[i] == y;
      assert s[i] in s;
    }
    if exists x :: x in s && f(x) == y {
      var x :| x in s && f(x) == y;
      var i :| 0 <= i < |s| && s[i] == x;
      assert Map(s, f)[i] == y;
    }
  }

  lemma MapMembers<T, U>(s: seq<T>, f: T -> U)
    ensures forall x :: x in s ==> f(x) in Map(s, f)
  {
    forall x | x in s
      ensures f(x) in Map(s, f)
    {
      MapMembership(s, f, f(x));
    }
  }

  /** The filter predicate `x => m.indexOf(x) !== -1`. */
  function Present<T(==)>(m: seq<T>): T -> bool
  {
    x => IndexOf(m, x) != -1
  }

  /** The filter predicate `x => m.indexOf(x) === -1`. */
  function Absent<T(==)>(m: seq<T>): T -> bool
  {
    x => IndexOf(m, x) == -1
  }

  /** `a.splice(start, 1)` as it acts on `a`: the element at `start` is removed;
      a negative start counts back from the end, so -1 removes the last element;
      a start past the end removes nothing. */
  function SpliceOne<T>(s: seq<T>, start: int): (r: seq<T>)
    ensures 0 <= start < |s| ==> r == s[..start] + s[start + 1..]
    ensures start == -1 && |s| > 0 ==> r == s[..|s| - 1]
  {
    var k := if start < 0 then (if |s| + start < 0 then 0 else |s| + start) else start;
    if k < |s| then s[..k] + s[k + 1..] else s
  }

  /** `removed.forEach(x => s.splice(s.indexOf(x), 1))`: every element of
      `removed`, in order, spliced out of `s` where `indexOf` finds it. */
  function SpliceOutEach<T(==)>(s: seq<T>, removed: seq<T>): seq<T>
    decreases |removed|
  {
    if |removed| == 0 then s
    else SpliceOutEach(SpliceOne(s, IndexOf(s, removed[0])), removed[1..])
  }

  ghost predicate NoDuplicates<T>(s: seq<T>)
  {
    forall i, j :: 0 <= i < j < |s| ==> s[i] != s[j]
  }

  /** `a` is `b` with some elements left out, the rest in their original order. */
  ghost predicate IsSubsequence<T>(a: seq<T>, b: seq<T>)
    decreases |b|
  {
    || |a| == 0
    || (&& |b| > 0
        && ((a[0] == b[0] && IsSubsequence(a[1..], b[1..])) || IsSubsequence(a, b[1..])))
  }

  lemma {:induction false} FilterIsSubsequence<T>(s: seq<T>, keep: T -> bool)
    ensures IsSubsequence(Filter(s, keep), s)
    decreases |s|
  {
    if |s| > 0 {
      var rest := Filter(s[1..], keep);
      FilterIsSubsequence(s[1..], keep);
      if keep(s[0]) {
        var r := Filter(s, keep);
        assert r == [s[0]] + rest;
        assert r[0] == s[0] && r[1..] == rest;
      } else {
        assert Filter(s, keep) == rest;
      }
    }
  }

  lemma {:induction false} SubsequenceMembers<T>(a: seq<T>, b: seq<T>)
    requires IsSubsequence(a, b)
    ensures forall x :: x in a ==> x in b
    decreases |b|
  {
    if |a| > 0 {
      if a[0] == b[0] && IsSubsequence(a[1..], b[1..]) {
        SubsequenceMembers(a[1..], b[1..]);
        forall x | x in a
          ensures x in b
        {
          if x != a[0] {
            assert x in a[1..];
            assert x in b[1..];
          }
        }
      } else {
        SubsequenceMembers(a, b[1..]);
      }
    }
  }

  lemma {:induction false} SubsequenceNoDuplicates<T>(a: seq<T>, b: seq<T>)
    requires IsSubsequence(a, b)
    requires NoDuplicates(b)
    ensures NoDuplicates(a)
    decreases |b|
  {
    if |a| > 0 {
      assert NoDuplicates(b[1..]) by {
        forall i, j | 0 <= i < j < |b[1..]|
          ensures b[1..][i] != b[1..][j]
        {
          assert b[1..][i] == b[i + 1] && b[1..][j] == b[j + 1];
        }
      }
      if a[0] == b[0] && IsSubsequence(a[1..], b[1..]) {
        SubsequenceNoDuplicates(a[1..], b[1..]);
        SubsequenceMembers(a[1..], b[1..]);
        assert b[0] !in b[1..] by {
          forall j | 0 <= j < |b[1..]|
            ensures b[1..][j] != b[0]
          {
            assert b[1..][j] == b[j + 1];
          }
        }
        forall i, j | 0 <= i < j < |a|
          ensures a[i] != a[j]
        {
          assert a[j] == a[1..][j - 1];
          if i > 0 {
            assert a[i] == a[1..][i - 1];
          } else {
            assert a[j] in a[1..];
          }
        }
      } else {
        SubsequenceNoDuplicates(a, b[1..]);
      }
    }
  }

  lemma {:induction false} SubsequenceTransitive<T>(a: seq<T>, b: seq<T>, c: seq<T>)
    requires IsSubsequence(a, b) && IsSubsequence(b, c)
    ensures IsSubsequence(a, c)
    decreases |c|
  {
    if |a| > 0 {
      if IsSubsequence(b, c[1..]) {
        SubsequenceTransitive(a, b, c[1..]);
      } else {
        assert b[0] == c[0] && IsSubsequence(b[1..], c[1..]);
        if a[0] == b[0] && IsSubsequence(a[1..], b[1..]) {
          SubsequenceTransitive(a[1..], b[1..], c[1..]);
        } else {
          SubsequenceTransitive(a, b[1..], c[1..]);
        }
      }
    }
  }

  /** Filtering a sequence without duplicates gives one without duplicates. */
  lemma FilterNoDuplicates<T>(s: seq<T>, keep: T -> bool)
    requires NoDuplicates(s)
    ensures NoDuplicates(Filter(s, keep))
  {
    FilterIsSubsequence(s, keep);
    SubsequenceNoDuplicates(Filter(s, keep), s);
  }

  lemma ConcatNoDuplicates<T>(a: seq<T>, b: seq<T>)
    requires NoDuplicates(a) && NoDuplicates(b)
    requires forall x :: x in a ==> x !in b
    ensures NoDuplicates(a + b)
  {
    forall i, j | 0 <= i < j < |a + b|
      ensures (a + b)[i] != (a + b)[j]
    {
      if j >= |a| && i < |a| {
        assert (a + b)[i] == a[i] && (a + b)[j] == b[j - |a|];
        assert a[i] in a;
      }
    }
  }

  lemma {:induction false} FilterConcat<T>(a: seq<T>, b: seq<T>, keep: T -> bool)
    ensures Filter(a + b, keep) == Filter(a, keep) + Filter(b, keep)
    decreases |a|
  {
    if |a| == 0 {
      assert a + b == b;
      assert Filter(a, keep) == [];
    } else {
      assert (a + b)[0] == a[0];
      assert (a + b)[1..] == a[1..] + b;
      FilterConcat(a[1..], b, keep);
      if keep(a[0]) {
        assert ([a[0]] + Filter(a[1..], keep)) + Filter(b, keep)
            == [a[0]] + (Filter(a[1..], keep) + Filter(b, keep));
      }
    }
  }

  /** Filter keeps every copy of a kept element and no copy of a dropped one:
      it counts x as often as s does when keep(x) holds, and not at all otherwise. */
  lemma {:induction false} FilterCount<T>(s: seq<T>, keep: T -> bool, x: T)
    ensures multiset(Filter(s, keep))[x] == if keep(x) then multiset(s)[x] else 0
    decreases |s|
  {
    if |s| > 0 {
      FilterCount(s[1..], keep, x);
      assert s == [s[0]] + s[1..];
      assert multiset(s) == multiset{s[0]} + multiset(s[1..]);
      var head := if keep(s[0]) then [s[0]] else [];
      assert Filter(s, keep) == head + Filter(s[1..], keep);
      assert multiset(Filter(s, keep)) == multiset(head) + multiset(Filter(s[1..], keep));
    }
  }

  /** Filters whose predicates agree on every element of s agree. */
  lemma {:induction false} FilterCongruent<T>(s: seq<T>, p: T -> bool, q: T -> bool)
    requires forall x :: x in s ==> (p(x) <==> q(x))
    ensures Filter(s, p) == Filter(s, q)
    decreases |s|
  {
    if |s| > 0 {
      assert s[0] in s;
      assert forall x :: x in s[1..] ==> x in s;
      FilterCongruent(s[1..], p, q);
    }
  }

  lemma {:induction false} FilterKeepsAll<T>(s: seq<T>, keep: T -> bool)
    requires forall x :: x in s ==> keep(x)
    ensures Filter(s, keep) == s
    decreases |s|
  {
    if |s| > 0 {
      assert s[0] in s;
      assert forall x :: x in s[1..] ==> x in s;
      FilterKeepsAll(s[1..], keep);
      assert [s[0]] + s[1..] == s;
    }
  }

  lemma FilterKeepsNone<T>(s: seq<T>, keep: T -> bool)
    requires forall x :: x in s ==> !keep(x)
    ensures Filter(s, keep) == []
  {
  }

  /** Two complementary filters split s between them: together they hold
      every element of s exactly as often as s does. */
  lemma {:induction false} FilterPartition<T>(s: seq<T>, p: T -> bool, q: T -> bool)
    requires forall x :: x in s ==> (p(x) <==> !q(x))
    ensures multiset(Filter(s, p)) + multiset(Filter(s, q)) == multiset(s)
    decreases |s|
  {
    if |s| > 0 {
      var head, rest := s[0], s[1..];
      assert forall x :: x in rest ==> x in s;
      FilterPartition(rest, p, q);
      assert p(head) <==> !q(head) by {
        assert head in s;
      }
      assert s == [head] + rest;
      PartitionStep(head, rest, Filter(rest, p), Filter(rest, q), Filter(s, p), Filter(s, q));
    } else {
      assert Filter(s, p) == [] && Filter(s, q) == [];
    }
  }

  /** One element added to one side of a partition of rest partitions
      [head] + rest. Proved apart from Filter, whose unfoldings make the
      multiset reasoning much more expensive. */
  lemma PartitionStep<T>(head: T, rest: seq<T>, a: seq<T>, b: seq<T>, a': seq<T>, b': seq<T>)
    requires multiset(a) + multiset(b) == multiset(rest)
    requires (a' == [head] + a && b' == b) || (a' == a && b' == [head] + b)
    ensures multiset(a') + multiset(b') == multiset([head] + rest)
  {
  }

  /** The first element of t, absent from the prefix k, is found by indexOf
      just after k, and splicing it out leaves k followed by the rest of t. */
  lemma SpliceOutHead<T>(k: seq<T>, t: seq<T>)
    requires |t| > 0 && t[0] !in k
    ensures IndexOf(k + t, t[0]) == |k|
    ensures SpliceOne(k + t, |k|) == k + t[1..]
  {
    assert (k + t)[|k|] == t[0];
    assert (k + t)[..|k|] == k;
    assert (k + t)[|k| + 1..] == t[1..];
  }

  /** Splicing out, at its first occurrence, each element of t that is absent
      from m, behind a prefix k all of whose elements are present in m, leaves
      k followed by t's present elements in their original order. In
      particular `indexOf` always finds the element, so the splice never
      falls back to removing the last element. */
  lemma {:induction false} SpliceOutAbsent<T>(k: seq<T>, t: seq<T>, m: seq<T>)
    requires forall x :: x in k ==> x in m
    ensures SpliceOutEach(k + t, Filter(t, Absent(m))) == k + Filter(t, Present(m))
    decreases |t|
  {
    if |t| == 0 {
      assert k + t == k;
    } else {
      if t[0] in m {
        SpliceOutKeep(k, t, m);
      } else {
        SpliceOutDrop(k, t, m);
      }
    }
  }

  /** Filtering a sequence whose first element m contains: the element is
      dropped by the absence filter and kept by the presence filter. */
  lemma FilterStepPresent<T>(t: seq<T>, m: seq<T>)
    requires |t| > 0 && t[0] in m
    ensures Filter(t, Absent(m)) == Filter(t[1..], Absent(m))
    ensures Filter(t, Present(m)) == [t[0]] + Filter(t[1..], Present(m))
  {
  }

  /** The keep step: a first element that m contains moves into the prefix. */
  lemma SpliceOutKeepStep<T>(k: seq<T>, t: seq<T>, m: seq<T>)
    requires |t| > 0 && t[0] in m
    requires SpliceOutEach((k + [t[0]]) + t[1..], Filter(t[1..], Absent(m)))
             == (k + [t[0]]) + Filter(t[1..], Present(m))
    ensures SpliceOutEach(k + t, Filter(t, Absent(m))) == k + Filter(t, Present(m))
  {
    FilterStepPresent(t, m);
    ShiftHead(k, t);
    ConcatAssociative(k, [t[0]], Filter(t[1..], Present(m)));
  }

  /** Sequence identities proved apart from the splice terms, whose presence
      makes the solver's sequence reasoning much more expensive. */
  lemma ShiftHead<T>(k: seq<T>, t: seq<T>)
    requires |t| > 0
    ensures k + t == (k + [t[0]]) + t[1..]
  {
  }

  lemma ConcatAssociative<T>(a: seq<T>, b: seq<T>, c: seq<T>)
    ensures (a + b) + c == a + (b + c)
  {
  }

  lemma {:induction false} SpliceOutKeep<T>(k: seq<T>, t: seq<T>, m: seq<T>)
    requires forall x :: x in k ==> x in m
    requires |t| > 0 && t[0] in m
    ensures SpliceOutEach(k + t, Filter(t, Absent(m))) == k + Filter(t, Present(m))
    decreases |t|, 0
  {
    assert forall x :: x in k + [t[0]] ==> x in m;
    SpliceOutAbsent(k + [t[0]], t[1..], m);
    SpliceOutKeepStep(k, t, m);
  }

  lemma {:induction false} SpliceOutDrop<T>(k: seq<T>, t: seq<T>, m: seq<T>)
    requires forall x :: x in k ==> x in m
    requires |t| > 0 && t[0] !in m
    ensures SpliceOutEach(k + t, Filter(t, Absent(m))) == k + Filter(t, Present(m))
    decreases |t|, 0
  {
    var y, rest := t[0], t[1..];
    var removed := Filter(t, Absent(m));
    assert removed == [y] + Filter(rest, Absent(m));
    assert removed[0] == y && removed[1..] == Filter(rest, Absent(m));
    assert Filter(t, Present(m)) == Filter(rest, Present(m));
    SpliceOutHead(k, t);
    assert SpliceOutEach(k + t, removed) == SpliceOutEach(k + rest, removed[1..]);
    SpliceOutAbsent(k, rest, m);
  }

  /** `absent.forEach(x => s.splice(s.indexOf(x), 1))` with `absent` the
      elements of s missing from m keeps exactly s's elements present in m. */
  lemma SpliceOutSurvivors<T>(s: seq<T>, m: seq<T>)
    ensures SpliceOutEach(s, Filter(s, Absent(m))) == Filter(s, Present(m))
  {
    SpliceOutAbsent([], s, m);
    assert [] + s == s;
    assert [] + Filter(s, Present(m)) == Filter(s, Present(m));
  }
}
