/** Sequence filtering and counting, the LINQ `Where`/`Any`/`Count`
    operations the application uses on lists. */
module Collections {

  /** `s.Where(p)`: the elements of `s` satisfying `p`, in order. */
  function Where<T(==)>(s: seq<T>, p: T -> bool): (r: seq<T>)
    ensures |r| <= |s|
    ensures forall i :: 0 <= i < |r| ==> p(r[i]) && r[i] in s
    ensures forall i :: 0 <= i < |s| && p(s[i]) ==> s[i] in r
  {
    if s == [] then [] else (if p(s[0]) then [s[0]] else []) + Where(s[1..], p)
  }

  /** Filtering distributes over concatenation, so `Where` keeps the
      relative order of the elements it keeps. */
  lemma {:induction false} WhereAppend<T>(a: seq<T>, b: seq<T>, p: T -> bool)
    ensures Where(a + b, p) == Where(a, p) + Where(b, p)
    decreases |a|
  {
    if a == [] {
      assert a + b == b;
    } else {
      assert (a + b)[1..] == a[1..] + b;
      WhereAppend(a[1..], b, p);
    }
  }

  /** `r` is `s` with some elements dropped: the remaining ones keep their
      order and none is repeated beyond its occurrences in `s`. */
  predicate Subsequence<T(==)>(r: seq<T>, s: seq<T>)
    decreases |s|
  {
    if r == [] then true
    else if s == [] then false
    else (r[0] == s[0] && Subsequence(r[1..], s[1..])) || Subsequence(r, s[1..])
  }

  /** Swapping two distinct elements is not a subsequence: order counts. */
  lemma SubsequenceRejectsSwap<T>(a: T, b: T)
    requires a != b
    ensures !Subsequence([b, a], [a, b])
  {
    assert [a, b][1..] == [b];
    assert [b, a][1..] == [a];
    assert !Subsequence([a], []);
    assert !Subsequence([b, a], []);
    assert [b][1..] == [];
  }

  /** What `Where` keeps is a subsequence of its input. */
  lemma {:induction false} WhereSubsequence<T>(s: seq<T>, p: T -> bool)
    ensures Subsequence(Where(s, p), s)
    decreases |s|
  {
    if s != [] {
      var t := Where(s[1..], p);
      WhereSubsequence(s[1..], p);
      if p(s[0]) {
        var r := Where(s, p);
        assert r == [s[0]] + t;
        assert r[0] == s[0] && r[1..] == t;
      } else {
        assert Where(s, p) == t;
      }
    }
  }

  /** Filtering keeps everything exactly when every element satisfies the
      predicate. */
  lemma {:induction false} WhereAllIff<T>(s: seq<T>, p: T -> bool)
    ensures Where(s, p) == s <==> forall i :: 0 <= i < |s| ==> p(s[i])
    decreases |s|
  {
    if s != [] && forall i :: 0 <= i < |s| ==> p(s[i]) {
      var t := s[1..];
      assert forall i :: 0 <= i < |t| ==> p(t[i]) by {
        forall i | 0 <= i < |t| ensures p(t[i]) {
          assert t[i] == s[i + 1];
        }
      }
      WhereAllIff(t, p);
      assert Where(s, p) == [s[0]] + Where(t, p);
      assert s == [s[0]] + t;
    }
  }

  /** Filtering keeps nothing exactly when no element satisfies the
      predicate. */
  lemma {:induction false} WhereNoneIff<T>(s: seq<T>, p: T -> bool)
    ensures Where(s, p) == [] <==> forall i :: 0 <= i < |s| ==> !p(s[i])
    decreases |s|
  {
    if s != [] {
      WhereNoneIff(s[1..], p);
      assert forall i :: 1 <= i < |s| ==> s[i] == s[1..][i - 1];
    }
  }

  /** `s.Count(p)`. */
  function Count<T>(s: seq<T>, p: T -> bool): (n: nat)
    ensures n <= |s|
  {
    if s == [] then 0 else (if p(s[0]) then 1 else 0) + Count(s[1..], p)
  }

  /** The number of kept elements is the count of those satisfying `p`. */
  lemma {:induction false} WhereLength<T>(s: seq<T>, p: T -> bool)
    ensures |Where(s, p)| == Count(s, p)
    decreases |s|
  {
    if s != [] {
      WhereLength(s[1..], p);
    }
  }

  /** Counting a prefix one element longer adds that element's vote. */
  lemma {:induction false} CountSnoc<T>(s: seq<T>, x: T, p: T -> bool)
    ensures Count(s + [x], p) == Count(s, p) + (if p(x) then 1 else 0)
    decreases |s|
  {
    if s == [] {
      assert [x][1..] == [];
    } else {
      assert (s + [x])[1..] == s[1..] + [x];
      CountSnoc(s[1..], x, p);
    }
  }

  /** Counts over prefixes never decrease as the prefix grows. */
  lemma {:induction false} CountPrefixMonotone<T>(s: seq<T>, i: nat, j: nat, p: T -> bool)
    requires i <= j <= |s|
    ensures Count(s[..i], p) <= Count(s[..j], p)
    decreases j - i
  {
    if i < j {
      CountPrefixMonotone(s, i, j - 1, p);
      assert s[..j] == s[..j - 1] + [s[j - 1]];
      CountSnoc(s[..j - 1], s[j - 1], p);
    }
  }
}
