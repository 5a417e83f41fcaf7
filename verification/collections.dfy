/**
 * Order-preserving filtering of sequences. Three places of the system filter
 * a list in stored order: the backend's `get_credentials!` (an iterator
 * `filter`), its `delete_entry` (`Vec::retain`) and the dashboard's search
 * (`Array.prototype.filter`). All three are modelled by `Filter` below.
 */
module Collections {

  /** `r` can be obtained from `s` by dropping elements, without reordering. */
  predicate IsSubsequence<T(==)>(r: seq<T>, s: seq<T>)
    decreases |s|
  {
    if r == [] then true
    else if s == [] then false
    else (r[0] == s[0] && IsSubsequence(r[1..], s[1..])) || IsSubsequence(r, s[1..])
  }

  /** The elements of `s` for which `keep` holds, in the order of `s`. */
  function Filter<T>(s: seq<T>, keep: T -> bool): (r: seq<T>)
    ensures |r| <= |s|
    ensures forall i | 0 <= i < |r| :: r[i] in s && keep(r[i])
    ensures forall i | 0 <= i < |s| && keep(s[i]) :: s[i] in r
  {
    if s == [] then []
    else if keep(s[0]) then [s[0]] + Filter(s[1..], keep)
    else Filter(s[1..], keep)
  }

  lemma {:induction false} FilterIsSubsequence<T>(s: seq<T>, keep: T -> bool)
    ensures IsSubsequence(Filter(s, keep), s)
  {
    if s != [] {
      FilterIsSubsequence(s[1..], keep);
      var rest := Filter(s[1..], keep);
      if keep(s[0]) {
        assert Filter(s, keep) == [s[0]] + rest;
        assert ([s[0]] + rest)[1..] == rest;
      } else {
        assert Filter(s, keep) == rest;
      }
    }
  }

  /** Filtering keeps every kept element exactly as often as it occurs in `s`. */
  lemma {:induction false} FilterMultiplicity<T>(s: seq<T>, keep: T -> bool)
    ensures forall x :: multiset(Filter(s, keep))[x] == if keep(x) then multiset(s)[x] else 0
  {
    if s != [] {
      FilterMultiplicity(s[1..], keep);
      assert s == [s[0]] + s[1..];
      assert multiset(s) == multiset([s[0]]) + multiset(s[1..]);
      if keep(s[0]) {
        assert multiset(Filter(s, keep)) == multiset([s[0]]) + multiset(Filter(s[1..], keep));
      }
    }
  }

  lemma {:induction false} FilterAppend<T>(a: seq<T>, b: seq<T>, keep: T -> bool)
    ensures Filter(a + b, keep) == Filter(a, keep) + Filter(b, keep)
  {
    if a == [] {
      assert a + b == b;
    } else {
      assert (a + b)[0] == a[0];
      assert (a + b)[1..] == a[1..] + b;
      FilterAppend(a[1..], b, keep);
    }
  }

  /** A filter that drops nothing is the identity. */
  lemma {:induction false} FilterKeepsAll<T>(s: seq<T>, keep: T -> bool)
    requires forall i | 0 <= i < |s| :: keep(s[i])
    ensures Filter(s, keep) == s
  {
    if s != [] {
      FilterKeepsAll(s[1..], keep);
      assert [s[0]] + s[1..] == s;
    }
  }

  /** The result is strictly shorter exactly when some element is dropped. */
  lemma {:induction false} FilterShrinks<T>(s: seq<T>, keep: T -> bool)
    ensures |Filter(s, keep)| < |s| <==> exists i | 0 <= i < |s| :: !keep(s[i])
  {
    if s == [] {
    } else {
      FilterShrinks(s[1..], keep);
      if !keep(s[0]) {
      } else if |Filter(s, keep)| < |s| {
        var i :| 0 <= i < |s[1..]| && !keep(s[1..][i]);
        assert !keep(s[i + 1]);
      } else {
        forall i | 0 <= i < |s| ensures keep(s[i]) {
          if i > 0 {
            assert s[i] == s[1..][i - 1];
          }
        }
      }
    }
  }

  /** Two filters that agree on the elements of `s` give the same result. */
  lemma {:induction false} FilterCongruent<T>(s: seq<T>, f: T -> bool, g: T -> bool)
    requires forall i | 0 <= i < |s| :: f(s[i]) == g(s[i])
    ensures Filter(s, f) == Filter(s, g)
  {
    if s != [] {
      FilterCongruent(s[1..], f, g);
    }
  }

  /** Filtering by a weaker condition first does not change a stronger filter. */
  lemma {:induction false} FilterAbsorbs<T>(s: seq<T>, weak: T -> bool, strong: T -> bool)
    requires forall i | 0 <= i < |s| :: strong(s[i]) ==> weak(s[i])
    ensures Filter(Filter(s, weak), strong) == Filter(s, strong)
  {
    if s != [] {
      FilterAbsorbs(s[1..], weak, strong);
      if weak(s[0]) {
        assert Filter(s, weak) == [s[0]] + Filter(s[1..], weak);
        assert ([s[0]] + Filter(s[1..], weak))[1..] == Filter(s[1..], weak);
      }
    }
  }
}
