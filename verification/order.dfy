/**
 * Go's string order and `sort.Strings`, which GetHours applies to the keys
 * of the timezone table. Go compares strings byte by byte in UTF-8; for
 * Unicode scalar values that is the same as comparing code points, which is
 * what comparing Dafny `char`s does.
 */
module Order {

  /** Go's `a <= b` on strings: lexicographic, a proper prefix sorts first. */
  predicate LexLessEq(a: string, b: string)
  {
    if a == [] then true
    else if b == [] then false
    else if a[0] != b[0] then a[0] < b[0]
    else LexLessEq(a[1..], b[1..])
  }

  /** Go's `a < b` on strings. */
  predicate LexLess(a: string, b: string)
  {
    LexLessEq(a, b) && a != b
  }

  lemma {:induction false} LexReflexive(a: string)
    ensures LexLessEq(a, a)
  {
    if a != [] {
      LexReflexive(a[1..]);
    }
  }

  lemma {:induction false} LexTotal(a: string, b: string)
    ensures LexLessEq(a, b) || LexLessEq(b, a)
  {
    if a != [] && b != [] && a[0] == b[0] {
      LexTotal(a[1..], b[1..]);
    }
  }

  lemma {:induction false} LexAntisymmetric(a: string, b: string)
    requires LexLessEq(a, b) && LexLessEq(b, a)
    ensures a == b
  {
    if a != [] && b != [] {
      LexAntisymmetric(a[1..], b[1..]);
      assert a == [a[0]] + a[1..] && b == [b[0]] + b[1..];
    }
  }

  lemma {:induction false} LexTransitive(a: string, b: string, c: string)
    requires LexLessEq(a, b) && LexLessEq(b, c)
    ensures LexLessEq(a, c)
  {
    if a != [] && b != [] && c != [] && a[0] == b[0] == c[0] {
      LexTransitive(a[1..], b[1..], c[1..]);
    }
  }

  /** No element occurs twice. */
  predicate Distinct(s: seq<string>)
  {
    forall p, q :: 0 <= p < q < |s| ==> s[p] != s[q]
  }

  /** Every element is strictly smaller than every later one. */
  ghost predicate StrictlyAscending(s: seq<string>)
  {
    forall p, q :: 0 <= p < q < |s| ==> LexLess(s[p], s[q])
  }

  /** Each element is at most its successor: what `sort.Strings` promises. */
  ghost predicate Sorted(s: seq<string>)
  {
    forall k :: 0 < k < |s| ==> LexLessEq(s[k - 1], s[k])
  }

  /** Two strictly ascending sequences with the same elements are equal. */
  lemma {:induction false} AscendingUnique(s: seq<string>, t: seq<string>)
    requires StrictlyAscending(s) && StrictlyAscending(t)
    requires forall x :: x in s <==> x in t
    ensures s == t
    decreases |s|
  {
    assert s != [] ==> s[0] in s;
    assert t != [] ==> t[0] in t;
    if s != [] {
      if s[0] != t[0] {
        assert t[0] in t && t[0] in s;
        var p :| 0 <= p < |s| && s[p] == t[0];
        var q :| 0 <= q < |t| && t[q] == s[0];
        assert p > 0 && q > 0;
        assert LexLess(s[0], t[0]) && LexLess(t[0], s[0]);
        LexAntisymmetric(s[0], t[0]);
      }
      forall x
        ensures x in s[1..] <==> x in t[1..]
      {
        if x in s[1..] {
          var p :| 1 <= p < |s| && s[p] == x;
          assert x != s[0];
          assert x in t;
          var q :| 0 <= q < |t| && t[q] == x;
          assert q != 0;
          assert t[q] == t[1..][q - 1];
        }
        if x in t[1..] {
          var q :| 1 <= q < |t| && t[q] == x;
          assert x != t[0];
          assert x in s;
          var p :| 0 <= p < |s| && s[p] == x;
          assert p != 0;
          assert s[p] == s[1..][p - 1];
        }
      }
      AscendingUnique(s[1..], t[1..]);
      assert s == [s[0]] + s[1..] && t == [t[0]] + t[1..];
    }
  }

  /** A least element of a non-empty finite set of strings. */
  lemma {:induction false} LeastExists(keys: set<string>)
    requires keys != {}
    ensures exists m :: m in keys && forall k :: k in keys ==> LexLessEq(m, k)
    decreases |keys|
  {
    var x :| x in keys;
    LexReflexive(x);
    var rest := keys - {x};
    if rest == {} {
      assert keys == {x};
    } else {
      LeastExists(rest);
      var m :| m in rest && forall k :: k in rest ==> LexLessEq(m, k);
      LexTotal(m, x);
      if !LexLessEq(m, x) {
        forall k | k in keys
          ensures LexLessEq(x, k)
        {
          if k != x {
            assert k in rest;
            LexTransitive(x, m, k);
          }
        }
      } else {
        assert forall k :: k in keys ==> k in rest || k == x;
      }
    }
  }

  ghost function Least(keys: set<string>): (m: string)
    requires keys != {}
    ensures m in keys && forall k :: k in keys ==> LexLessEq(m, k)
  {
    LeastExists(keys);
    var m :| m in keys && forall k :: k in keys ==> LexLessEq(m, k); m
  }

  /** The elements of `keys` in ascending order: what sorting the keys yields. */
  ghost function SortedKeys(keys: set<string>): (r: seq<string>)
    ensures StrictlyAscending(r)
    ensures forall k :: k in r <==> k in keys
    decreases keys
  {
    if keys == {} then []
    else
      var m := Least(keys);
      var rest := SortedKeys(keys - {m});
      assert forall q :: 0 <= q < |rest| ==> LexLess(m, rest[q]) by {
        forall q | 0 <= q < |rest|
          ensures LexLess(m, rest[q])
        {
          assert rest[q] in keys - {m};
        }
      }
      [m] + rest
  }

  /** A sorted (non-strictly) sequence is ordered pairwise, not only neighbour to neighbour. */
  lemma {:induction false} SortedPairwise(s: seq<string>, p: nat, q: nat)
    requires Sorted(s) && p <= q < |s|
    ensures LexLessEq(s[p], s[q])
    decreases q - p
  {
    if p == q {
      LexReflexive(s[p]);
    } else {
      SortedPairwise(s, p, q - 1);
      LexTransitive(s[p], s[q - 1], s[q]);
    }
  }

  /** Two equal elements at different positions are counted twice by the multiset. */
  lemma RepeatCounted(s: seq<string>, p: nat, q: nat)
    requires p < q < |s| && s[p] == s[q]
    ensures multiset(s)[s[p]] >= 2
  {
    assert s == s[..p] + [s[p]] + s[p + 1..q] + [s[q]] + s[q + 1..];
  }

  /** In a sequence without repeats each element is counted once. */
  lemma {:induction false} DistinctCountedOnce(s: seq<string>, x: string)
    requires Distinct(s)
    ensures multiset(s)[x] <= 1
  {
    if s != [] {
      var init := s[..|s| - 1];
      assert s == init + [s[|s| - 1]];
      assert Distinct(init);
      DistinctCountedOnce(init, x);
      if x == s[|s| - 1] {
        assert x !in init;
      }
    }
  }

  /**
   * Sorting a sequence of distinct keys yields the keys in strictly
   * ascending order, and there is only one such order: the result does not
   * depend on the order in which the keys were gathered.
   */
  lemma SortedPermutationIsSortedKeys(s: seq<string>, gathered: seq<string>, keys: set<string>)
    requires Sorted(s) && multiset(s) == multiset(gathered)
    requires Distinct(gathered) && forall k :: k in gathered <==> k in keys
    ensures s == SortedKeys(keys)
  {
    forall p, q | 0 <= p < q < |s|
      ensures LexLess(s[p], s[q])
    {
      SortedPairwise(s, p, q);
      if s[p] == s[q] {
        RepeatCounted(s, p, q);
        DistinctCountedOnce(gathered, s[p]);
      }
    }
    forall k
      ensures k in s <==> k in keys
    {
      assert k in s <==> k in multiset(s);
      assert k in gathered <==> k in multiset(gathered);
    }
    AscendingUnique(s, SortedKeys(keys));
  }

  /**
   * `sort.Strings(a)`: sorts `a` in place into ascending order; the result
   * is a permutation of the input. Insertion sort.
   */
  method SortStrings(a: array<string>)
    modifies a
    ensures Sorted(a[..])
    ensures multiset(a[..]) == multiset(old(a[..]))
  {
    var i := 0;
    while i < a.Length
      invariant 0 <= i <= a.Length
      invariant Sorted(a[..i])
      invariant multiset(a[..]) == multiset(old(a[..]))
    {
      InsertLast(a, i);
      i := i + 1;
    }
    assert a[..i] == a[..];
  }

  /** Moves `a[i]` left, by adjacent swaps, into place among the sorted `a[..i]`. */
  method InsertLast(a: array<string>, i: nat)
    requires i < a.Length && Sorted(a[..i])
    modifies a
    ensures Sorted(a[..i + 1])
    ensures a[i + 1..] == old(a[i + 1..])
    ensures multiset(a[..]) == multiset(old(a[..]))
  {
    var j := i;
    while j > 0 && !LexLessEq(a[j - 1], a[j])
      invariant 0 <= j <= i
      invariant forall k :: 0 < k <= i && k != j ==> LexLessEq(a[k - 1], a[k])
      invariant 0 < j < i ==> LexLessEq(a[j - 1], a[j + 1])
      invariant a[i + 1..] == old(a[i + 1..])
      invariant multiset(a[..]) == multiset(old(a[..]))
    {
      LexTotal(a[j - 1], a[j]);
      Swap(a, j - 1, j);
      j := j - 1;
    }
  }

  /** Exchanges two elements of `a`. */
  method Swap(a: array<string>, i: nat, j: nat)
    requires i < j < a.Length
    modifies a
    ensures a[..] == old(a[..])[i := old(a[j])][j := old(a[i])]
    ensures multiset(a[..]) == multiset(old(a[..]))
  {
    a[i], a[j] := a[j], a[i];
  }
}
