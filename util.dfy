/** Small facts about sequences and multisets used throughout the model. */
module Util {

  datatype Option<T> = None | Some(value: T)

  /** No element occurs twice in `s`. */
  ghost predicate Distinct<T>(s: seq<T>)
  {
    forall i, j :: 0 <= i < j < |s| ==> s[i] != s[j]
  }

  /** In a sequence without repetitions every element occurs once. */
  lemma {:induction false} DistinctCount<T>(s: seq<T>, x: T)
    requires Distinct(s)
    ensures multiset(s)[x] == if x in s then 1 else 0
  {
    if s != [] {
      assert s == [s[0]] + s[1..];
      assert Distinct(s[1..]) by {
        forall i, j | 0 <= i < j < |s[1..]| ensures s[1..][i] != s[1..][j] {
          assert s[1..][i] == s[i + 1] && s[1..][j] == s[j + 1];
        }
      }
      DistinctCount(s[1..], x);
      if x == s[0] {
        assert x !in s[1..] by {
          forall k | 0 <= k < |s[1..]| ensures s[1..][k] != x {
            assert s[1..][k] == s[k + 1];
          }
        }
      }
    }
  }

  /** Two repetition-free sequences with the same elements are permutations of each other. */
  lemma DistinctSameElements<T>(a: seq<T>, b: seq<T>)
    requires Distinct(a) && Distinct(b)
    requires forall x :: x in a <==> x in b
    ensures multiset(a) == multiset(b)
  {
    forall x ensures multiset(a)[x] == multiset(b)[x] {
      DistinctCount(a, x);
      DistinctCount(b, x);
    }
  }

  /** The values `m` gives the elements of `s` it maps, in order. */
  function Image<T, U>(m: map<T, U>, s: seq<T>): (r: seq<U>)
    ensures |r| <= |s|
  {
    if s == [] then [] else (if s[0] in m then [m[s[0]]] else []) + Image(m, s[1..])
  }

  /** When `m` maps every element of `s`, its image lists their values position by position. */
  lemma {:induction false} ImageAt<T, U>(m: map<T, U>, s: seq<T>)
    requires forall i :: 0 <= i < |s| ==> s[i] in m
    ensures |Image(m, s)| == |s|
    ensures forall i :: 0 <= i < |s| ==> Image(m, s)[i] == m[s[i]]
  {
    if s != [] {
      assert forall i :: 0 <= i < |s[1..]| ==> s[1..][i] in m by {
        forall i | 0 <= i < |s[1..]| ensures s[1..][i] in m {
          assert s[1..][i] == s[i + 1];
        }
      }
      ImageAt(m, s[1..]);
      forall i | 0 <= i < |s| ensures Image(m, s)[i] == m[s[i]] {
        if i > 0 {
          assert Image(m, s)[i] == Image(m, s[1..])[i - 1];
          assert s[1..][i - 1] == s[i];
        }
      }
    }
  }

  lemma {:induction false} ImageConcat<T, U>(m: map<T, U>, a: seq<T>, b: seq<T>)
    ensures Image(m, a + b) == Image(m, a) + Image(m, b)
  {
    if a == [] {
      assert a + b == b;
    } else {
      assert (a + b)[0] == a[0] && (a + b)[1..] == a[1..] + b;
      ImageConcat(m, a[1..], b);
    }
  }

  /** Removing position `k` from a sequence removes one copy of `b[k]` from its multiset. */
  lemma MultisetRemove<T>(b: seq<T>, k: nat)
    requires k < |b|
    ensures multiset(b[..k] + b[k + 1..]) == multiset(b) - multiset{b[k]}
  {
    assert b == b[..k] + [b[k]] + b[k + 1..];
  }

  /** Appending `x` adds one occurrence of `x` and none of anything else. */
  lemma SnocCount<T>(s: seq<T>, x: T, y: T)
    ensures multiset(s + [x])[y] == multiset(s)[y] + (if x == y then 1 else 0)
  {
    assert multiset(s + [x]) == multiset(s) + multiset{x};
  }

  /** The images of two permutations of each other are permutations of each other. */
  lemma {:induction false} ImagePermutation<T, U>(m: map<T, U>, a: seq<T>, b: seq<T>)
    requires multiset(a) == multiset(b)
    ensures multiset(Image(m, a)) == multiset(Image(m, b))
    decreases |a|
  {
    if a == [] {
      assert |b| == |multiset(b)| == 0;
      assert b == [];
    } else {
      assert a[0] in multiset(b) by { assert a[0] in multiset(a); }
      var k :| 0 <= k < |b| && b[k] == a[0];
      SplitAt(b, k);
      SplitAt(a, 0);
      assert a[..0] + a[1..] == a[1..];
      ImagePermutation(m, a[1..], b[..k] + b[k + 1..]);
      ImageRemoved(m, b, k);
      ImageRemoved(m, a, 0);
    }
  }

  /** The image of `b` counts the image of `b[k]` once more than that of the rest. */
  lemma ImageRemoved<T, U>(m: map<T, U>, b: seq<T>, k: nat)
    requires k < |b|
    ensures multiset(Image(m, b)) == multiset(Image(m, [b[k]])) + multiset(Image(m, b[..k] + b[k + 1..]))
  {
    var left, right := b[..k], b[k + 1..];
    SplitAt(b, k);
    ImageConcat(m, left, right);
    ImageConcat(m, [b[k]], right);
    ImageConcat(m, left, [b[k]] + right);
    var ix, il, ir := Image(m, [b[k]]), Image(m, left), Image(m, right);
    assert Image(m, b) == il + (ix + ir);
    assert multiset(il + (ix + ir)) == multiset(ix) + (multiset(il) + multiset(ir));
  }

  /** Splitting a sequence around position `k`. */
  lemma SplitAt<T>(b: seq<T>, k: nat)
    requires k < |b|
    ensures b == b[..k] + ([b[k]] + b[k + 1..])
    ensures multiset(b[..k] + b[k + 1..]) == multiset(b) - multiset{b[k]}
  {
    assert b == b[..k] + [b[k]] + b[k + 1..];
  }

  /** A sequence in which every element occurs at most once has no repetitions. */
  lemma AtMostOnceDistinct<T>(s: seq<T>)
    requires forall x :: multiset(s)[x] <= 1
    ensures Distinct(s)
  {
    forall i, j | 0 <= i < j < |s| ensures s[i] != s[j] {
      if s[i] == s[j] {
        RepeatedTwice(s, i, j);
      }
    }
  }

  lemma RepeatedTwice<T>(s: seq<T>, i: nat, j: nat)
    requires i < j < |s| && s[i] == s[j]
    ensures multiset(s)[s[i]] >= 2
  {
    assert s == s[..j] + [s[j]] + s[j + 1..];
    assert s[..j][i] == s[i];
  }

  /** A sequence without repetitions has as many distinct elements as positions. */
  lemma {:induction false} DistinctCardinality<T>(s: seq<T>)
    requires Distinct(s)
    ensures |set x | x in s| == |s|
  {
    if s != [] {
      var t := s[..|s| - 1];
      var x := s[|s| - 1];
      assert Distinct(t) by {
        forall i, j | 0 <= i < j < |t| ensures t[i] != t[j] {
          assert t[i] == s[i] && t[j] == s[j];
        }
      }
      DistinctCardinality(t);
      assert s == t + [x];
      assert x !in t by {
        forall i | 0 <= i < |t| ensures t[i] != x {
          assert t[i] == s[i];
        }
      }
      assert (set y | y in s) == (set y | y in t) + {x};
    }
  }

  /** The elements of `s` that are not in `ks`, in order. */
  function Without<T>(s: seq<T>, ks: set<T>): (r: seq<T>)
    ensures forall i :: 0 <= i < |r| ==> r[i] in s && r[i] !in ks
    ensures forall i :: 0 <= i < |s| && s[i] !in ks ==> s[i] in r
    ensures |r| <= |s|
  {
    if s == [] then [] else (if s[0] in ks then [] else [s[0]]) + Without(s[1..], ks)
  }

  lemma {:induction false} WithoutConcat<T>(a: seq<T>, b: seq<T>, ks: set<T>)
    ensures Without(a + b, ks) == Without(a, ks) + Without(b, ks)
  {
    if a != [] {
      assert (a + b)[0] == a[0] && (a + b)[1..] == a[1..] + b;
      WithoutConcat(a[1..], b, ks);
    } else {
      assert a + b == b;
    }
  }

  /** Dropping elements keeps a sequence free of repetitions. */
  lemma {:induction false} WithoutDistinct<T>(s: seq<T>, ks: set<T>)
    requires Distinct(s)
    ensures Distinct(Without(s, ks))
  {
    if s != [] {
      assert Distinct(s[1..]) by {
        forall i, j | 0 <= i < j < |s[1..]| ensures s[1..][i] != s[1..][j] {
          assert s[1..][i] == s[i + 1] && s[1..][j] == s[j + 1];
        }
      }
      WithoutDistinct(s[1..], ks);
      var rest := Without(s[1..], ks);
      assert s[0] !in rest by {
        forall k | 0 <= k < |s[1..]| ensures s[1..][k] != s[0] {
          assert s[1..][k] == s[k + 1];
        }
      }
    }
  }

  lemma DistinctSnoc<T>(s: seq<T>, x: T)
    requires Distinct(s) && x !in s
    ensures Distinct(s + [x])
  {
    var t := s + [x];
    forall i, j | 0 <= i < j < |t| ensures t[i] != t[j] {
      if j == |s| {
        assert t[i] == s[i];
      } else {
        assert t[i] == s[i] && t[j] == s[j];
      }
    }
  }

  /** Dropping every element leaves nothing. */
  lemma WithoutAll<T>(s: seq<T>, ks: set<T>)
    requires forall i :: 0 <= i < |s| ==> s[i] in ks
    ensures Without(s, ks) == []
  {
  }
}
