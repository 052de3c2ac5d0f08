/** Sequence utilities shared by the batching, collage and tournament models. */
module Seqs {

  /** Concatenation of a sequence of sequences, in order. */
  function Flatten<T>(xss: seq<seq<T>>): seq<T>
  {
    if |xss| == 0 then [] else xss[0] + Flatten(xss[1..])
  }

  lemma {:induction false} FlattenAppend<T>(a: seq<seq<T>>, b: seq<seq<T>>)
    ensures Flatten(a + b) == Flatten(a) + Flatten(b)
  {
    if |a| == 0 {
      assert a + b == b;
    } else {
      assert (a + b)[1..] == a[1..] + b;
      FlattenAppend(a[1..], b);
    }
  }

  /** No element occurs twice. */
  predicate Distinct<T(==)>(s: seq<T>)
  {
    forall i, j :: 0 <= i < j < |s| ==> s[i] != s[j]
  }

  /** In a duplicate-free sequence every element occurs once. */
  lemma {:induction false} DistinctCount<T>(s: seq<T>, x: T)
    requires Distinct(s)
    ensures multiset(s)[x] == if x in s then 1 else 0
  {
    if |s| > 0 {
      assert s == [s[0]] + s[1..];
      assert Distinct(s[1..]) by {
        forall i, j | 0 <= i < j < |s[1..]| ensures s[1..][i] != s[1..][j] {
          assert s[1..][i] == s[i + 1] && s[1..][j] == s[j + 1];
        }
      }
      DistinctCount(s[1..], x);
      assert s[0] !in s[1..] by {
        forall k | 0 <= k < |s[1..]| ensures s[1..][k] != s[0] {
          assert s[1..][k] == s[k + 1];
        }
      }
      assert x in s <==> x == s[0] || x in s[1..];
    }
  }

  /** Two duplicate-free sequences with the same elements are permutations of
      each other. */
  lemma SameElemsPermutation<T>(a: seq<T>, b: seq<T>)
    requires Distinct(a) && Distinct(b)
    requires forall x :: x in a <==> x in b
    ensures multiset(a) == multiset(b)
  {
    forall x ensures multiset(a)[x] == multiset(b)[x] {
      DistinctCount(a, x);
      DistinctCount(b, x);
    }
  }

  /** The set of elements of a sequence, as Python's `set(s)`. */
  function Elems<T>(s: seq<T>): set<T>
  {
    set x | x in s
  }

  /** A sequence has at least as many positions as distinct elements, and
      exactly as many when it is duplicate-free. */
  lemma {:induction false} ElemsCard<T>(s: seq<T>)
    ensures |Elems(s)| <= |s|
    ensures Distinct(s) ==> |Elems(s)| == |s|
  {
    if |s| > 0 {
      var t := s[..|s| - 1];
      ElemsCard(t);
      assert Elems(s) == Elems(t) + {s[|s| - 1]} by {
        forall x | x in s ensures x in t || x == s[|s| - 1] {
          var i :| 0 <= i < |s| && s[i] == x;
          if i < |s| - 1 { assert t[i] == x; }
        }
      }
      if Distinct(s) {
        assert s[|s| - 1] !in Elems(t);
      }
    }
  }

  /** Whatever a sequence draws only from `pool` has no more distinct elements
      than `pool` has positions. */
  lemma ElemsSubsetCard<T>(s: seq<T>, pool: seq<T>)
    requires forall x :: x in s ==> x in pool
    ensures |Elems(s)| <= |pool|
  {
    var a, b := Elems(s), Elems(pool);
    assert a <= b;
    assert b == a + (b - a);
    assert |b| == |a| + |b - a|;
    ElemsCard(pool);
  }
}
