/**
 * A stable sort into non-increasing order of a numeric key: Python's
 * `sorted(xs, key=k, reverse=True)`, which keeps equal-key elements in their
 * input order.
 */
module StableSort {

  predicate NonIncreasing<T>(s: seq<T>, key: T -> real) {
    forall i, j :: 0 <= i < j < |s| ==> key(s[i]) >= key(s[j])
  }

  /** Places `x` after every element with a strictly larger key and before the rest. */
  function Insert<T(==)>(x: T, s: seq<T>, key: T -> real): (r: seq<T>)
    ensures multiset(r) == multiset(s) + multiset{x}
    ensures forall i :: 0 <= i < |r| ==> r[i] == x || r[i] in s
    ensures NonIncreasing(s, key) ==> NonIncreasing(r, key)
  {
    if s == [] || key(x) >= key(s[0]) then
      [x] + s
    else
      var t := Insert(x, s[1..], key);
      assert s == [s[0]] + s[1..];
      InsertBehindHead(x, s, key, t);
      [s[0]] + t
  }

  /** Putting the old head in front of the insertion into the tail keeps membership and order. */
  lemma InsertBehindHead<T>(x: T, s: seq<T>, key: T -> real, t: seq<T>)
    requires s != [] && key(x) < key(s[0])
    requires forall i :: 0 <= i < |t| ==> t[i] == x || t[i] in s[1..]
    requires NonIncreasing(s[1..], key) ==> NonIncreasing(t, key)
    ensures forall i :: 0 <= i < |[s[0]] + t| ==> ([s[0]] + t)[i] == x || ([s[0]] + t)[i] in s
    ensures NonIncreasing(s, key) ==> NonIncreasing([s[0]] + t, key)
  {
    var r := [s[0]] + t;
    forall i | 0 < i < |r| ensures r[i] == x || r[i] in s {
      assert r[i] == t[i - 1];
    }
    if NonIncreasing(s, key) {
      assert NonIncreasing(s[1..], key) by {
        forall i, j | 0 <= i < j < |s[1..]| ensures key(s[1..][i]) >= key(s[1..][j]) {
          assert s[1..][i] == s[i + 1] && s[1..][j] == s[j + 1];
        }
      }
      forall i, j | 0 <= i < j < |r| ensures key(r[i]) >= key(r[j]) {
        assert r[j] == t[j - 1];
        if i > 0 {
          assert r[i] == t[i - 1];
        } else {
          var y := t[j - 1];
          if y != x {
            var m :| 0 <= m < |s[1..]| && s[1..][m] == y;
            assert s[m + 1] == y;
          }
        }
      }
    }
  }

  /** The elements of `s` rearranged into non-increasing key order. */
  function SortDescending<T(==)>(s: seq<T>, key: T -> real): (r: seq<T>)
    ensures multiset(r) == multiset(s)
    ensures NonIncreasing(r, key)
  {
    if s == [] then []
    else
      assert s == [s[0]] + s[1..];
      Insert(s[0], SortDescending(s[1..], key), key)
  }

  /** Equal keys are ordered by `pos`: a secondary order the input already follows. */
  predicate TiesOrderedBy<T>(s: seq<T>, key: T -> real, pos: T -> int) {
    forall i, j :: 0 <= i < j < |s| && key(s[i]) == key(s[j]) ==> pos(s[i]) < pos(s[j])
  }

  predicate IncreasingBy<T>(s: seq<T>, pos: T -> int) {
    forall i, j :: 0 <= i < j < |s| ==> pos(s[i]) < pos(s[j])
  }

  lemma TiesOrderedInTail<T>(s: seq<T>, key: T -> real, pos: T -> int)
    requires s != [] && TiesOrderedBy(s, key, pos)
    ensures TiesOrderedBy(s[1..], key, pos)
  {
    forall i, j | 0 <= i < j < |s[1..]| && key(s[1..][i]) == key(s[1..][j])
      ensures pos(s[1..][i]) < pos(s[1..][j])
    {
      assert s[1..][i] == s[i + 1] && s[1..][j] == s[j + 1];
    }
  }

  lemma {:induction false} InsertKeepsTies<T>(x: T, s: seq<T>, key: T -> real, pos: T -> int)
    requires TiesOrderedBy(s, key, pos)
    requires forall k :: 0 <= k < |s| ==> pos(x) < pos(s[k])
    ensures TiesOrderedBy(Insert(x, s, key), key, pos)
  {
    if s != [] && key(x) < key(s[0]) {
      TiesOrderedInTail(s, key, pos);
      assert forall k :: 0 <= k < |s[1..]| ==> pos(x) < pos(s[1..][k]) by {
        forall k | 0 <= k < |s[1..]| ensures pos(x) < pos(s[1..][k]) {
          assert s[1..][k] == s[k + 1];
        }
      }
      InsertKeepsTies(x, s[1..], key, pos);
      TiesBehindHead(x, s, key, pos, Insert(x, s[1..], key));
    }
  }

  /** The old head goes before everything inserted behind it that has the same key. */
  lemma TiesBehindHead<T>(x: T, s: seq<T>, key: T -> real, pos: T -> int, t: seq<T>)
    requires s != [] && key(x) < key(s[0])
    requires TiesOrderedBy(s, key, pos) && TiesOrderedBy(t, key, pos)
    requires forall i :: 0 <= i < |t| ==> t[i] == x || t[i] in s[1..]
    ensures TiesOrderedBy([s[0]] + t, key, pos)
  {
    var r := [s[0]] + t;
    forall i, j | 0 <= i < j < |r| && key(r[i]) == key(r[j])
      ensures pos(r[i]) < pos(r[j])
    {
      assert r[j] == t[j - 1];
      if i == 0 {
        var y := t[j - 1];
        var k :| 0 <= k < |s[1..]| && s[1..][k] == y;
        assert s[k + 1] == y;
      } else {
        assert r[i] == t[i - 1];
      }
    }
  }

  /**
   * Stability: if the input lists elements in increasing `pos`, then elements
   * with equal keys keep that order in the output.
   */
  lemma {:induction false} SortDescendingIsStable<T>(s: seq<T>, key: T -> real, pos: T -> int)
    requires IncreasingBy(s, pos)
    ensures TiesOrderedBy(SortDescending(s, key), key, pos)
  {
    if s != [] {
      assert IncreasingBy(s[1..], pos) by {
        forall i, j | 0 <= i < j < |s[1..]| ensures pos(s[1..][i]) < pos(s[1..][j]) {
          assert s[1..][i] == s[i + 1] && s[1..][j] == s[j + 1];
        }
      }
      SortDescendingIsStable(s[1..], key, pos);
      var t := SortDescending(s[1..], key);
      forall k | 0 <= k < |t| ensures pos(s[0]) < pos(t[k]) {
        var y := t[k];
        assert y in multiset(t);
        assert y in multiset(s[1..]);
        var m :| 0 <= m < |s[1..]| && s[1..][m] == y;
        assert s[m + 1] == y;
      }
      InsertKeepsTies(s[0], t, key, pos);
    }
  }

  // ---------------------------------------------------------------------------
  // Counting in permutations

  lemma TwoIndicesCountTwice<T>(s: seq<T>, i: nat, j: nat)
    requires i < j < |s| && s[i] == s[j]
    ensures multiset(s)[s[i]] >= 2
  {
    assert s == s[..j] + s[j..];
    assert s[i] in s[..j];
    assert s[j] in s[j..];
    assert multiset(s) == multiset(s[..j]) + multiset(s[j..]);
  }

  lemma DistinctCountOnce<T>(s: seq<T>, x: T)
    requires forall i, j :: 0 <= i < j < |s| ==> s[i] != s[j]
    ensures multiset(s)[x] <= 1
  {
    if s != [] {
      assert s == [s[0]] + s[1..];
      DistinctCountOnce(s[1..], x);
      if s[0] == x {
        assert x !in s[1..] by {
          forall k | 0 <= k < |s[1..]| ensures s[1..][k] != x {
            assert s[1..][k] == s[k + 1];
          }
        }
      }
    }
  }

  /** A rearrangement of a sequence without repeats has no repeats either. */
  lemma PermutationKeepsDistinct<T>(s: seq<T>, r: seq<T>)
    requires forall i, j :: 0 <= i < j < |s| ==> s[i] != s[j]
    requires multiset(r) == multiset(s)
    ensures forall i, j :: 0 <= i < j < |r| ==> r[i] != r[j]
  {
    forall i, j | 0 <= i < j < |r| ensures r[i] != r[j] {
      if r[i] == r[j] {
        TwoIndicesCountTwice(r, i, j);
        DistinctCountOnce(s, r[i]);
      }
    }
  }
}
