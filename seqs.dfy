/**
 * Sequence operations shared by the model: filtering (the ORM's `filter`),
 * filter-and-map (building a list by conditional `append`), `distinct`, and
 * uniqueness of a key across a table.
 */
module Seqs {
  import opened Wrappers

  /** The elements of `s` that satisfy `keep`, in their original order. */
  function Filter<T(!new)>(s: seq<T>, keep: T -> bool): (r: seq<T>)
    ensures |r| <= |s|
    ensures forall x :: x in r <==> x in s && keep(x)
  {
    if |s| == 0 then []
    else if keep(s[0]) then [s[0]] + Filter(s[1..], keep)
    else Filter(s[1..], keep)
  }

  /** The values `f` produces for the elements of `s`, skipping the `None`s, in order. */
  function FilterMap<A, B(!new,==)>(s: seq<A>, f: A -> Option<B>): (r: seq<B>)
    ensures |r| <= |s|
    ensures forall y :: y in r <==> exists i :: 0 <= i < |s| && f(s[i]) == Some(y)
  {
    if |s| == 0 then []
    else
      var init := s[..|s| - 1];
      var r := FilterMap(init, f);
      assert forall i :: 0 <= i < |init| ==> init[i] == s[i];
      match f(s[|s| - 1])
      case Some(y) => r + [y]
      case None => r
  }

  /** FilterMap of a concatenation is the concatenation of the FilterMaps. */
  lemma {:induction false} FilterMapAppend<A, B(!new)>(a: seq<A>, b: seq<A>, f: A -> Option<B>)
    ensures FilterMap(a + b, f) == FilterMap(a, f) + FilterMap(b, f)
  {
    if |b| > 0 {
      var b' := b[..|b| - 1];
      assert (a + b)[..|a + b| - 1] == a + b';
      assert (a + b)[|a + b| - 1] == b[|b| - 1];
      FilterMapAppend(a, b', f);
    } else {
      assert a + b == a;
    }
  }

  /** FilterMap of one element. */
  lemma {:induction false} FilterMapSingle<A, B(!new)>(x: A, f: A -> Option<B>)
    ensures FilterMap([x], f) == (match f(x) case Some(y) => [y] case None => [])
  {
    assert [x][..0] == [];
  }

  /** A prefix one longer is the prefix followed by the next element. */
  lemma PrefixSnoc<T>(s: seq<T>, i: nat)
    requires i < |s|
    ensures s[..i + 1] == s[..i] + [s[i]]
  {
  }

  /** No element occurs twice. */
  predicate NoDuplicates<T(==)>(s: seq<T>)
  {
    forall i, j :: 0 <= i < j < |s| ==> s[i] != s[j]
  }

  /** The first occurrence of each element of `s`, in order of first occurrence. */
  function Distinct<T(!new,==)>(s: seq<T>): (r: seq<T>)
    ensures NoDuplicates(r)
    ensures forall x :: x in r <==> x in s
    ensures |r| <= |s|
  {
    if |s| == 0 then []
    else
      var r := Distinct(s[..|s| - 1]);
      var last := s[|s| - 1];
      assert forall x :: x in s <==> x in s[..|s| - 1] || x == last by {
        assert s == s[..|s| - 1] + [last];
      }
      if last in r then r else r + [last]
  }

  /** Distinct leaves a sequence without duplicates as it is. */
  lemma {:induction false} DistinctOfDistinct<T(!new)>(s: seq<T>)
    requires NoDuplicates(s)
    ensures Distinct(s) == s
  {
    if |s| > 0 {
      var init := s[..|s| - 1];
      assert NoDuplicates(init) by {
        assert forall i :: 0 <= i < |init| ==> init[i] == s[i];
      }
      DistinctOfDistinct(init);
      assert s[|s| - 1] !in init by {
        forall i | 0 <= i < |init| ensures init[i] != s[|s| - 1] {
          assert init[i] == s[i];
        }
      }
      assert s == init + [s[|s| - 1]];
    }
  }

  /** `key` takes a different value on every element of `s` (a unique column). */
  ghost predicate UniqueBy<T, K>(s: seq<T>, key: T -> K)
  {
    forall i, j :: 0 <= i < j < |s| ==> key(s[i]) != key(s[j])
  }

  /** Appending an element whose key is new keeps a column unique. */
  lemma UniqueBySnoc<T, K>(s: seq<T>, x: T, key: T -> K)
    requires UniqueBy(s, key)
    requires forall y :: y in s ==> key(y) != key(x)
    ensures UniqueBy(s + [x], key)
  {
    var s' := s + [x];
    forall i, j | 0 <= i < j < |s'| ensures key(s'[i]) != key(s'[j]) {
      assert s'[i] == s[i];
      if j == |s| {
        assert s[i] in s;
      } else {
        assert s'[j] == s[j];
      }
    }
  }

  /** Filtering keeps a column unique. */
  lemma {:induction false} FilterUniqueBy<T(!new), K>(s: seq<T>, keep: T -> bool, key: T -> K)
    requires UniqueBy(s, key)
    ensures UniqueBy(Filter(s, keep), key)
  {
    if |s| > 0 {
      var tail := s[1..];
      assert UniqueBy(tail, key) by {
        forall i, j | 0 <= i < j < |tail| ensures key(tail[i]) != key(tail[j]) {
          assert tail[i] == s[i + 1] && tail[j] == s[j + 1];
        }
      }
      FilterUniqueBy(tail, keep, key);
      var r := Filter(tail, keep);
      if keep(s[0]) {
        forall j | 0 <= j < |r| ensures key(s[0]) != key(r[j]) {
          assert r[j] in tail;
          var m :| 0 <= m < |tail| && tail[m] == r[j];
          assert tail[m] == s[m + 1];
        }
        var r' := [s[0]] + r;
        forall i, j | 0 <= i < j < |r'| ensures key(r'[i]) != key(r'[j]) {
          if i == 0 {
            assert r'[j] == r[j - 1];
          } else {
            assert r'[i] == r[i - 1] && r'[j] == r[j - 1];
          }
        }
      }
    }
  }
}
