/** Order-preserving helpers over table listings. */
module Seqs {
  import opened Wrappers

  /** The elements of `s` satisfying `p`, in their original order (a SQL `WHERE`). */
  function Filter<T>(s: seq<T>, p: T -> bool): (r: seq<T>)
    ensures |r| <= |s|
    ensures forall i :: 0 <= i < |r| ==> r[i] in s && p(r[i])
    ensures forall i :: 0 <= i < |s| && p(s[i]) ==> s[i] in r
    ensures (forall i :: 0 <= i < |s| ==> p(s[i])) ==> r == s
  {
    if |s| == 0 then []
    else if p(s[0]) then [s[0]] + Filter(s[1..], p)
    else Filter(s[1..], p)
  }

  /** Filtering out an appended element that fails, when every earlier element passes, gives back the original. */
  lemma {:induction false} FilterDropsAppended<T>(s: seq<T>, p: T -> bool, x: T)
    requires forall i :: 0 <= i < |s| ==> p(s[i])
    requires !p(x)
    ensures Filter(s + [x], p) == s
  {
    if |s| == 0 {
      assert Filter([x], p) == Filter([x][1..], p);
    } else {
      assert (s + [x])[1..] == s[1..] + [x];
      FilterDropsAppended(s[1..], p, x);
    }
  }

  /**
   * The images under `f` of the elements `f` maps to something, in order (a
   * SQL join that drops rows without a partner); duplicates are kept.
   */
  function FilterMap<A, B>(s: seq<A>, f: A -> Option<B>): (r: seq<B>)
    ensures |r| <= |s|
  {
    if |s| == 0 then []
    else match f(s[0])
      case Some(b) => [b] + FilterMap(s[1..], f)
      case None => FilterMap(s[1..], f)
  }

  /** An element is in the join exactly when some source element maps to it. */
  lemma {:induction false} FilterMapMembers<A, B>(s: seq<A>, f: A -> Option<B>)
    ensures forall b :: b in FilterMap(s, f) ==> exists a :: a in s && f(a).Some? && f(a).value == b
    ensures forall a :: a in s && f(a).Some? ==> f(a).value in FilterMap(s, f)
  {
    if |s| > 0 {
      var t := s[1..];
      FilterMapMembers(t, f);
      assert FilterMap(s, f) == (if f(s[0]).Some? then [f(s[0]).value] else []) + FilterMap(t, f);
      forall b | b in FilterMap(s, f)
        ensures exists a :: a in s && f(a).Some? && f(a).value == b
      {
        if f(s[0]).Some? && f(s[0]).value == b {
          assert s[0] in s;
        } else {
          assert b in FilterMap(t, f);
          var a :| a in t && f(a).Some? && f(a).value == b;
          assert a in s;
        }
      }
      forall a | a in s && f(a).Some?
        ensures f(a).value in FilterMap(s, f)
      {
        if a != s[0] {
          var i :| 0 <= i < |s| && s[i] == a;
          assert t[i - 1] == a;
        }
      }
    }
  }

  /** The position of the first element satisfying `p` (a SQL `single` lookup), if any. */
  function FirstIndex<T>(s: seq<T>, p: T -> bool): (r: Option<nat>)
    ensures r.Some? ==> r.value < |s| && p(s[r.value])
    ensures r.Some? ==> forall j :: 0 <= j < r.value ==> !p(s[j])
    ensures r.None? <==> forall j :: 0 <= j < |s| ==> !p(s[j])
  {
    if |s| == 0 then None
    else if p(s[0]) then Some(0)
    else match FirstIndex(s[1..], p)
      case None => None
      case Some(k) => Some(k + 1)
  }

  /** The elements of a filtered sequence are exactly the elements that pass. */
  lemma FilterMembers<T>(s: seq<T>, p: T -> bool)
    ensures forall x :: x in Filter(s, p) <==> x in s && p(x)
  {
    forall x | x in s && p(x)
      ensures x in Filter(s, p)
    {
      var i :| 0 <= i < |s| && s[i] == x;
    }
  }

  /** A relation that holds between every earlier and later element still holds after filtering. */
  lemma {:induction false} FilterKeepsPairwise<T>(s: seq<T>, p: T -> bool, R: (T, T) -> bool)
    requires forall i, j :: 0 <= i < j < |s| ==> R(s[i], s[j])
    ensures forall i, j :: 0 <= i < j < |Filter(s, p)| ==> R(Filter(s, p)[i], Filter(s, p)[j])
  {
    if |s| > 0 {
      var tail := Filter(s[1..], p);
      FilterKeepsPairwise(s[1..], p, R);
      var r := Filter(s, p);
      if p(s[0]) {
        assert r == [s[0]] + tail;
        forall i, j | 0 <= i < j < |r|
          ensures R(r[i], r[j])
        {
          assert r[j] == tail[j - 1];
          if i == 0 {
            assert tail[j - 1] in tail;
            var k :| 0 <= k < |s[1..]| && s[1..][k] == tail[j - 1];
            assert R(s[0], s[k + 1]);
            assert r[i] == s[0];
          } else {
            assert r[i] == tail[i - 1];
            assert 0 <= i - 1 < j - 1 < |tail|;
            assert R(tail[i - 1], tail[j - 1]);
          }
        }
      } else {
        assert r == tail;
      }
    }
  }

  /** No two elements share a key (a UNIQUE constraint on the key's columns). */
  predicate UniqueBy<T, K(==)>(s: seq<T>, key: T -> K) {
    forall i, j :: 0 <= i < j < |s| ==> key(s[i]) != key(s[j])
  }

  /** Some element satisfies `p`. */
  predicate Exists<T>(s: seq<T>, p: T -> bool) {
    exists i :: 0 <= i < |s| && p(s[i])
  }

  /** Appending an element with a fresh key keeps keys unique. */
  lemma UniqueByAppend<T, K>(s: seq<T>, key: T -> K, x: T)
    requires UniqueBy(s, key)
    requires forall i :: 0 <= i < |s| ==> key(s[i]) != key(x)
    ensures UniqueBy(s + [x], key)
  {
    var t := s + [x];
    forall i, j | 0 <= i < j < |t|
      ensures key(t[i]) != key(t[j])
    {
      if j == |s| {
        assert t[i] == s[i];
      } else {
        assert t[i] == s[i] && t[j] == s[j];
      }
    }
  }

  /** Replacing an element by one with the same key keeps keys unique. */
  lemma UniqueByUpdate<T, K>(s: seq<T>, key: T -> K, k: nat, x: T)
    requires UniqueBy(s, key) && k < |s| && key(x) == key(s[k])
    ensures UniqueBy(s[k := x], key)
  {
    var t := s[k := x];
    forall i, j | 0 <= i < j < |t|
      ensures key(t[i]) != key(t[j])
    {
      assert key(t[i]) == key(s[i]) && key(t[j]) == key(s[j]);
    }
  }

  /** Replacing an element by one whose key no other element has keeps keys unique. */
  lemma UniqueByReplace<T, K>(s: seq<T>, key: T -> K, k: nat, x: T)
    requires UniqueBy(s, key) && k < |s|
    requires forall i :: 0 <= i < |s| && i != k ==> key(s[i]) != key(x)
    ensures UniqueBy(s[k := x], key)
  {
    var t := s[k := x];
    forall i, j | 0 <= i < j < |t|
      ensures key(t[i]) != key(t[j])
    {
      if i == k {
        assert key(s[j]) != key(x);
      } else if j == k {
        assert key(s[i]) != key(x);
      } else {
        assert t[i] == s[i] && t[j] == s[j];
      }
    }
  }

  /** A sequence whose elements have the same keys, position by position, as a unique one is unique too. */
  lemma UniqueBySameKeys<T, K>(s: seq<T>, t: seq<T>, key: T -> K)
    requires UniqueBy(s, key) && |t| == |s|
    requires forall i :: 0 <= i < |s| ==> key(t[i]) == key(s[i])
    ensures UniqueBy(t, key)
  {
    forall i, j | 0 <= i < j < |t|
      ensures key(t[i]) != key(t[j])
    {
      assert key(t[i]) == key(s[i]) && key(t[j]) == key(s[j]);
    }
  }

  /** Filtering keeps keys unique. */
  lemma UniqueByFilter<T, K>(s: seq<T>, key: T -> K, p: T -> bool)
    requires UniqueBy(s, key)
    ensures UniqueBy(Filter(s, p), key)
  {
    FilterKeepsPairwise(s, p, (a: T, b: T) => key(a) != key(b));
  }

  /** Under a unique key, an element with the key of element `k` is element `k`. */
  lemma UniqueByIndex<T, K>(s: seq<T>, key: T -> K, k: nat, i: nat)
    requires UniqueBy(s, key) && k < |s| && i < |s| && key(s[i]) == key(s[k])
    ensures i == k
  {
  }

  /** Under a unique key, two listed elements with the same key are the same element. */
  lemma UniqueByMembers<T, K>(s: seq<T>, key: T -> K, x: T, y: T)
    requires UniqueBy(s, key) && x in s && y in s && key(x) == key(y)
    ensures x == y
  {
    var i :| 0 <= i < |s| && s[i] == x;
    var j :| 0 <= j < |s| && s[j] == y;
    UniqueByIndex(s, key, i, j);
  }

  /** The image of every element under `f`, in order (a pluck of one column). */
  function Map<A, B>(s: seq<A>, f: A -> B): (r: seq<B>)
    ensures |r| == |s| && forall i :: 0 <= i < |s| ==> r[i] == f(s[i])
    ensures forall a :: a in s ==> f(a) in r
  {
    var r := seq(|s|, i requires 0 <= i < |s| => f(s[i]));
    assert forall a :: a in s ==> f(a) in r by {
      forall a | a in s ensures f(a) in r {
        var i :| 0 <= i < |s| && s[i] == a;
        assert r[i] == f(a);
      }
    }
    r
  }
}
