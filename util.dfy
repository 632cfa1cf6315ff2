/** Small sequence helpers shared by the model: an Option type, the list
    comprehension filter `[x for x in s if keep(x)]`, the list comprehension
    map `[f(x) for x in s]`, and `next((x for x in s if p(x)), None)`. */
module Util {

  datatype Option<+T> = None | Some(value: T) {
    function GetOr(default: T): T {
      match this
      case Some(v) => v
      case None => default
    }
  }

  /** `[x for x in s if keep(x)]`, defined from the back so that a loop
      walking `s` from the front extends it one element at a time. */
  function Filter<T>(s: seq<T>, keep: T -> bool): (r: seq<T>)
    ensures |r| <= |s|
  {
    if s == [] then []
    else Filter(s[..|s| - 1], keep) + (if keep(s[|s| - 1]) then [s[|s| - 1]] else [])
  }

  /** `[f(x) for x in s]` */
  function MapSeq<T, U>(s: seq<T>, f: T -> U): (r: seq<U>)
    ensures |r| == |s|
    ensures forall i :: 0 <= i < |s| ==> r[i] == f(s[i])
  {
    seq(|s|, i requires 0 <= i < |s| => f(s[i]))
  }

  /** `[v for x in s if (v := f(x)) is not None]`: the values `f` yields, in
      order, skipping the elements it rejects; defined from the back like
      `Filter`. */
  function FilterMap<T, U>(s: seq<T>, f: T -> Option<U>): (r: seq<U>)
    ensures |r| <= |s|
  {
    if s == [] then []
    else
      FilterMap(s[..|s| - 1], f) +
        (match f(s[|s| - 1]) case Some(v) => [v] case None => [])
  }

  lemma {:induction false} FilterMapAppend<T, U>(a: seq<T>, b: seq<T>, f: T -> Option<U>)
    ensures FilterMap(a + b, f) == FilterMap(a, f) + FilterMap(b, f)
    decreases |b|
  {
    if b == [] {
      assert a + b == a;
    } else {
      var b' := b[..|b| - 1];
      assert (a + b)[..|a + b| - 1] == a + b';
      assert (a + b)[|a + b| - 1] == b[|b| - 1];
      FilterMapAppend(a, b', f);
    }
  }

  /** A value is produced exactly when some element yields it. */
  lemma {:induction false} FilterMapMember<T, U>(s: seq<T>, f: T -> Option<U>, v: U)
    ensures v in FilterMap(s, f) <==> exists i :: 0 <= i < |s| && f(s[i]) == Some(v)
  {
    if s != [] {
      var init := s[..|s| - 1];
      var tail := match f(s[|s| - 1]) case Some(w) => [w] case None => [];
      assert FilterMap(s, f) == FilterMap(init, f) + tail;
      FilterMapMember(init, f, v);
      if v in FilterMap(s, f) {
        if v in tail {
          assert f(s[|s| - 1]) == Some(v);
        } else {
          var i :| 0 <= i < |init| && f(init[i]) == Some(v);
          assert s[i] == init[i];
        }
      }
      if exists i :: 0 <= i < |s| && f(s[i]) == Some(v) {
        var i :| 0 <= i < |s| && f(s[i]) == Some(v);
        if i < |init| {
          assert f(init[i]) == Some(v);
        } else {
          assert v in tail;
        }
      }
    }
  }

  /** When no element is rejected nothing is dropped, and the values come out
      in element order. */
  lemma {:induction false} FilterMapAllSome<T, U>(s: seq<T>, f: T -> Option<U>)
    requires forall i :: 0 <= i < |s| ==> f(s[i]).Some?
    ensures |FilterMap(s, f)| == |s|
    ensures forall i :: 0 <= i < |s| ==> FilterMap(s, f)[i] == f(s[i]).value
  {
    if s != [] {
      var init := s[..|s| - 1];
      FilterMapAllSome(init, f);
      assert FilterMap(s, f) == FilterMap(init, f) + [f(s[|s| - 1]).value];
      forall i | 0 <= i < |s| ensures FilterMap(s, f)[i] == f(s[i]).value {
        if i < |init| {
          assert s[i] == init[i];
        }
      }
    }
  }

  /** The index of the first element satisfying `p`, as `next(...)` finds it. */
  function FindFirst<T>(s: seq<T>, p: T -> bool): (r: Option<nat>)
    ensures r.Some? ==> r.value < |s| && p(s[r.value])
    ensures r.Some? ==> forall j :: 0 <= j < r.value ==> !p(s[j])
    ensures r.None? <==> forall j :: 0 <= j < |s| ==> !p(s[j])
  {
    if s == [] then None
    else if p(s[0]) then Some(0)
    else match FindFirst(s[1..], p)
      case None => None
      case Some(k) => Some(k + 1)
  }

  /** Filtering a concatenation filters each part: the kept elements stay in
      their original relative order. */
  lemma {:induction false} FilterAppend<T>(a: seq<T>, b: seq<T>, keep: T -> bool)
    ensures Filter(a + b, keep) == Filter(a, keep) + Filter(b, keep)
    decreases |b|
  {
    if b == [] {
      assert a + b == a;
    } else {
      var b' := b[..|b| - 1];
      assert (a + b)[..|a + b| - 1] == a + b';
      assert (a + b)[|a + b| - 1] == b[|b| - 1];
      FilterAppend(a, b', keep);
    }
  }

  /** An element survives the filter exactly when it was there and is kept. */
  lemma {:induction false} FilterMember<T>(s: seq<T>, keep: T -> bool, x: T)
    ensures x in Filter(s, keep) <==> x in s && keep(x)
  {
    if s != [] {
      var s' := s[..|s| - 1];
      assert s == s' + [s[|s| - 1]];
      FilterMember(s', keep, x);
    }
  }

  /** The filter leaves the length unchanged exactly when it keeps every
      element, and then it leaves the sequence itself unchanged. */
  lemma {:induction false} FilterKeepsAll<T>(s: seq<T>, keep: T -> bool)
    ensures |Filter(s, keep)| == |s| <==> forall i :: 0 <= i < |s| ==> keep(s[i])
    ensures (forall i :: 0 <= i < |s| ==> keep(s[i])) ==> Filter(s, keep) == s
  {
    if s != [] {
      var s' := s[..|s| - 1];
      FilterKeepsAll(s', keep);
      assert s == s' + [s[|s| - 1]];
      if forall i :: 0 <= i < |s| ==> keep(s[i]) {
        assert forall i :: 0 <= i < |s'| ==> keep(s'[i]) by {
          forall i | 0 <= i < |s'| ensures keep(s'[i]) { assert s'[i] == s[i]; }
        }
      } else {
        var i :| 0 <= i < |s| && !keep(s[i]);
        if i == |s| - 1 {
          assert |Filter(s, keep)| == |Filter(s', keep)|;
        } else {
          assert s'[i] == s[i];
        }
      }
    }
  }

  /** No two elements share a key. */
  predicate DistinctBy<T, K(==)>(s: seq<T>, key: T -> K) {
    forall i, j :: 0 <= i < j < |s| ==> key(s[i]) != key(s[j])
  }

  /** Filtering keeps keys distinct: it only drops elements. */
  lemma {:induction false} FilterDistinct<T, K>(s: seq<T>, keep: T -> bool, key: T -> K)
    requires DistinctBy(s, key)
    ensures DistinctBy(Filter(s, keep), key)
  {
    if s != [] {
      var s' := s[..|s| - 1];
      var last := s[|s| - 1];
      assert DistinctBy(s', key) by {
        forall i, j | 0 <= i < j < |s'| ensures key(s'[i]) != key(s'[j]) {
          assert s'[i] == s[i] && s'[j] == s[j];
        }
      }
      FilterDistinct(s', keep, key);
      var r' := Filter(s', keep);
      if keep(last) {
        var r := r' + [last];
        forall i | 0 <= i < |r'| ensures key(r'[i]) != key(last) {
          FilterMember(s', keep, r'[i]);
          var k :| 0 <= k < |s'| && s'[k] == r'[i];
          assert s[k] == r'[i];
        }
      }
    }
  }

  /** When exactly the element at `i` fails `keep`, filtering removes that
      element and nothing else. */
  lemma {:induction false} FilterDropsOne<T>(s: seq<T>, keep: T -> bool, i: nat)
    requires i < |s| && !keep(s[i])
    requires forall j :: 0 <= j < |s| && j != i ==> keep(s[j])
    ensures Filter(s, keep) == s[..i] + s[i + 1..]
  {
    var s' := s[..|s| - 1];
    if i == |s| - 1 {
      PrefixKept(s, keep, i);
      assert s[i + 1..] == [];
    } else {
      forall j | 0 <= j < |s'| && j != i ensures keep(s'[j]) { assert s'[j] == s[j]; }
      FilterDropsOne(s', keep, i);
      assert s'[..i] == s[..i];
      assert s'[i + 1..] + [s[|s| - 1]] == s[i + 1..];
    }
  }

  lemma PrefixKept<T>(s: seq<T>, keep: T -> bool, i: nat)
    requires i <= |s|
    requires forall j :: 0 <= j < i ==> keep(s[j])
    ensures Filter(s[..i], keep) == s[..i]
  {
    var t := s[..i];
    forall j | 0 <= j < |t| ensures keep(t[j]) { assert t[j] == s[j]; }
    FilterKeepsEvery(t, keep);
  }

  lemma {:induction false} FilterKeepsEvery<T>(s: seq<T>, keep: T -> bool)
    requires forall j :: 0 <= j < |s| ==> keep(s[j])
    ensures Filter(s, keep) == s
  {
    if s != [] {
      var s' := s[..|s| - 1];
      forall j | 0 <= j < |s'| ensures keep(s'[j]) { assert s'[j] == s[j]; }
      FilterKeepsEvery(s', keep);
    }
  }
}
