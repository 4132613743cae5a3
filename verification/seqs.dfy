/** `Array.prototype.filter` and the "assign each item into an object" idiom,
    the two list operations the pages share. */
module Seqs {

  /** `s.filter(p)`: the elements satisfying `p`, in their original order. */
  function Filter<T(!new)>(s: seq<T>, p: T -> bool): (r: seq<T>)
    ensures |r| <= |s|
    ensures forall x :: x in r <==> x in s && p(x)
    decreases |s|
  {
    if s == [] then [] else (if p(s[0]) then [s[0]] else []) + Filter(s[1..], p)
  }

  /** Nothing passes the filter when no element satisfies `p`. */
  lemma {:induction false} FilterNone<T(!new)>(s: seq<T>, p: T -> bool)
    requires forall x :: x in s ==> !p(x)
    ensures Filter(s, p) == []
    decreases |s|
  {
    if s != [] {
      assert s[0] in s;
      FilterNone(s[1..], p);
    }
  }

  /** Filtering commutes with concatenation, so it keeps relative order. */
  lemma {:induction false} FilterDistributes<T(!new)>(a: seq<T>, b: seq<T>, p: T -> bool)
    ensures Filter(a + b, p) == Filter(a, p) + Filter(b, p)
    decreases |a|
  {
    if a == [] {
      assert a + b == b;
    } else {
      assert (a + b)[0] == a[0];
      assert (a + b)[1..] == a[1..] + b;
      FilterDistributes(a[1..], b, p);
    }
  }

  /** Filtering drops nothing exactly when every element passes. */
  lemma {:induction false} FilterKeepsAll<T(!new)>(s: seq<T>, p: T -> bool)
    ensures Filter(s, p) == s <==> forall i :: 0 <= i < |s| ==> p(s[i])
    decreases |s|
  {
    if s != [] {
      FilterKeepsAll(s[1..], p);
      if !p(s[0]) {
        assert |Filter(s, p)| < |s|;
      } else if Filter(s, p) == s {
        assert Filter(s[1..], p) == s[1..];
      }
    }
  }

  /** The object built by `for each x of s: table[key(x)] = val(x)`. */
  function Tabulate<T, K(==), V>(s: seq<T>, key: T -> K, val: T -> V): map<K, V>
    decreases |s|
  {
    if s == [] then map[] else Tabulate(s[..|s| - 1], key, val)[key(s[|s| - 1]) := val(s[|s| - 1])]
  }

  /** The object has one entry per key occurring in the list. */
  lemma {:induction false} TabulateKeys<T, K, V>(s: seq<T>, key: T -> K, val: T -> V)
    ensures Tabulate(s, key, val).Keys == set x | x in s :: key(x)
    decreases |s|
  {
    if s != [] {
      var n := |s| - 1;
      TabulateKeys(s[..n], key, val);
      assert s == s[..n] + [s[n]];
    }
  }

  /** Each entry holds the value of the last element carrying its key. */
  lemma {:induction false} TabulateLast<T, K, V>(s: seq<T>, key: T -> K, val: T -> V)
    ensures Tabulate(s, key, val).Keys == set x | x in s :: key(x)
    ensures forall i :: 0 <= i < |s| && LastWithKey(s, key, i) ==> Tabulate(s, key, val)[key(s[i])] == val(s[i])
    decreases |s|
  {
    TabulateKeys(s, key, val);
    if s != [] {
      var n := |s| - 1;
      var init := s[..n];
      TabulateLast(init, key, val);
      forall i | 0 <= i < |s| && LastWithKey(s, key, i)
        ensures Tabulate(s, key, val)[key(s[i])] == val(s[i])
      {
        if i < n {
          assert key(s[n]) != key(s[i]);
          assert init[i] == s[i];
          assert LastWithKey(init, key, i);
        }
      }
    }
  }

  /** No later element of `s` shares the key of `s[i]`. */
  predicate LastWithKey<T, K(==)>(s: seq<T>, key: T -> K, i: int)
    requires 0 <= i < |s|
  {
    forall j :: i < j < |s| ==> key(s[j]) != key(s[i])
  }

  /** Every key of a table built by `Tabulate` is the key of a last element. */
  lemma {:induction false} LastWithKeyExists<T, K>(s: seq<T>, key: T -> K, k: K)
    requires k in set x | x in s :: key(x)
    ensures exists i :: 0 <= i < |s| && key(s[i]) == k && LastWithKey(s, key, i)
    decreases |s|
  {
    var last := |s| - 1;
    if key(s[last]) == k {
      assert LastWithKey(s, key, last);
    } else {
      var init := s[..last];
      assert s == init + [s[last]];
      assert k in set x | x in init :: key(x);
      LastWithKeyExists(init, key, k);
      var i :| 0 <= i < |init| && key(init[i]) == k && LastWithKey(init, key, i);
      assert LastWithKey(s, key, i);
    }
  }
}
