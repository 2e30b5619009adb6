/**
 * Python's `sorted(s, key=key, reverse=True)` on string keys: a stable sort
 * into non-increasing key order. Stability holds with `reverse=True` too, so
 * elements with equal keys keep the order they had in `s`.
 */
module StableSort {
  import opened Common

  /** Every element's key is at least the key of every element after it. */
  predicate SortedDesc<T>(key: T -> string, s: seq<T>)
  {
    forall i, j :: 0 <= i < j < |s| ==> Below(key(s[j]), key(s[i]))
  }

  /** The elements of `s` whose key is `v`, in the order they have in `s`. */
  function WithKey<T>(key: T -> string, s: seq<T>, v: string): seq<T>
  {
    if s == [] then [] else (if key(s[0]) == v then [s[0]] else []) + WithKey(key, s[1..], v)
  }

  /** Puts `x` in front of the first element whose key is not above its own. */
  function Insert<T>(key: T -> string, x: T, s: seq<T>): seq<T>
  {
    if s == [] then [x]
    else if Below(key(s[0]), key(x)) then [x] + s
    else [s[0]] + Insert(key, x, s[1..])
  }

  function SortDesc<T>(key: T -> string, s: seq<T>): seq<T>
  {
    if s == [] then [] else Insert(key, s[0], SortDesc(key, s[1..]))
  }

  lemma {:induction false} InsertPermutation<T>(key: T -> string, x: T, s: seq<T>)
    ensures multiset(Insert(key, x, s)) == multiset(s) + multiset{x}
  {
    if s != [] && !Below(key(s[0]), key(x)) {
      InsertPermutation(key, x, s[1..]);
      assert s == [s[0]] + s[1..];
    }
  }

  lemma {:induction false} InsertSorted<T>(key: T -> string, x: T, s: seq<T>)
    requires SortedDesc(key, s)
    ensures SortedDesc(key, Insert(key, x, s))
  {
    if s == [] {
    } else if Below(key(s[0]), key(x)) {
      var r := [x] + s;
      forall i, j | 0 <= i < j < |r| ensures Below(key(r[j]), key(r[i])) {
        if i == 0 {
          if j == 1 {
          } else {
            BelowTransitive(key(s[j - 1]), key(s[0]), key(x));
          }
        }
      }
    } else {
      var t := Insert(key, x, s[1..]);
      InsertSorted(key, x, s[1..]);
      InsertPermutation(key, x, s[1..]);
      BelowTotal(key(s[0]), key(x));
      var r := [s[0]] + t;
      forall i, j | 0 <= i < j < |r| ensures Below(key(r[j]), key(r[i])) {
        if i == 0 {
          assert r[j] == t[j - 1];
          assert t[j - 1] in multiset(t);
          if t[j - 1] != x {
            assert t[j - 1] in multiset(s[1..]);
            var k :| 0 <= k < |s[1..]| && s[1..][k] == t[j - 1];
            assert s[k + 1] == t[j - 1];
          }
        }
      }
    }
  }

  lemma {:induction false} InsertWithKey<T>(key: T -> string, x: T, s: seq<T>, v: string)
    ensures WithKey(key, Insert(key, x, s), v) == (if key(x) == v then [x] else []) + WithKey(key, s, v)
  {
    if s == [] {
      assert WithKey(key, [x], v) == (if key(x) == v then [x] else []) + WithKey(key, [], v);
    } else if Below(key(s[0]), key(x)) {
      assert ([x] + s)[1..] == s;
    } else {
      BelowReflexive(key(x));
      InsertWithKey(key, x, s[1..], v);
      assert ([s[0]] + Insert(key, x, s[1..]))[1..] == Insert(key, x, s[1..]);
    }
  }

  /** The sort rearranges its input and no more. */
  lemma {:induction false} SortPermutation<T>(key: T -> string, s: seq<T>)
    ensures multiset(SortDesc(key, s)) == multiset(s)
  {
    if s != [] {
      SortPermutation(key, s[1..]);
      InsertPermutation(key, s[0], SortDesc(key, s[1..]));
      assert s == [s[0]] + s[1..];
    }
  }

  /** The result is in non-increasing key order. */
  lemma {:induction false} SortSorted<T>(key: T -> string, s: seq<T>)
    ensures SortedDesc(key, SortDesc(key, s))
  {
    if s != [] {
      SortSorted(key, s[1..]);
      InsertSorted(key, s[0], SortDesc(key, s[1..]));
    }
  }

  /** Elements with equal keys keep their input order. */
  lemma {:induction false} SortStable<T>(key: T -> string, s: seq<T>, v: string)
    ensures WithKey(key, SortDesc(key, s), v) == WithKey(key, s, v)
  {
    if s != [] {
      SortStable(key, s[1..], v);
      InsertWithKey(key, s[0], SortDesc(key, s[1..]), v);
    }
  }
}
