/** LINQ's Distinct and OrderBy over sequences. OrderBy is a stable sort by a string key:
    it is modelled as insertion sort, placing each element after every element whose key
    is not greater. */
module Sorting {
  import opened Text

  predicate SortedBy<T>(s: seq<T>, key: T -> string) {
    forall i, j :: 0 <= i < j < |s| ==> StrLe(key(s[i]), key(s[j]))
  }

  /** Ascending without repetitions. */
  predicate StrictlyAscending(s: seq<string>) {
    forall i, j :: 0 <= i < j < |s| ==> StrLt(s[i], s[j])
  }

  function Identity(s: string): string {
    s
  }

  /** Inserts x before the first element whose key is strictly greater than x's. */
  function InsertBy<T>(x: T, s: seq<T>, key: T -> string): (r: seq<T>)
    ensures multiset(r) == multiset(s) + multiset{x}
  {
    if s == [] then [x]
    else if StrLt(key(x), key(s[0])) then [x] + s
    else
      assert s == [s[0]] + s[1..];
      [s[0]] + InsertBy(x, s[1..], key)
  }

  /** s.OrderBy(key): each element in turn inserted into the sorted prefix. */
  function SortBy<T>(s: seq<T>, key: T -> string): (r: seq<T>)
    ensures multiset(r) == multiset(s)
  {
    if s == [] then []
    else
      assert s == s[..|s| - 1] + [s[|s| - 1]];
      InsertBy(s[|s| - 1], SortBy(s[..|s| - 1], key), key)
  }

  /** s.Distinct(): the first occurrence of each value, in order. */
  function Distinct(s: seq<string>): (r: seq<string>)
    ensures forall i, j :: 0 <= i < j < |r| ==> r[i] != r[j]
    ensures forall x :: x in r <==> x in s
  {
    if s == [] then []
    else
      var d := Distinct(s[..|s| - 1]);
      assert s == s[..|s| - 1] + [s[|s| - 1]];
      if s[|s| - 1] in d then d else d + [s[|s| - 1]]
  }

  lemma {:induction false} InsertSorted<T>(x: T, s: seq<T>, key: T -> string)
    requires SortedBy(s, key)
    ensures SortedBy(InsertBy(x, s, key), key)
  {
    if s != [] {
      if StrLt(key(x), key(s[0])) {
        InsertSortedFront(x, s, key);
      } else {
        SortedTail(s, key);
        InsertSorted(x, s[1..], key);
        InsertSortedBehind(x, s, key);
      }
    }
  }

  lemma InsertSortedFront<T>(x: T, s: seq<T>, key: T -> string)
    requires SortedBy(s, key) && s != [] && StrLt(key(x), key(s[0]))
    ensures SortedBy(InsertBy(x, s, key), key)
  {
    assert InsertBy(x, s, key) == [x] + s;
    forall y | y in s
      ensures StrLe(key(x), key(y))
    {
      var k :| 0 <= k < |s| && s[k] == y;
      if k > 0 {
        StrLeTrans(key(x), key(s[0]), key(y));
      }
    }
    SortedCons(x, s, key);
  }

  lemma InsertSortedBehind<T>(x: T, s: seq<T>, key: T -> string)
    requires SortedBy(s, key) && s != [] && !StrLt(key(x), key(s[0]))
    requires SortedBy(InsertBy(x, s[1..], key), key)
    ensures SortedBy(InsertBy(x, s, key), key)
  {
    var t := InsertBy(x, s[1..], key);
    var r := InsertBy(x, s, key);
    assert r == [s[0]] + t;
    StrLeTotal(key(x), key(s[0]));
    if key(x) == key(s[0]) {
      StrLeRefl(key(x));
    }
    SortedHeadBelow(s, key);
    InsertAbove(x, s[1..], key, key(s[0]));
    SortedCons(s[0], t, key);
  }

  /** A sorted sequence stays sorted under a new first element whose key is at most every
      key in it. */
  lemma SortedCons<T>(h: T, t: seq<T>, key: T -> string)
    requires SortedBy(t, key) && forall y :: y in t ==> StrLe(key(h), key(y))
    ensures SortedBy([h] + t, key)
  {
    var r := [h] + t;
    forall i, j | 0 <= i < j < |r|
      ensures StrLe(key(r[i]), key(r[j]))
    {
      assert r[j] == t[j - 1] && r[j] in t;
      if i > 0 {
        assert r[i] == t[i - 1];
      }
    }
  }

  /** In a sorted sequence every later element has a key at least the first one's. */
  lemma SortedHeadBelow<T>(s: seq<T>, key: T -> string)
    requires SortedBy(s, key) && s != []
    ensures forall y :: y in s[1..] ==> StrLe(key(s[0]), key(y))
  {
    forall y | y in s[1..]
      ensures StrLe(key(s[0]), key(y))
    {
      var k :| 0 <= k < |s[1..]| && s[1..][k] == y;
      assert s[k + 1] == y;
    }
  }

  /** A lower bound on the keys of s and of x bounds the keys after the insertion. */
  lemma {:induction false} InsertAbove<T>(x: T, s: seq<T>, key: T -> string, lo: string)
    requires StrLe(lo, key(x)) && forall y :: y in s ==> StrLe(lo, key(y))
    ensures forall y :: y in InsertBy(x, s, key) ==> StrLe(lo, key(y))
  {
    if s != [] && !StrLt(key(x), key(s[0])) {
      assert forall y :: y in s[1..] ==> y in s;
      InsertAbove(x, s[1..], key, lo);
      assert InsertBy(x, s, key) == [s[0]] + InsertBy(x, s[1..], key);
    }
  }

  /** OrderBy produces a sequence sorted by the key. */
  lemma {:induction false} SortBySorted<T>(s: seq<T>, key: T -> string)
    ensures SortedBy(SortBy(s, key), key)
  {
    if s != [] {
      SortBySorted(s[..|s| - 1], key);
      InsertSorted(s[|s| - 1], SortBy(s[..|s| - 1], key), key);
    }
  }

  /** The elements of s with key k, in order. */
  function WithKey<T>(s: seq<T>, key: T -> string, k: string): (r: seq<T>)
    ensures forall x :: x in r ==> x in s && key(x) == k
  {
    if s == [] then []
    else (if key(s[0]) == k then [s[0]] else []) + WithKey(s[1..], key, k)
  }

  lemma {:induction false} WithKeyAppend<T>(a: seq<T>, b: seq<T>, key: T -> string, k: string)
    ensures WithKey(a + b, key, k) == WithKey(a, key, k) + WithKey(b, key, k)
  {
    if a == [] {
      assert a + b == b;
    } else {
      assert (a + b)[1..] == a[1..] + b;
      WithKeyAppend(a[1..], b, key, k);
    }
  }

  /** In a sorted sequence whose first key is above k, no element has key k. */
  lemma WithKeyAbove<T>(s: seq<T>, key: T -> string, k: string)
    requires SortedBy(s, key) && s != [] && StrLt(k, key(s[0]))
    ensures WithKey(s, key, k) == []
  {
    if WithKey(s, key, k) != [] {
      var x := WithKey(s, key, k)[0];
      assert x in WithKey(s, key, k);
      assert x in s && key(x) == k;
      var j :| 0 <= j < |s| && s[j] == x;
      if j > 0 {
        StrLeAntisym(key(s[0]), k);
      }
    }
  }

  lemma {:induction false} InsertStable<T>(x: T, s: seq<T>, key: T -> string, k: string)
    requires SortedBy(s, key)
    ensures WithKey(InsertBy(x, s, key), key, k)
         == WithKey(s, key, k) + (if key(x) == k then [x] else [])
  {
    if s == [] {
      assert InsertBy(x, s, key) == [x] && [x][1..] == [];
    } else if StrLt(key(x), key(s[0])) {
      InsertStableFront(x, s, key, k);
    } else {
      SortedTail(s, key);
      InsertStable(x, s[1..], key, k);
      InsertStableBehind(x, s, key, k);
    }
  }

  lemma SortedTail<T>(s: seq<T>, key: T -> string)
    requires SortedBy(s, key) && s != []
    ensures SortedBy(s[1..], key)
  {
    forall i, j | 0 <= i < j < |s[1..]|
      ensures StrLe(key(s[1..][i]), key(s[1..][j]))
    {
      assert s[1..][i] == s[i + 1] && s[1..][j] == s[j + 1];
    }
  }

  /** Inserting in front of a sorted sequence whose first key is above x's. */
  lemma InsertStableFront<T>(x: T, s: seq<T>, key: T -> string, k: string)
    requires SortedBy(s, key) && s != [] && StrLt(key(x), key(s[0]))
    ensures WithKey(InsertBy(x, s, key), key, k)
         == WithKey(s, key, k) + (if key(x) == k then [x] else [])
  {
    var tail := if key(x) == k then [x] else [];
    assert InsertBy(x, s, key) == [x] + s;
    assert ([x] + s)[1..] == s;
    assert WithKey([x] + s, key, k) == tail + WithKey(s, key, k);
    if key(x) == k {
      WithKeyAbove(s, key, k);
    }
  }

  /** Inserting behind the first element, given the result for the rest. */
  lemma InsertStableBehind<T>(x: T, s: seq<T>, key: T -> string, k: string)
    requires s != [] && !StrLt(key(x), key(s[0]))
    requires WithKey(InsertBy(x, s[1..], key), key, k)
          == WithKey(s[1..], key, k) + (if key(x) == k then [x] else [])
    ensures WithKey(InsertBy(x, s, key), key, k)
         == WithKey(s, key, k) + (if key(x) == k then [x] else [])
  {
    var tail := if key(x) == k then [x] else [];
    var head := if key(s[0]) == k then [s[0]] else [];
    var t := InsertBy(x, s[1..], key);
    assert InsertBy(x, s, key) == [s[0]] + t;
    assert ([s[0]] + t)[1..] == t;
    assert WithKey([s[0]] + t, key, k) == head + WithKey(t, key, k);
    assert WithKey(s, key, k) == head + WithKey(s[1..], key, k);
    AppendAssoc(head, WithKey(s[1..], key, k), tail);
  }

  lemma AppendAssoc<T>(a: seq<T>, b: seq<T>, c: seq<T>)
    ensures a + (b + c) == (a + b) + c
  {
  }

  /** OrderBy is stable: the elements sharing a key keep their input order. */
  lemma {:induction false} SortByStable<T>(s: seq<T>, key: T -> string, k: string)
    ensures WithKey(SortBy(s, key), key, k) == WithKey(s, key, k)
  {
    if s != [] {
      var init, x := s[..|s| - 1], s[|s| - 1];
      assert s == init + [x];
      var sorted := SortBy(init, key);
      assert SortBy(s, key) == InsertBy(x, sorted, key);
      SortByStable(init, key, k);
      SortBySorted(init, key);
      InsertStable(x, sorted, key, k);
      WithKeySnoc(init, x, key, k);
    }
  }

  lemma WithKeySnoc<T>(s: seq<T>, x: T, key: T -> string, k: string)
    ensures WithKey(s + [x], key, k) == WithKey(s, key, k) + (if key(x) == k then [x] else [])
  {
    WithKeyAppend(s, [x], key, k);
    assert [x][1..] == [];
    assert WithKey([x], key, k) == (if key(x) == k then [x] else []) + WithKey([], key, k);
  }

  /** A value found at two positions occurs at least twice. */
  lemma TwoOccurrences<T>(r: seq<T>, i: int, j: int)
    requires 0 <= i < j < |r| && r[i] == r[j]
    ensures multiset(r)[r[i]] >= 2
  {
    assert r == r[..j] + r[j..];
    assert r[i] in r[..j];
    assert r[j] == r[j..][0];
    assert multiset(r) == multiset(r[..j]) + multiset(r[j..]);
  }

  /** Sorting distinct strings yields a strictly ascending sequence of the same strings. */
  lemma SortDistinctAscending(s: seq<string>)
    requires forall i, j :: 0 <= i < j < |s| ==> s[i] != s[j]
    ensures StrictlyAscending(SortBy(s, Identity))
    ensures forall x :: x in SortBy(s, Identity) <==> x in s
  {
    var r := SortBy(s, Identity);
    SortBySorted(s, Identity);
    forall x
      ensures x in r <==> x in s
    {
      assert x in r <==> x in multiset(r);
    }
    forall i, j | 0 <= i < j < |r|
      ensures r[i] != r[j]
    {
      if r[i] == r[j] {
        TwoOccurrences(r, i, j);
        DistinctCount(s, r[i]);
      }
    }
    assert forall i, j :: 0 <= i < j < |r| ==> StrLe(Identity(r[i]), Identity(r[j]));
  }

  /** A value occurs at most once in a repetition-free sequence. */
  lemma {:induction false} DistinctCount<T>(s: seq<T>, x: T)
    requires forall i, j :: 0 <= i < j < |s| ==> s[i] != s[j]
    ensures multiset(s)[x] <= 1
  {
    if s != [] {
      assert s == [s[0]] + s[1..];
      DistinctCount(s[1..], x);
      if s[0] == x {
        assert x !in s[1..];
      }
    }
  }

  /** The key of every element, in order (a LINQ Select). */
  function Keys<T>(s: seq<T>, key: T -> string): (r: seq<string>)
    ensures |r| == |s| && forall i :: 0 <= i < |s| ==> r[i] == key(s[i])
    ensures forall k :: k in r <==> exists x :: x in s && key(x) == k
  {
    var r := seq(|s|, i requires 0 <= i < |s| => key(s[i]));
    assert forall x :: x in s ==> key(x) in r by {
      forall x | x in s
        ensures key(x) in r
      {
        var i :| 0 <= i < |s| && s[i] == x;
        assert r[i] == key(x);
      }
    }
    r
  }

  /** s.Distinct().OrderBy(v => v): every value once, in ascending order. */
  function DistinctSorted(s: seq<string>): (r: seq<string>)
    ensures StrictlyAscending(r)
    ensures forall x :: x in r <==> x in s
  {
    SortDistinctAscending(Distinct(s));
    SortBy(Distinct(s), Identity)
  }

  /** Filtering by key keeps every element with that key as often as it occurs, and
      drops every other element. */
  lemma {:induction false} WithKeyCount<T>(s: seq<T>, key: T -> string, k: string, x: T)
    ensures multiset(WithKey(s, key, k))[x] == if key(x) == k then multiset(s)[x] else 0
  {
    if s != [] {
      WithKeyCount(s[1..], key, k, x);
      assert s == [s[0]] + s[1..];
    }
  }
}
