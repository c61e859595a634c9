/** Sequence operations with the meaning of the JavaScript array methods the
    handlers chain together (filter, map, find, filter(Boolean)), and the
    key-uniqueness notions the relational store relies on. */
module Seqs {

  datatype Option<+T> = None | Some(value: T)

  /** The elements of s that satisfy p, in their original order
      (Array.prototype.filter). */
  function Filter<T(!new)>(p: T -> bool, s: seq<T>): (r: seq<T>)
    ensures |r| <= |s|
    ensures forall x :: x in r <==> x in s && p(x)
  {
    if s == [] then []
    else (if p(s[0]) then [s[0]] else []) + Filter(p, s[1..])
  }

  /** f applied to every element, positions kept (Array.prototype.map). */
  function Map<T, U>(f: T -> U, s: seq<T>): (r: seq<U>)
    ensures |r| == |s|
    ensures forall k :: 0 <= k < |s| ==> r[k] == f(s[k])
  {
    if s == [] then [] else [f(s[0])] + Map(f, s[1..])
  }

  /** The present values, in order: `filter(Boolean)` over a list whose
      entries are either an object (always truthy) or null. */
  function Somes<T(!new)>(s: seq<Option<T>>): (r: seq<T>)
    ensures |r| <= |s|
    ensures forall x :: x in r <==> Some(x) in s
  {
    if s == [] then []
    else (if s[0].Some? then [s[0].value] else []) + Somes(s[1..])
  }

  /** k is the first position of s whose element satisfies p. */
  predicate IsFirst<T>(p: T -> bool, s: seq<T>, k: int) {
    0 <= k < |s| && p(s[k]) && forall j :: 0 <= j < k ==> !p(s[j])
  }

  /** The first element satisfying p, if any (Array.prototype.find). */
  function Find<T>(p: T -> bool, s: seq<T>): (r: Option<T>)
    ensures r.None? <==> forall x :: x in s ==> !p(x)
    ensures r.Some? ==> exists k :: IsFirst(p, s, k) && s[k] == r.value
  {
    if s == [] then None
    else if p(s[0]) then (assert IsFirst(p, s, 0); Some(s[0]))
    else
      var r := Find(p, s[1..]);
      assert r.Some? ==> exists k :: IsFirst(p, s, k) && s[k] == r.value by {
        if r.Some? {
          var k :| IsFirst(p, s[1..], k) && s[1..][k] == r.value;
          assert IsFirst(p, s, k + 1);
        }
      }
      r
  }

  lemma {:induction false} FilterConcat<T(!new)>(p: T -> bool, a: seq<T>, b: seq<T>)
    ensures Filter(p, a + b) == Filter(p, a) + Filter(p, b)
  {
    if a == [] {
      assert a + b == b;
    } else {
      assert (a + b)[1..] == a[1..] + b;
      FilterConcat(p, a[1..], b);
    }
  }

  /** Appending an element appends it to the result exactly when it passes.
      Together with `Filter(p, [])` being empty (the length bound), this fixes
      the result completely: order and repetitions are those of the input. */
  lemma FilterAppend<T(!new)>(p: T -> bool, s: seq<T>, x: T)
    ensures Filter(p, s + [x]) == Filter(p, s) + (if p(x) then [x] else [])
  {
    FilterConcat(p, s, [x]);
    assert [x][1..] == [];
  }

  /** Filtering with a predicate that no element satisfies leaves nothing. */
  lemma {:induction false} FilterKeepsNone<T(!new)>(p: T -> bool, s: seq<T>)
    requires forall x :: x in s ==> !p(x)
    ensures Filter(p, s) == []
  {
    if s != [] {
      assert forall x :: x in s[1..] ==> x in s;
      FilterKeepsNone(p, s[1..]);
    }
  }

  /** Filtering with a predicate that every element satisfies changes nothing. */
  lemma {:induction false} FilterKeepsAll<T(!new)>(p: T -> bool, s: seq<T>)
    requires forall x :: x in s ==> p(x)
    ensures Filter(p, s) == s
  {
    if s != [] {
      assert forall x :: x in s[1..] ==> x in s;
      FilterKeepsAll(p, s[1..]);
    }
  }

  lemma {:induction false} MapConcat<T, U>(f: T -> U, a: seq<T>, b: seq<T>)
    ensures Map(f, a + b) == Map(f, a) + Map(f, b)
  {
    assert |Map(f, a + b)| == |Map(f, a) + Map(f, b)|;
    forall k | 0 <= k < |a + b|
      ensures Map(f, a + b)[k] == (Map(f, a) + Map(f, b))[k]
    {
      if k < |a| {
        assert (a + b)[k] == a[k];
      } else {
        assert (a + b)[k] == b[k - |a|];
      }
    }
  }

  lemma {:induction false} SomesConcat<T(!new)>(a: seq<Option<T>>, b: seq<Option<T>>)
    ensures Somes(a + b) == Somes(a) + Somes(b)
  {
    if a == [] {
      assert a + b == b;
    } else {
      assert (a + b)[1..] == a[1..] + b;
      SomesConcat(a[1..], b);
    }
  }

  /** Appending an entry appends its value exactly when it is present; with
      `Somes([])` empty this fixes the result, order and repetitions included. */
  lemma SomesAppend<T(!new)>(s: seq<Option<T>>, o: Option<T>)
    ensures Somes(s + [o]) == Somes(s) + (if o.Some? then [o.value] else [])
  {
    SomesConcat(s, [o]);
    assert [o][1..] == [];
  }

  /** The set of keys a table's rows carry in one column. */
  function Keys<T(==), K>(key: T -> K, s: seq<T>): set<K> {
    set x | x in s :: key(x)
  }

  /** No two rows of s carry the same key (a primary-key or unique constraint). */
  predicate KeysUnique<T(==), K(==)>(key: T -> K, s: seq<T>)
    decreases |s|
  {
    s == [] || (key(s[0]) !in Keys(key, s[1..]) && KeysUnique(key, s[1..]))
  }

  lemma KeysConcat<T, K>(key: T -> K, a: seq<T>, b: seq<T>)
    ensures Keys(key, a + b) == Keys(key, a) + Keys(key, b)
  {
    forall k | k in Keys(key, a + b) ensures k in Keys(key, a) + Keys(key, b) {
      var x :| x in a + b && key(x) == k;
    }
    forall k | k in Keys(key, a) + Keys(key, b) ensures k in Keys(key, a + b) {
      if k in Keys(key, a) {
        var x :| x in a && key(x) == k;
        assert x in a + b;
      } else {
        var x :| x in b && key(x) == k;
        assert x in a + b;
      }
    }
  }

  lemma KeysFilter<T(!new), K>(key: T -> K, p: T -> bool, s: seq<T>)
    ensures Keys(key, Filter(p, s)) <= Keys(key, s)
  {
    forall k | k in Keys(key, Filter(p, s)) ensures k in Keys(key, s) {
      var x :| x in Filter(p, s) && key(x) == k;
    }
  }

  /** Two key-unique tables with disjoint keys stay key-unique when appended;
      this is the store's check for a (multi-row) insert. */
  lemma {:induction false} UniqueConcat<T, K>(key: T -> K, a: seq<T>, b: seq<T>)
    requires KeysUnique(key, a) && KeysUnique(key, b)
    requires Keys(key, a) !! Keys(key, b)
    ensures KeysUnique(key, a + b)
  {
    if a == [] {
      assert a + b == b;
    } else {
      assert (a + b)[1..] == a[1..] + b;
      KeysConcat(key, a[1..], b);
      KeysConcat(key, [a[0]], a[1..]);
      assert a == [a[0]] + a[1..];
      UniqueConcat(key, a[1..], b);
    }
  }

  /** Deleting rows never breaks key uniqueness. */
  lemma {:induction false} UniqueFilter<T(!new), K>(key: T -> K, p: T -> bool, s: seq<T>)
    requires KeysUnique(key, s)
    ensures KeysUnique(key, Filter(p, s))
  {
    if s != [] {
      UniqueFilter(key, p, s[1..]);
      KeysFilter(key, p, s[1..]);
      var rest := Filter(p, s[1..]);
      if p(s[0]) {
        assert Filter(p, s) == [s[0]] + rest;
        assert ([s[0]] + rest)[1..] == rest;
      } else {
        assert Filter(p, s) == rest;
      }
    }
  }

  /** Appending one row whose key is new keeps the keys unique and adds that key. */
  lemma UniqueAppendOne<T, K>(key: T -> K, s: seq<T>, x: T)
    requires KeysUnique(key, s) && key(x) !in Keys(key, s)
    ensures KeysUnique(key, s + [x])
    ensures Keys(key, s + [x]) == Keys(key, s) + {key(x)}
  {
    assert Keys(key, [x]) == {key(x)};
    assert KeysUnique(key, [x]) by { assert [x][1..] == []; }
    KeysConcat(key, s, [x]);
    UniqueConcat(key, s, [x]);
  }

  /** filter(Boolean) drops nothing from a list with no null in it. */
  lemma {:induction false} SomesKeepsAll<T(!new)>(s: seq<Option<T>>)
    requires forall k :: 0 <= k < |s| ==> s[k].Some?
    ensures |Somes(s)| == |s|
  {
    if s != [] {
      SomesKeepsAll(s[1..]);
    }
  }
}
