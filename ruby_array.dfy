/**
 * The Array operations of Ruby the lottery engine uses: `select`, `uniq`, `uniq(&:key)`,
 * `-` (difference) and `&` (intersection).
 */
module RubyArray {

  /** `Array#select`. */
  function Filter<T(==,!new)>(s: seq<T>, keep: T -> bool): (r: seq<T>)
    ensures |r| <= |s|
    ensures forall x :: x in r <==> x in s && keep(x)
  {
    if |s| == 0 then []
    else (if keep(s[0]) then [s[0]] else []) + Filter(s[1..], keep)
  }

  /** The keys of the elements of `s`. */
  ghost function KeySet<T(!new), K>(s: seq<T>, key: T -> K): set<K> {
    set x | x in s :: key(x)
  }

  /** `x` is the first element of `s` with its key. */
  ghost predicate IsFirstWithKey<T, K>(s: seq<T>, key: T -> K, x: T) {
    exists k :: 0 <= k < |s| && s[k] == x && forall m :: 0 <= m < k ==> key(s[m]) != key(x)
  }

  /** Keys are pairwise distinct. */
  ghost predicate DistinctKeys<T, K>(s: seq<T>, key: T -> K) {
    forall i, j :: 0 <= i < j < |s| ==> key(s[i]) != key(s[j])
  }

  /** What `uniq` with a block promises, continued past a set of keys already seen. */
  ghost predicate UniqOf<T(!new), K>(s: seq<T>, key: T -> K, seen: set<K>, r: seq<T>) {
    && (forall i :: 0 <= i < |r| ==> key(r[i]) !in seen && IsFirstWithKey(s, key, r[i]))
    && DistinctKeys(r, key)
    && KeySet(r, key) == KeySet(s, key) - seen
  }

  function UniqFrom<T(==,!new), K(==)>(s: seq<T>, key: T -> K, seen: set<K>): (r: seq<T>)
    ensures UniqOf(s, key, seen, r)
    decreases |s|
  {
    if |s| == 0 then []
    else if key(s[0]) in seen then
      var r := UniqFrom(s[1..], key, seen);
      UniqSkip(s, key, seen, r);
      r
    else
      var rest := UniqFrom(s[1..], key, seen + {key(s[0])});
      UniqKeep(s, key, seen, rest);
      [s[0]] + rest
  }

  lemma KeySetOfCons<T(!new), K>(s: seq<T>, key: T -> K)
    requires |s| > 0
    ensures KeySet(s, key) == {key(s[0])} + KeySet(s[1..], key)
  {
    assert forall x :: x in s <==> x == s[0] || x in s[1..];
  }

  lemma FirstWithKeyOfTail<T(!new), K>(s: seq<T>, key: T -> K, x: T)
    requires |s| > 0 && key(s[0]) != key(x)
    requires IsFirstWithKey(s[1..], key, x)
    ensures IsFirstWithKey(s, key, x)
  {
    var tail := s[1..];
    var k :| 0 <= k < |tail| && tail[k] == x && forall m :: 0 <= m < k ==> key(tail[m]) != key(x);
    assert s[k + 1] == x;
    forall m | 0 <= m < k + 1 ensures key(s[m]) != key(x) {
      if m > 0 { assert s[m] == tail[m - 1]; }
    }
  }

  lemma UniqSkip<T(!new), K>(s: seq<T>, key: T -> K, seen: set<K>, r: seq<T>)
    requires |s| > 0 && key(s[0]) in seen
    requires UniqOf(s[1..], key, seen, r)
    ensures UniqOf(s, key, seen, r)
  {
    KeySetOfCons(s, key);
    forall i | 0 <= i < |r| ensures IsFirstWithKey(s, key, r[i]) {
      FirstWithKeyOfTail(s, key, r[i]);
    }
  }

  lemma UniqKeep<T(!new), K>(s: seq<T>, key: T -> K, seen: set<K>, rest: seq<T>)
    requires |s| > 0 && key(s[0]) !in seen
    requires UniqOf(s[1..], key, seen + {key(s[0])}, rest)
    ensures UniqOf(s, key, seen, [s[0]] + rest)
  {
    var r := [s[0]] + rest;
    KeySetOfCons(s, key);
    KeySetOfCons(r, key);
    assert r[1..] == rest;
    forall i | 0 <= i < |r| ensures key(r[i]) !in seen && IsFirstWithKey(s, key, r[i]) {
      if i == 0 {
        assert s[0] == r[0];
      } else {
        assert r[i] == rest[i - 1];
        FirstWithKeyOfTail(s, key, r[i]);
      }
    }
    forall i, j | 0 <= i < j < |r| ensures key(r[i]) != key(r[j]) {
      if i > 0 { assert r[i] == rest[i - 1]; }
      assert r[j] == rest[j - 1];
    }
  }

  /** `Array#uniq(&key)`: the first element of each key, in order. */
  function UniqBy<T(==,!new), K(==)>(s: seq<T>, key: T -> K): (r: seq<T>)
    ensures DistinctKeys(r, key)
    ensures KeySet(r, key) == KeySet(s, key)
    ensures forall i :: 0 <= i < |r| ==> IsFirstWithKey(s, key, r[i])
  {
    var r := UniqFrom(s, key, {});
    assert KeySet(s, key) - {} == KeySet(s, key);
    r
  }

  /** Distinct elements. */
  ghost predicate Distinct<T>(s: seq<T>) {
    forall i, j :: 0 <= i < j < |s| ==> s[i] != s[j]
  }

  /** `Array#uniq`: the first occurrence of each element, in order. */
  function Uniq<T(==,!new)>(s: seq<T>): (r: seq<T>)
    ensures Distinct(r)
    ensures forall x :: x in r <==> x in s
  {
    var r := UniqBy(s, Id);
    assert forall x :: x in r <==> x in s by {
      forall x ensures x in r <==> x in s {
        if x in s { assert Id(x) in KeySet(s, Id); }
        if x in r { assert Id(x) in KeySet(r, Id); }
      }
    }
    r
  }

  /** Each element is its own key for `uniq` without a block. */
  function Id<T>(x: T): T {
    x
  }

  /**
   * Past keys `seen` that `s` does not use, a `uniq` of `s` with distinct keys followed by an
   * element whose key was already met keeps exactly `s`.
   */
  lemma {:induction false} UniqFromAppendMet<T(!new), K>(s: seq<T>, key: T -> K, seen: set<K>, x: T)
    requires DistinctKeys(s, key)
    requires forall i :: 0 <= i < |s| ==> key(s[i]) !in seen
    requires key(x) in seen || exists i :: 0 <= i < |s| && key(s[i]) == key(x)
    ensures UniqFrom(s + [x], key, seen) == s
    decreases |s|
  {
    if |s| == 0 {
      assert s + [x] == [x] && [x][1..] == [];
    } else {
      var t := s + [x];
      assert t[0] == s[0] && t[1..] == s[1..] + [x];
      var seen' := seen + {key(s[0])};
      forall i | 0 <= i < |s[1..]| ensures key(s[1..][i]) !in seen' {
        assert s[1..][i] == s[i + 1];
      }
      if key(x) !in seen' {
        var i :| 0 <= i < |s| && key(s[i]) == key(x);
        assert key(s[1..][i - 1]) == key(x);
      }
      UniqFromAppendMet(s[1..], key, seen', x);
      assert [s[0]] + s[1..] == s;
    }
  }

  /** `uniq` of distinct elements followed by one of them gives back the distinct elements. */
  lemma UniqAppendPresent<T(!new)>(s: seq<T>, x: T)
    requires Distinct(s) && x in s
    ensures Uniq(s + [x]) == s
  {
    var i :| 0 <= i < |s| && s[i] == x;
    assert Id(s[i]) == Id(x);
    UniqFromAppendMet(s, Id, {}, x);
  }

  /** `a - b` keeps all of `a` when `a` and `b` share nothing. */
  lemma {:induction false} DifferenceDisjoint<T(!new)>(a: seq<T>, b: seq<T>)
    requires forall x :: x in a ==> x !in b
    ensures Difference(a, b) == a
  {
    FilterAll(a, x => x !in b);
  }

  /** Selecting with a test every element passes keeps the whole sequence. */
  lemma {:induction false} FilterAll<T(!new)>(s: seq<T>, keep: T -> bool)
    requires forall x :: x in s ==> keep(x)
    ensures Filter(s, keep) == s
    decreases |s|
  {
    if |s| > 0 {
      assert s[0] in s;
      forall x | x in s[1..] ensures keep(x) {
        assert x in s;
      }
      FilterAll(s[1..], keep);
      assert [s[0]] + s[1..] == s;
    }
  }

  /** `a - b`: every element of `a` that is not in `b`, in order. */
  function Difference<T(==,!new)>(a: seq<T>, b: seq<T>): (r: seq<T>)
    ensures forall x :: x in r <==> x in a && x !in b
  {
    Filter(a, x => x !in b)
  }

  /** `a & b`: the distinct elements of `a` that are also in `b`, in order. */
  function Intersection<T(==,!new)>(a: seq<T>, b: seq<T>): (r: seq<T>)
    ensures Distinct(r)
    ensures forall x :: x in r <==> x in a && x in b
    ensures r == [] <==> forall x :: x in a ==> x !in b
  {
    var r := Uniq(Filter(a, x => x in b));
    assert r != [] ==> r[0] in r;
    r
  }
}
