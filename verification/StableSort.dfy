/** `Vec::sort_by_key`: a stable sort by an integer key. */
module StableSort {
  ghost predicate Sorted<T>(s: seq<T>, key: T -> int) {
    forall i, j | 0 <= i < j < |s| :: key(s[i]) <= key(s[j])
  }

  /** The elements with one key, in their order. */
  ghost function WithKey<T>(s: seq<T>, key: T -> int, k: int): seq<T> {
    if s == [] then []
    else (if key(s[0]) == k then [s[0]] else []) + WithKey(s[1..], key, k)
  }

  /** Sorted, the same elements, and equal keys keep their order. */
  function SortByKey<T>(s: seq<T>, key: T -> int): (r: seq<T>)
    ensures Sorted(r, key)
    ensures multiset(r) == multiset(s)
    ensures |r| == |s|
    ensures forall k :: WithKey(r, key, k) == WithKey(s, key, k)
  {
    if s == [] then []
    else
      assert s == [s[0]] + s[1..];
      Insert(s[0], SortByKey(s[1..], key), key)
  }

  /** In front of the first element whose key is not smaller. */
  function Insert<T>(x: T, s: seq<T>, key: T -> int): (r: seq<T>)
    requires Sorted(s, key)
    ensures Sorted(r, key)
    ensures multiset(r) == multiset([x]) + multiset(s)
    ensures |r| == |s| + 1
    ensures forall k :: WithKey(r, key, k) == WithKey([x] + s, key, k)
  {
    if s == [] || key(x) <= key(s[0]) then [x] + s
    else
      var rest := Insert(x, s[1..], key);
      assert s == [s[0]] + s[1..];
      InsertKeeps(x, s, rest, key);
      [s[0]] + rest
  }

  lemma InsertKeeps<T>(x: T, s: seq<T>, rest: seq<T>, key: T -> int)
    requires s != [] && Sorted(s, key) && Sorted(rest, key) && key(s[0]) < key(x)
    requires multiset(rest) == multiset([x]) + multiset(s[1..])
    requires forall k :: WithKey(rest, key, k) == WithKey([x] + s[1..], key, k)
    ensures Sorted([s[0]] + rest, key)
    ensures forall k :: WithKey([s[0]] + rest, key, k) == WithKey([x] + s, key, k)
  {
    HeadIsSmallest(x, s, rest, key);
    forall k ensures WithKey([s[0]] + rest, key, k) == WithKey([x] + s, key, k) {
      HeadsCommute(x, s, rest, key, k);
    }
  }

  lemma HeadIsSmallest<T>(x: T, s: seq<T>, rest: seq<T>, key: T -> int)
    requires s != [] && Sorted(s, key) && key(s[0]) < key(x)
    requires multiset(rest) == multiset([x]) + multiset(s[1..])
    ensures forall j | 0 <= j < |rest| :: key(s[0]) <= key(rest[j])
  {
    forall j | 0 <= j < |rest| ensures key(s[0]) <= key(rest[j]) {
      assert rest[j] in multiset(rest);
      if rest[j] != x {
        assert rest[j] in s[1..];
      }
    }
  }

  lemma HeadsCommute<T>(x: T, s: seq<T>, rest: seq<T>, key: T -> int, k: int)
    requires s != [] && key(s[0]) < key(x)
    requires WithKey(rest, key, k) == WithKey([x] + s[1..], key, k)
    ensures WithKey([s[0]] + rest, key, k) == WithKey([x] + s, key, k)
  {
    assert ([s[0]] + rest)[1..] == rest;
    assert ([x] + s)[1..] == s && ([x] + s[1..])[1..] == s[1..];
  }
}
