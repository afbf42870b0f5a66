/**
 * The LINQ operators the controllers compose into queries: `Where`,
 * `OrderByDescending`, `Skip`/`Take`, and `Math.Clamp`.
 */
module Linq {

  import opened Wrappers

  /** `Where`: the elements of `s` that satisfy `p`, in their original order. */
  function Where<T>(s: seq<T>, p: T -> bool): (r: seq<T>)
    ensures |r| <= |s|
    ensures forall i :: 0 <= i < |r| ==> p(r[i])
  {
    if s == [] then []
    else (if p(s[0]) then [s[0]] else []) + Where(s[1..], p)
  }

  /** `Where` takes each element at most as often as it occurs. */
  lemma {:induction false} WhereSubMultiset<T>(s: seq<T>, p: T -> bool)
    ensures multiset(Where(s, p)) <= multiset(s)
  {
    if s != [] {
      WhereSubMultiset(s[1..], p);
      assert s == [s[0]] + s[1..];
    }
  }

  /** An element that passes is kept. */
  lemma {:induction false} WhereKeeps<T>(s: seq<T>, p: T -> bool, i: int)
    requires 0 <= i < |s| && p(s[i])
    ensures s[i] in Where(s, p)
  {
    if i > 0 {
      WhereKeeps(s[1..], p, i - 1);
      assert s[i] == s[1..][i - 1];
    }
  }

  /** `Where` keeps exactly the elements of `s` that pass. */
  lemma WhereMembers<T>(s: seq<T>, p: T -> bool)
    ensures multiset(Where(s, p)) <= multiset(s)
    ensures forall k :: 0 <= k < |Where(s, p)| ==> Where(s, p)[k] in s
    ensures forall i :: 0 <= i < |s| && p(s[i]) ==> s[i] in Where(s, p)
  {
    var r := Where(s, p);
    WhereSubMultiset(s, p);
    forall k | 0 <= k < |r| ensures r[k] in s {
      assert r[k] in multiset(r);
    }
    forall i | 0 <= i < |s| && p(s[i]) ensures s[i] in r {
      WhereKeeps(s, p, i);
    }
  }

  /** Filtering a concatenation filters each part. */
  lemma {:induction false} WhereAppend<T>(a: seq<T>, b: seq<T>, p: T -> bool)
    ensures Where(a + b, p) == Where(a, p) + Where(b, p)
  {
    if a == [] {
      assert a + b == b;
    } else {
      assert (a + b)[0] == a[0] && (a + b)[1..] == a[1..] + b;
      WhereAppend(a[1..], b, p);
    }
  }

  /** Filtering keeps everything when every element passes. */
  lemma {:induction false} WhereAll<T>(s: seq<T>, p: T -> bool)
    requires forall i :: 0 <= i < |s| ==> p(s[i])
    ensures Where(s, p) == s
  {
    if s != [] {
      WhereAll(s[1..], p);
    }
  }

  /** Filtering drops everything when no element passes. */
  lemma {:induction false} WhereNone<T>(s: seq<T>, p: T -> bool)
    requires forall i :: 0 <= i < |s| ==> !p(s[i])
    ensures Where(s, p) == []
  {
    if s != [] {
      WhereNone(s[1..], p);
    }
  }

  /** Newest first: keys never increase along `s`. */
  ghost predicate DescendingBy<T>(s: seq<T>, key: T -> int) {
    forall i, j :: 0 <= i < j < |s| ==> key(s[i]) >= key(s[j])
  }

  /** An element whose key is not below the first key can go in front. */
  lemma PrependDescending<T>(x: T, s: seq<T>, key: T -> int)
    requires DescendingBy(s, key)
    requires s == [] || key(s[0]) <= key(x)
    ensures DescendingBy([x] + s, key)
  {
    var r := [x] + s;
    forall i, j | 0 <= i < j < |r| ensures key(r[i]) >= key(r[j]) {
      assert r[j] == s[j - 1];
      if i > 0 {
        assert r[i] == s[i - 1];
      }
    }
  }

  /** Putting `head` in front keeps the order when its key tops every other key. */
  lemma ConsDescending<T>(head: T, rest: seq<T>, x: T, tail: seq<T>, key: T -> int)
    requires DescendingBy(rest, key)
    requires multiset(rest) == multiset(tail) + multiset{x}
    requires key(head) > key(x)
    requires forall i :: 0 <= i < |tail| ==> key(head) >= key(tail[i])
    ensures DescendingBy([head] + rest, key)
  {
    forall k | 0 <= k < |rest| ensures key(head) >= key(rest[k]) {
      assert rest[k] in multiset(rest);
      if rest[k] != x {
        assert rest[k] in multiset(tail);
        assert rest[k] in tail;
      }
    }
    var r := [head] + rest;
    forall i, j | 0 <= i < j < |r| ensures key(r[i]) >= key(r[j]) {
      assert r[j] == rest[j - 1];
      if i > 0 {
        assert r[i] == rest[i - 1];
      }
    }
  }

  /** Inserts `x` before the first element whose key is not greater than its own. */
  function InsertDesc<T>(x: T, s: seq<T>, key: T -> int): (r: seq<T>)
    requires DescendingBy(s, key)
    ensures DescendingBy(r, key)
    ensures multiset(r) == multiset(s) + multiset{x}
    ensures |r| == |s| + 1
  {
    if s == [] || key(s[0]) <= key(x) then
      PrependDescending(x, s, key);
      [x] + s
    else
      var rest := InsertDesc(x, s[1..], key);
      assert s == [s[0]] + s[1..];
      ConsDescending(s[0], rest, x, s[1..], key);
      [s[0]] + rest
  }

  /**
   * `OrderByDescending(key)`: a permutation of `s` with keys never increasing.
   * Among equal keys the earlier element comes first; see
   * `DescendingDetermined` for when that choice makes no difference.
   */
  function SortByKeyDesc<T>(s: seq<T>, key: T -> int): (r: seq<T>)
    ensures DescendingBy(r, key)
    ensures multiset(r) == multiset(s)
    ensures |r| == |s|
  {
    if s == [] then []
    else
      assert s == [s[0]] + s[1..];
      InsertDesc(s[0], SortByKeyDesc(s[1..], key), key)
  }

  /** `Math.Clamp(v, lo, hi)`. */
  function Clamp(v: int, lo: int, hi: int): (r: int)
    requires lo <= hi
    ensures lo <= r <= hi
    ensures lo <= v <= hi ==> r == v
    ensures v < lo ==> r == lo
    ensures hi < v ==> r == hi
  {
    if v < lo then lo else if hi < v then hi else v
  }

  /** `Skip(offset).Take(limit)`: the window of `s` starting at `offset`, at most `limit` long. */
  function SkipTake<T>(s: seq<T>, offset: nat, limit: nat): (r: seq<T>)
    ensures |r| == if offset >= |s| then 0 else if offset + limit <= |s| then limit else |s| - offset
    ensures forall k :: 0 <= k < |r| ==> r[k] == s[offset + k]
  {
    if offset >= |s| then []
    else if offset + limit <= |s| then s[offset..offset + limit]
    else s[offset..]
  }

  /** A window holds each element at most as often as the whole does. */
  lemma SkipTakeSubMultiset<T>(s: seq<T>, offset: nat, limit: nat)
    ensures multiset(SkipTake(s, offset, limit)) <= multiset(s)
  {
    var r := SkipTake(s, offset, limit);
    if offset < |s| {
      var end := offset + |r|;
      assert r == s[offset..end];
      assert s == s[..offset] + s[offset..end] + s[end..];
    }
  }

  /** Within `m`, elements with equal keys are equal. */
  ghost predicate KeyIdentifies<T>(m: multiset<T>, key: T -> int) {
    forall x, y :: x in m && y in m && key(x) == key(y) ==> x == y
  }

  /** Fewer elements cannot break `KeyIdentifies`. */
  lemma KeyIdentifiesSub<T>(m: multiset<T>, n: multiset<T>, key: T -> int)
    requires m <= n && KeyIdentifies(n, key)
    ensures KeyIdentifies(m, key)
  {
    forall x, y | x in m && y in m && key(x) == key(y) ensures x == y {
      assert x in n && y in n;
    }
  }

  /** A sequence's elements are its first element and the rest. */
  lemma HeadTailMultiset<T>(s: seq<T>)
    requires s != []
    ensures multiset(s) == multiset{s[0]} + multiset(s[1..])
  {
    assert s == [s[0]] + s[1..];
  }

  /** Dropping the first element keeps the order. */
  lemma DescendingTail<T>(s: seq<T>, key: T -> int)
    requires s != [] && DescendingBy(s, key)
    ensures DescendingBy(s[1..], key)
  {
    var t := s[1..];
    forall i, j | 0 <= i < j < |t| ensures key(t[i]) >= key(t[j]) {
      assert t[i] == s[i + 1] && t[j] == s[j + 1];
    }
  }

  /** Two non-increasing arrangements of the same elements start alike when keys identify elements. */
  lemma HeadsAgree<T>(a: seq<T>, b: seq<T>, key: T -> int)
    requires a != [] && DescendingBy(a, key) && DescendingBy(b, key)
    requires multiset(a) == multiset(b) && KeyIdentifies(multiset(a), key)
    ensures b != [] && a[0] == b[0]
  {
    assert a[0] in multiset(b);
    var j :| 0 <= j < |b| && b[j] == a[0];
    assert b[0] in multiset(a);
    var i :| 0 <= i < |a| && a[i] == b[0];
    assert key(b[0]) >= key(b[j]);
    assert key(a[0]) >= key(a[i]);
  }

  /** After equal first elements, the rests are again two arrangements of the same elements. */
  lemma TailsMatch<T>(a: seq<T>, b: seq<T>, key: T -> int)
    requires a != [] && b != [] && a[0] == b[0]
    requires DescendingBy(a, key) && DescendingBy(b, key)
    requires multiset(a) == multiset(b) && KeyIdentifies(multiset(a), key)
    ensures DescendingBy(a[1..], key) && DescendingBy(b[1..], key)
    ensures multiset(a[1..]) == multiset(b[1..]) && KeyIdentifies(multiset(a[1..]), key)
  {
    DescendingTail(a, key);
    DescendingTail(b, key);
    HeadTailMultiset(a);
    HeadTailMultiset(b);
    assert multiset(a[1..]) == multiset(a) - multiset{a[0]};
    assert multiset(b[1..]) == multiset(b) - multiset{b[0]};
    KeyIdentifiesSub(multiset(a[1..]), multiset(a), key);
  }

  /** A sequence with no elements is empty. */
  lemma EmptyMultiset<T>(s: seq<T>)
    requires multiset(s) == multiset{}
    ensures s == []
  {
    assert |s| == |multiset(s)|;
  }

  /** Sequences with the same first element and the same rest are equal. */
  lemma SameHeadSameTail<T>(a: seq<T>, b: seq<T>)
    requires a != [] && b != [] && a[0] == b[0] && a[1..] == b[1..]
    ensures a == b
  {
    assert a == [a[0]] + a[1..] && b == [b[0]] + b[1..];
  }

  /**
   * When elements with equal keys are equal, a non-increasing order is
   * unique: any two such arrangements of the same elements coincide.
   */
  lemma {:induction false} DescendingDetermined<T>(a: seq<T>, b: seq<T>, key: T -> int)
    requires DescendingBy(a, key) && DescendingBy(b, key)
    requires multiset(a) == multiset(b) && KeyIdentifies(multiset(a), key)
    ensures a == b
  {
    if a == [] {
      EmptyMultiset(b);
    } else {
      HeadsAgree(a, b, key);
      TailsMatch(a, b, key);
      DescendingDetermined(a[1..], b[1..], key);
      SameHeadSameTail(a, b);
    }
  }

  /** Two adjacent windows make one window: paging through a result loses and repeats nothing. */
  lemma AdjacentWindows<T>(s: seq<T>, offset: nat, first: nat, second: nat)
    ensures SkipTake(s, offset, first) + SkipTake(s, offset + first, second)
            == SkipTake(s, offset, first + second)
  {
    var a, b, c := SkipTake(s, offset, first), SkipTake(s, offset + first, second), SkipTake(s, offset, first + second);
    assert |a + b| == |c|;
    forall k | 0 <= k < |c| ensures (a + b)[k] == c[k] {
      if k >= |a| {
        assert (a + b)[k] == b[k - |a|];
      }
    }
  }

  /** The index of the first element that satisfies `p`, or `|s|` when none does. */
  function FirstIndex<T>(s: seq<T>, p: T -> bool): (r: nat)
    ensures r <= |s|
    ensures r < |s| ==> p(s[r])
    ensures forall j :: 0 <= j < r ==> !p(s[j])
  {
    if s == [] || p(s[0]) then 0 else 1 + FirstIndex(s[1..], p)
  }

  /** `FirstOrDefault(p)`: the first element that satisfies `p`, or nothing when none does. */
  function FirstOrDefault<T>(s: seq<T>, p: T -> bool): (r: Option<T>)
    ensures r.None? <==> forall i :: 0 <= i < |s| ==> !p(s[i])
    ensures r.Some? ==> r == Some(s[FirstIndex(s, p)])
  {
    var i := FirstIndex(s, p);
    if i < |s| then Some(s[i]) else None
  }
}
