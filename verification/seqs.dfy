/** Sequence and query helpers shared by the sanitizer and the table model:
    optional values, filtering, the first row that matches a condition
    (what a single-row query returns), substring search (SQL `contains`)
    and offset/limit paging. */
module Seqs {

  datatype Option<T> = None | Some(value: T)

  function Min(a: int, b: int): int { if a <= b then a else b }

  /** The elements of `s` that satisfy `p`, in their original order. */
  function Filter<T(!new)>(s: seq<T>, p: T -> bool): (r: seq<T>)
    ensures |r| <= |s|
  {
    if s == [] then []
    else (if p(s[0]) then [s[0]] else []) + Filter(s[1..], p)
  }

  /** An element is kept exactly when it occurs in the input and passes. */
  lemma {:induction false} FilterMember<T(!new)>(s: seq<T>, p: T -> bool, x: T)
    ensures x in Filter(s, p) <==> x in s && p(x)
  {
    if s != [] {
      FilterMember(s[1..], p, x);
      assert s == [s[0]] + s[1..];
    }
  }

  /** Every element of the result passes and occurs in the input. */
  lemma {:induction false} FilterElements<T(!new)>(s: seq<T>, p: T -> bool)
    ensures forall k :: 0 <= k < |Filter(s, p)| ==> p(Filter(s, p)[k]) && Filter(s, p)[k] in s
  {
    var r := Filter(s, p);
    forall k | 0 <= k < |r|
      ensures p(r[k]) && r[k] in s
    {
      FilterMember(s, p, r[k]);
    }
  }

  lemma {:induction false} FilterAppend<T(!new)>(a: seq<T>, b: seq<T>, p: T -> bool)
    ensures Filter(a + b, p) == Filter(a, p) + Filter(b, p)
  {
    if a == [] {
      assert a + b == b;
    } else {
      var c := a + b;
      assert c[0] == a[0] && c[1..] == a[1..] + b;
      FilterAppend(a[1..], b, p);
      var head := if p(a[0]) then [a[0]] else [];
      calc {
        Filter(c, p);
        head + Filter(a[1..] + b, p);
        head + (Filter(a[1..], p) + Filter(b, p));
        (head + Filter(a[1..], p)) + Filter(b, p);
        Filter(a, p) + Filter(b, p);
      }
    }
  }

  /** Filtering keeps everything when every element passes. */
  lemma {:induction false} FilterAll<T(!new)>(s: seq<T>, p: T -> bool)
    requires forall i :: 0 <= i < |s| ==> p(s[i])
    ensures Filter(s, p) == s
  {
    if s != [] {
      FilterAll(s[1..], p);
    }
  }

  /** Filtering keeps nothing when no element passes. */
  lemma {:induction false} FilterNone<T(!new)>(s: seq<T>, p: T -> bool)
    requires forall i :: 0 <= i < |s| ==> !p(s[i])
    ensures Filter(s, p) == []
  {
    if s != [] {
      FilterNone(s[1..], p);
    }
  }

  /** Filtering twice is filtering once by a condition equivalent to both. */
  lemma {:induction false} FilterFilter<T(!new)>(s: seq<T>, p: T -> bool, q: T -> bool, both: T -> bool)
    requires forall x :: both(x) <==> p(x) && q(x)
    ensures Filter(Filter(s, p), q) == Filter(s, both)
  {
    if s != [] {
      FilterFilter(s[1..], p, q, both);
      var head := if p(s[0]) then [s[0]] else [];
      FilterAppend(head, Filter(s[1..], p), q);
    }
  }

  /** Index of the first element satisfying `p`: the row a single-row
      query returns when several rows match. */
  function FindFirst<T>(s: seq<T>, p: T -> bool): (r: Option<nat>)
    ensures r.Some? ==> r.value < |s| && p(s[r.value])
    ensures r.Some? ==> forall j :: 0 <= j < r.value ==> !p(s[j])
    ensures r.None? <==> forall j :: 0 <= j < |s| ==> !p(s[j])
  {
    if s == [] then None
    else if p(s[0]) then Some(0)
    else
      match FindFirst(s[1..], p)
      case None => None
      case Some(k) => Some(k + 1)
  }

  /** Two sequences whose elements agree position by position on the tested
      condition have their first match at the same index. */
  lemma FindFirstAgree<T, U>(s: seq<T>, p: T -> bool, s2: seq<U>, q: U -> bool)
    requires |s| == |s2| && forall i :: 0 <= i < |s| ==> p(s[i]) == q(s2[i])
    ensures FindFirst(s, p) == FindFirst(s2, q)
  {
    var a, b := FindFirst(s, p), FindFirst(s2, q);
    if a.Some? { assert q(s2[a.value]); }
    if b.Some? { assert p(s[b.value]); }
  }

  /** When no element of `s` satisfies `p` and `x` does, the first match of
      `s + [x]` is `x`. */
  lemma FindFirstAppend<T>(s: seq<T>, p: T -> bool, x: T)
    requires forall j :: 0 <= j < |s| ==> !p(s[j])
    requires p(x)
    ensures FindFirst(s + [x], p) == Some(|s|)
  {
    var t := s + [x];
    assert forall j :: 0 <= j < |s| ==> t[j] == s[j];
    assert p(t[|s|]);
  }

  /** `sub` occurs in `s` starting at position `i`. */
  predicate OccursAt<T(==)>(s: seq<T>, sub: seq<T>, i: int) {
    0 <= i && i + |sub| <= |s| && s[i..i + |sub|] == sub
  }

  /** `sub` occurs in `s` at some position. */
  function Contains<T(==)>(s: seq<T>, sub: seq<T>): (b: bool)
    ensures b <==> exists i :: OccursAt(s, sub, i)
    decreases |s|
  {
    if |sub| <= |s| && s[..|sub|] == sub then
      assert OccursAt(s, sub, 0);
      true
    else if s == [] then false
    else
      var b := Contains(s[1..], sub);
      assert forall i :: OccursAt(s[1..], sub, i) <==> OccursAt(s, sub, i + 1);
      assert b ==> exists i :: OccursAt(s, sub, i) by {
        if b {
          var i :| OccursAt(s[1..], sub, i);
          assert OccursAt(s, sub, i + 1);
        }
      }
      assert (exists i :: OccursAt(s, sub, i)) ==> b by {
        if exists i :: OccursAt(s, sub, i) {
          var i :| OccursAt(s, sub, i);
          assert i != 0;
          assert OccursAt(s[1..], sub, i - 1);
        }
      }
      b
  }

  /** OFFSET `offset` LIMIT `limit`: an absent offset skips nothing and an
      absent limit keeps every remaining row. */
  function Page<T>(s: seq<T>, offset: Option<nat>, limit: Option<nat>): (r: seq<T>)
    ensures var skip := if offset.Some? then offset.value else 0;
      && |r| == (if skip >= |s| then 0
                 else if limit.None? then |s| - skip
                 else Min(limit.value, |s| - skip))
      && forall k :: 0 <= k < |r| ==> skip + k < |s| && r[k] == s[skip + k]
  {
    var skip := if offset.Some? then offset.value else 0;
    var start := Min(skip, |s|);
    var stop := if limit.None? then |s| else Min(start + limit.value, |s|);
    s[start..stop]
  }
  /** A non-empty sequence is its head followed by its tail. */
  lemma HeadTail<T>(s: seq<T>)
    requires s != []
    ensures s == [s[0]] + s[1..]
  {
  }

  /** A sequence of one element is that element alone. */
  lemma Single<T>(s: seq<T>)
    requires |s| == 1
    ensures s == [s[0]]
  {
  }

  /** Taking every element gives the sequence back. */
  lemma TakeAll<T>(s: seq<T>)
    ensures s[..|s|] == s
  {
  }

  /** A sequence cut at `m` and then `n` further on is its three pieces. */
  lemma SliceThree<T>(s: seq<T>, m: nat, n: nat)
    requires m <= |s| && n <= |s| - m
    ensures s == s[..m] + s[m..][..n] + s[m..][n..]
  {
    assert s[m..] == s[m..][..n] + s[m..][n..];
  }

  /** Every element satisfies `p`. */
  predicate All<T>(s: seq<T>, p: T -> bool) {
    forall i :: 0 <= i < |s| ==> p(s[i])
  }

  /** The keys of `s` lie in [1, next) and strictly increase along `s`: the
      shape of an autoincrement primary-key column whose rows are appended
      in id order and never renumbered. */
  predicate Keyed<T>(s: seq<T>, key: T -> int, next: int) {
    && (forall i :: 0 <= i < |s| ==> 1 <= key(s[i]) < next)
    && (forall i, j :: 0 <= i < j < |s| ==> key(s[i]) < key(s[j]))
  }

  /** No two elements of `s` agree on `f`: a unique column. */
  predicate Distinct<T, U(==)>(s: seq<T>, f: T -> U) {
    forall i, j :: 0 <= i < j < |s| ==> f(s[i]) != f(s[j])
  }

  /** `s` without its element at index `k`. */
  function RemoveAt<T>(s: seq<T>, k: nat): (r: seq<T>)
    requires k < |s|
    ensures |r| == |s| - 1
    ensures forall i :: 0 <= i < k ==> r[i] == s[i]
    ensures forall i :: k <= i < |r| ==> r[i] == s[i + 1]
  {
    s[..k] + s[k + 1..]
  }

  /** Removing an element keeps every element that was not removed. */
  lemma RemoveAtMember<T>(s: seq<T>, k: nat, x: T)
    requires k < |s|
    ensures x in RemoveAt(s, k) <==> exists i :: 0 <= i < |s| && i != k && s[i] == x
  {
    var r := RemoveAt(s, k);
    if x in r {
      var j :| 0 <= j < |r| && r[j] == x;
      if j < k { assert s[j] == x; } else { assert s[j + 1] == x; }
    }
    if exists i :: 0 <= i < |s| && i != k && s[i] == x {
      var i :| 0 <= i < |s| && i != k && s[i] == x;
      if i < k { assert r[i] == x; } else { assert r[i - 1] == x; }
    }
  }

  /** Appending the next key keeps a key column well formed. */
  lemma KeyedAppend<T>(s: seq<T>, key: T -> int, next: int, x: T)
    requires Keyed(s, key, next) && 1 <= next && key(x) == next
    ensures Keyed(s + [x], key, next + 1)
  {
  }

  lemma KeyedRemove<T>(s: seq<T>, key: T -> int, next: int, k: nat)
    requires Keyed(s, key, next) && k < |s|
    ensures Keyed(RemoveAt(s, k), key, next)
  {
    var r := RemoveAt(s, k);
    forall i, j | 0 <= i < j < |r|
      ensures key(r[i]) < key(r[j])
    {
      var i' := if i < k then i else i + 1;
      var j' := if j < k then j else j + 1;
      assert r[i] == s[i'] && r[j] == s[j'];
    }
  }

  /** Replacing a row by one with the same key keeps a key column well formed. */
  lemma KeyedReplace<T>(s: seq<T>, key: T -> int, next: int, k: nat, x: T)
    requires Keyed(s, key, next) && k < |s| && key(x) == key(s[k])
    ensures Keyed(s[k := x], key, next)
  {
    var r := s[k := x];
    forall i, j | 0 <= i < j < |r|
      ensures key(r[i]) < key(r[j])
    {
      assert key(r[i]) == key(s[i]) && key(r[j]) == key(s[j]);
    }
  }

  /** Appending a value that no row has keeps a column unique. */
  lemma DistinctAppend<T, U>(s: seq<T>, f: T -> U, x: T)
    requires Distinct(s, f) && forall i :: 0 <= i < |s| ==> f(s[i]) != f(x)
    ensures Distinct(s + [x], f)
  {
    var r := s + [x];
    forall i, j | 0 <= i < j < |r|
      ensures f(r[i]) != f(r[j])
    {
      assert r[i] == s[i];
    }
  }

  lemma DistinctRemove<T, U>(s: seq<T>, f: T -> U, k: nat)
    requires Distinct(s, f) && k < |s|
    ensures Distinct(RemoveAt(s, k), f)
  {
    var r := RemoveAt(s, k);
    forall i, j | 0 <= i < j < |r|
      ensures f(r[i]) != f(r[j])
    {
      var i' := if i < k then i else i + 1;
      var j' := if j < k then j else j + 1;
      assert r[i] == s[i'] && r[j] == s[j'];
    }
  }

  /** Overwriting a row keeps a column unique when the new value occurs in no
      other row. */
  lemma DistinctReplace<T, U>(s: seq<T>, f: T -> U, k: nat, x: T)
    requires Distinct(s, f) && k < |s|
    requires forall i :: 0 <= i < |s| && i != k ==> f(s[i]) != f(x)
    ensures Distinct(s[k := x], f)
  {
    var r := s[k := x];
    forall i, j | 0 <= i < j < |r|
      ensures f(r[i]) != f(r[j])
    {
      if i != k && j != k {
        assert r[i] == s[i] && r[j] == s[j];
      } else if i == k {
        assert r[j] == s[j];
      } else {
        assert r[i] == s[i];
      }
    }
  }

  lemma AllAppend<T>(s: seq<T>, p: T -> bool, x: T)
    requires All(s, p) && p(x)
    ensures All(s + [x], p)
  {
  }

  lemma AllRemove<T>(s: seq<T>, p: T -> bool, k: nat)
    requires All(s, p) && k < |s|
    ensures All(RemoveAt(s, k), p)
  {
    var r := RemoveAt(s, k);
    forall i | 0 <= i < |r|
      ensures p(r[i])
    {
      if i < k { assert r[i] == s[i]; } else { assert r[i] == s[i + 1]; }
    }
  }

  lemma AllReplace<T>(s: seq<T>, p: T -> bool, k: nat, x: T)
    requires All(s, p) && k < |s| && p(x)
    ensures All(s[k := x], p)
  {
  }
}
