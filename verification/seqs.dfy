/** Sequence scans shared by the store's lookups and queries: the two loop shapes the
    in-process store uses everywhere, "first element that matches" and "every element
    that matches, in order". */
module Seqs {
  import opened Options

  /** Index of the first element satisfying `p` (a `for` loop that returns or breaks on the first hit). */
  function FirstIndex<T>(s: seq<T>, p: T -> bool): (r: Option<nat>)
    ensures r.Some? ==> r.value < |s| && p(s[r.value])
    ensures r.Some? ==> forall k :: 0 <= k < r.value ==> !p(s[k])
    ensures r.None? ==> forall k :: 0 <= k < |s| ==> !p(s[k])
  {
    if |s| == 0 then None
    else if p(s[0]) then Some(0)
    else match FirstIndex(s[1..], p)
      case None => None
      case Some(k) => Some(k + 1)
  }

  /** The elements satisfying `p`, in their original order (a list comprehension with a condition). */
  function Filter<T(!new)>(s: seq<T>, p: T -> bool): (r: seq<T>)
    ensures |r| <= |s|
    ensures forall x :: x in r <==> x in s && p(x)
    ensures KeepsOrder(s, r)
  {
    if |s| == 0 then []
    else
      var rest := Filter(s[1..], p);
      KeepOrDropHead(s, rest, p(s[0]));
      (if p(s[0]) then [s[0]] else []) + rest
  }

  lemma FilterDropsHead<T(!new)>(s: seq<T>, p: T -> bool)
    requires |s| > 0 && !p(s[0])
    ensures Filter(s, p) == Filter(s[1..], p)
  {
    assert [] + Filter(s[1..], p) == Filter(s[1..], p);
  }

  lemma FilterKeepsHead<T(!new)>(s: seq<T>, p: T -> bool)
    requires |s| > 0 && p(s[0])
    ensures Filter(s, p) == [s[0]] + Filter(s[1..], p)
  {
  }

  lemma {:induction false} FilterAppend<T(!new)>(a: seq<T>, b: seq<T>, p: T -> bool)
    ensures Filter(a + b, p) == Filter(a, p) + Filter(b, p)
  {
    if |a| == 0 {
      assert a + b == b;
    } else {
      var head := if p(a[0]) then [a[0]] else [];
      assert (a + b)[0] == a[0] && (a + b)[1..] == a[1..] + b;
      FilterAppend(a[1..], b, p);
      assert Filter(a + b, p) == head + (Filter(a[1..], p) + Filter(b, p));
      assert Filter(a, p) == head + Filter(a[1..], p);
    }
  }

  /** Filtering keeps every element exactly when all of them satisfy the condition. */
  lemma {:induction false} FilterKeepsAll<T(!new)>(s: seq<T>, p: T -> bool)
    requires forall k :: 0 <= k < |s| ==> p(s[k])
    ensures Filter(s, p) == s
  {
    if |s| > 0 {
      FilterKeepsAll(s[1..], p);
    }
  }

  /** Two conditions that agree on every element filter alike. */
  lemma {:induction false} FilterCongruent<T(!new)>(s: seq<T>, p: T -> bool, q: T -> bool)
    requires forall k :: 0 <= k < |s| ==> p(s[k]) == q(s[k])
    ensures Filter(s, p) == Filter(s, q)
  {
    if |s| > 0 {
      FilterCongruent(s[1..], p, q);
    }
  }

  /** `x` occurs at some position before a position holding `y`. */
  ghost predicate InOrder<T>(s: seq<T>, x: T, y: T) {
    exists a, b :: 0 <= a < b < |s| && s[a] == x && s[b] == y
  }

  /** Any two elements of `r` appear in `s` in the order they have in `r`. */
  ghost predicate KeepsOrder<T>(s: seq<T>, r: seq<T>) {
    forall i, j :: 0 <= i < j < |r| ==> InOrder(s, r[i], r[j])
  }

  lemma InOrderShift<T>(s: seq<T>, x: T, y: T)
    requires |s| > 0 && InOrder(s[1..], x, y)
    ensures InOrder(s, x, y)
  {
    var a, b :| 0 <= a < b < |s[1..]| && s[1..][a] == x && s[1..][b] == y;
    assert s[a + 1] == x && s[b + 1] == y;
  }

  lemma HeadBefore<T>(s: seq<T>, y: T)
    requires |s| > 0 && y in s[1..]
    ensures InOrder(s, s[0], y)
  {
    var b :| 0 <= b < |s[1..]| && s[1..][b] == y;
    assert s[b + 1] == y;
  }

  /** One step of a scan that keeps or drops the head: an ordered selection from the tail,
      with or without the head in front, is an ordered selection from the whole. */
  lemma KeepOrDropHead<T>(s: seq<T>, rest: seq<T>, keep: bool)
    requires |s| > 0 && KeepsOrder(s[1..], rest) && forall x :: x in rest ==> x in s[1..]
    ensures KeepsOrder(s, (if keep then [s[0]] else []) + rest)
  {
    var r := (if keep then [s[0]] else []) + rest;
    var d := if keep then 1 else 0;
    forall i, j | 0 <= i < j < |r|
      ensures InOrder(s, r[i], r[j])
    {
      assert r[j] == rest[j - d];
      if keep && i == 0 {
        assert rest[j - d] in rest;
        HeadBefore(s, r[j]);
      } else {
        assert r[i] == rest[i - d];
        InOrderShift(s, r[i], r[j]);
      }
    }
  }

  /** A prefix of a prefix is a prefix. */
  lemma PrefixTrans<T>(a: seq<T>, b: seq<T>, c: seq<T>)
    requires |a| <= |b| <= |c| && b[..|a|] == a && c[..|b|] == b
    ensures c[..|a|] == a
  {
    assert c[..|a|] == c[..|b|][..|a|];
  }
}
