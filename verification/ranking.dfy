/** The re-ranking step of `get_textbox` in easyocr/detection.py: Python's
    stable `sorted` over (shape, character count) pairs, keyed by how far
    the count is from the expected number of characters. */
module Ranking {

  /** `abs(target - count)`. */
  function Distance(target: int, count: int): nat {
    if count <= target then target - count else count - target
  }

  /** The sort key of a (shape, count) pair. */
  function Key<P>(target: int, e: (P, int)): nat {
    Distance(target, e.1)
  }

  /** Keys never decrease along `s`. */
  predicate Ordered<P>(target: int, s: seq<(P, int)>) {
    forall i, j :: 0 <= i < j < |s| ==> Key(target, s[i]) <= Key(target, s[j])
  }

  /** The pairs of `s` whose key is `d`, in their order in `s`. */
  function WithKey<P>(target: int, s: seq<(P, int)>, d: nat): (r: seq<(P, int)>)
    ensures |r| <= |s|
  {
    if |s| == 0 then []
    else (if Key(target, s[0]) == d then [s[0]] else []) + WithKey(target, s[1..], d)
  }

  /** `t` is what a stable sort of `s` by key returns: keys never decrease,
      and for every key the pairs holding it appear in the same order as in
      `s`. */
  ghost predicate StablySorted<P>(target: int, t: seq<(P, int)>, s: seq<(P, int)>) {
    && Ordered(target, t)
    && forall d: nat :: WithKey(target, t, d) == WithKey(target, s, d)
  }

  /** Insert `e` before the first pair whose key is not smaller than its own. */
  function Insert<P>(target: int, e: (P, int), s: seq<(P, int)>): (r: seq<(P, int)>)
    ensures |r| == |s| + 1
  {
    if |s| == 0 then [e]
    else if Key(target, e) <= Key(target, s[0]) then [e] + s
    else [s[0]] + Insert(target, e, s[1..])
  }

  /** Selecting by key distributes over a leading pair. */
  lemma WithKeyCons<P>(target: int, e: (P, int), s: seq<(P, int)>, d: nat)
    ensures WithKey(target, [e] + s, d) == (if Key(target, e) == d then [e] else []) + WithKey(target, s, d)
  {
    assert ([e] + s)[1..] == s;
  }

  /** Insertion keeps the keys in order. */
  lemma {:induction false} InsertOrdered<P>(target: int, e: (P, int), s: seq<(P, int)>)
    requires Ordered(target, s)
    ensures Ordered(target, Insert(target, e, s))
  {
    if |s| > 0 && Key(target, e) > Key(target, s[0]) {
      InsertOrdered(target, e, s[1..]);
      var t := Insert(target, e, s[1..]);
      InsertHead(target, e, s[1..]);
      assert Ordered(target, [s[0]] + t);
    }
  }

  /** The first pair after an insertion is either the inserted one or the
      first pair before it. */
  lemma InsertHead<P>(target: int, e: (P, int), s: seq<(P, int)>)
    ensures Insert(target, e, s)[0] == e || (|s| > 0 && Insert(target, e, s)[0] == s[0])
  {
  }

  /** The inserted pair goes ahead of every pair with its own key, so each
      key's selection gains `e` at its front and is otherwise unchanged. */
  lemma {:induction false} InsertWithKey<P>(target: int, e: (P, int), s: seq<(P, int)>, d: nat)
    ensures WithKey(target, Insert(target, e, s), d) ==
      (if Key(target, e) == d then [e] else []) + WithKey(target, s, d)
  {
    if |s| == 0 {
      WithKeyCons(target, e, [], d);
    } else if Key(target, e) <= Key(target, s[0]) {
      WithKeyCons(target, e, s, d);
    } else {
      InsertWithKey(target, e, s[1..], d);
      WithKeyCons(target, s[0], Insert(target, e, s[1..]), d);
      WithKeyCons(target, s[0], s[1..], d);
      assert [s[0]] + s[1..] == s;
    }
  }

  /** Insertion adds exactly `e`. */
  lemma {:induction false} InsertPermutes<P>(target: int, e: (P, int), s: seq<(P, int)>)
    ensures multiset(Insert(target, e, s)) == multiset(s) + multiset{e}
  {
    if |s| > 0 && Key(target, e) > Key(target, s[0]) {
      InsertPermutes(target, e, s[1..]);
      assert s == [s[0]] + s[1..];
    }
  }

  /** Inserting `e` into a stable sort of `s` gives a stable sort of `e`
      followed by `s`. */
  lemma InsertKeepsStable<P>(target: int, e: (P, int), t: seq<(P, int)>, s: seq<(P, int)>)
    requires StablySorted(target, t, s)
    ensures StablySorted(target, Insert(target, e, t), [e] + s)
  {
    InsertOrdered(target, e, t);
    forall d: nat
      ensures WithKey(target, Insert(target, e, t), d) == WithKey(target, [e] + s, d)
    {
      InsertWithKey(target, e, t, d);
      WithKeyCons(target, e, s, d);
    }
  }

  /** `sorted(s, key=lambda x: abs(target - x[1]))`, as an insertion sort that
      inserts each pair ahead of the pairs after it with the same key: the
      result is a stable sort of `s` by key, and a rearrangement of `s`. */
  function StableSort<P>(target: int, s: seq<(P, int)>): (r: seq<(P, int)>)
    ensures |r| == |s|
    ensures StablySorted(target, r, s)
    ensures multiset(r) == multiset(s)
  {
    if |s| == 0 then []
    else
      var t := StableSort(target, s[1..]);
      InsertKeepsStable(target, s[0], t, s[1..]);
      InsertPermutes(target, s[0], t);
      assert [s[0]] + s[1..] == s;
      Insert(target, s[0], t)
  }

  /** Every pair of `s` is selected by its own key. */
  lemma {:induction false} WithOwnKey<P>(target: int, s: seq<(P, int)>, i: nat)
    requires i < |s|
    ensures |WithKey(target, s, Key(target, s[i]))| > 0
  {
    if i > 0 {
      WithOwnKey(target, s[1..], i - 1);
    }
  }

  /** Only pairs of `s` holding key `d` are selected by `d`. */
  lemma {:induction false} WithKeyMember<P>(target: int, s: seq<(P, int)>, d: nat)
    requires |WithKey(target, s, d)| > 0
    ensures exists i :: 0 <= i < |s| && Key(target, s[i]) == d
  {
    if Key(target, s[0]) != d {
      WithKeyMember(target, s[1..], d);
      var i :| 0 <= i < |s[1..]| && Key(target, s[1..][i]) == d;
      assert Key(target, s[i + 1]) == d;
    }
  }

  /** Two key-ordered sequences that agree on every key's selection are
      equal: a stable sort has exactly one possible result. */
  lemma {:induction false} StablySortedUnique<P>(target: int, t: seq<(P, int)>, u: seq<(P, int)>)
    requires Ordered(target, t) && Ordered(target, u)
    requires forall d: nat :: WithKey(target, t, d) == WithKey(target, u, d)
    ensures t == u
  {
    if |t| == 0 || |u| == 0 {
      if |t| > 0 {
        WithOwnKey(target, t, 0);
      } else if |u| > 0 {
        WithOwnKey(target, u, 0);
      }
    } else {
      var a := Key(target, t[0]);
      var b := Key(target, u[0]);
      WithOwnKey(target, t, 0);
      WithKeyMember(target, u, a);
      WithOwnKey(target, u, 0);
      WithKeyMember(target, t, b);
      assert a == b;
      WithKeyCons(target, t[0], t[1..], a);
      WithKeyCons(target, u[0], u[1..], a);
      assert [t[0]] + t[1..] == t && [u[0]] + u[1..] == u;
      assert WithKey(target, t, a)[0] == t[0];
      assert WithKey(target, u, a)[0] == u[0];
      assert WithKey(target, t, a) == WithKey(target, u, a);
      forall d: nat
        ensures WithKey(target, t[1..], d) == WithKey(target, u[1..], d)
      {
        WithKeyCons(target, t[0], t[1..], d);
        WithKeyCons(target, u[0], u[1..], d);
        var head := if a == d then [t[0]] else [];
        assert head + WithKey(target, t[1..], d) == head + WithKey(target, u[1..], d);
        assert (head + WithKey(target, t[1..], d))[|head|..] == WithKey(target, t[1..], d);
        assert (head + WithKey(target, u[1..], d))[|head|..] == WithKey(target, u[1..], d);
      }
      StablySortedUnique(target, t[1..], u[1..]);
    }
  }

  /** Any stable sort of `s` by key, such as Python's `sorted`, returns what
      StableSort returns. */
  lemma StableSortAgrees<P>(target: int, s: seq<(P, int)>, t: seq<(P, int)>)
    requires StablySorted(target, t, s)
    ensures t == StableSort(target, s)
  {
    StablySortedUnique(target, t, StableSort(target, s));
  }
}
