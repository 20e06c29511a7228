/** The final step of the scorer: `sorted(scored_items, key=lambda x:
    x["viralScore"], reverse=True)`. Python's sort is stable, also with
    `reverse=True`, so items with equal scores keep their input order. The
    sort is modelled by a stable insertion sort, and `SortedIsUnique` shows
    that any stable descending sort gives the same list. */
module Ranking {
  import opened Items

  /** The sort key. Every item that reaches the sort has been scored; the
      default 0 for an unscored item is never used. */
  function Key(x: Item): int {
    if x.viralScore.Some? then x.viralScore.value else 0
  }

  /** Non-increasing by key. */
  ghost predicate SortedDesc(s: seq<Item>) {
    forall i, j :: 0 <= i < j < |s| ==> Key(s[i]) >= Key(s[j])
  }

  /** The items of `s` whose key is `k`, in the order of `s`. */
  function WithKey(s: seq<Item>, k: int): (r: seq<Item>)
    ensures |r| <= |s|
  {
    if s == [] then []
    else (if Key(s[0]) == k then [s[0]] else []) + WithKey(s[1..], k)
  }

  /** `WithKey` selects items of `s`, and only those with key `k`. */
  lemma {:induction false} WithKeyMembers(s: seq<Item>, k: int, x: Item)
    requires x in WithKey(s, k)
    ensures x in s && Key(x) == k
  {
    if s != [] && x in WithKey(s[1..], k) {
      WithKeyMembers(s[1..], k, x);
    }
  }

  /** A stable sort keeps, for every key, the items with that key in their
      input order: this is what "stable" means here. */
  ghost predicate SameOrderPerKey(a: seq<Item>, b: seq<Item>) {
    forall k :: WithKey(a, k) == WithKey(b, k)
  }

  /** Inserts `x` in front of the first item whose key is not above `x`'s. */
  function Insert(x: Item, t: seq<Item>): (r: seq<Item>)
    ensures |r| == |t| + 1
  {
    if t == [] then [x]
    else if Key(x) >= Key(t[0]) then [x] + t
    else [t[0]] + Insert(x, t[1..])
  }

  /** Inserting adds `x` and loses nothing. */
  lemma {:induction false} InsertPermutes(x: Item, t: seq<Item>)
    ensures multiset(Insert(x, t)) == multiset([x] + t)
  {
    if t != [] && Key(x) < Key(t[0]) {
      InsertPermutes(x, t[1..]);
      assert t == [t[0]] + t[1..];
    }
  }

  /** The model of `sorted(..., reverse=True)` on the viral score. */
  function SortByScore(s: seq<Item>): (r: seq<Item>)
    ensures |r| == |s|
  {
    if s == [] then []
    else Insert(s[0], SortByScore(s[1..]))
  }

  /** The result is a permutation of the input. */
  lemma {:induction false} SortByScorePermutes(s: seq<Item>)
    ensures multiset(SortByScore(s)) == multiset(s)
  {
    if s != [] {
      SortByScorePermutes(s[1..]);
      InsertPermutes(s[0], SortByScore(s[1..]));
      assert s == [s[0]] + s[1..];
    }
  }

  lemma {:induction false} WithKeyAppend(a: seq<Item>, b: seq<Item>, k: int)
    ensures WithKey(a + b, k) == WithKey(a, k) + WithKey(b, k)
  {
    if a != [] {
      assert (a + b)[1..] == a[1..] + b;
      WithKeyAppend(a[1..], b, k);
    } else {
      assert a + b == b;
    }
  }

  lemma {:induction false} InsertSorted(x: Item, t: seq<Item>)
    requires SortedDesc(t)
    ensures SortedDesc(Insert(x, t))
  {
    if t != [] && Key(x) < Key(t[0]) {
      var rest := Insert(x, t[1..]);
      InsertSorted(x, t[1..]);
      InsertPermutes(x, t[1..]);
      forall j | 0 <= j < |rest| ensures Key(t[0]) >= Key(rest[j]) {
        assert rest[j] in multiset([x] + t[1..]);
        if rest[j] != x {
          assert rest[j] in t[1..];
        }
      }
    }
  }

  lemma WithKeyCons(y: Item, r: seq<Item>, k: int)
    ensures WithKey([y] + r, k) == (if Key(y) == k then [y] else []) + WithKey(r, k)
  {
    assert ([y] + r)[1..] == r;
  }

  lemma {:induction false} InsertStable(x: Item, t: seq<Item>, k: int)
    ensures WithKey(Insert(x, t), k) == WithKey([x] + t, k)
  {
    if t != [] && Key(x) < Key(t[0]) {
      var t0, t' := t[0], t[1..];
      assert t == [t0] + t';
      var cx := if Key(x) == k then [x] else [];
      var c0 := if Key(t0) == k then [t0] else [];
      calc {
        WithKey(Insert(x, t), k);
        WithKey([t0] + Insert(x, t'), k);
        { WithKeyCons(t0, Insert(x, t'), k); }
        c0 + WithKey(Insert(x, t'), k);
        { InsertStable(x, t', k); }
        c0 + WithKey([x] + t', k);
        { WithKeyCons(x, t', k); }
        c0 + (cx + WithKey(t', k));
        { assert cx == [] || c0 == []; }
        cx + (c0 + WithKey(t', k));
        { WithKeyCons(t0, t', k); }
        cx + WithKey(t, k);
        { WithKeyCons(x, t, k); }
        WithKey([x] + t, k);
      }
    }
  }

  /** The result is in non-increasing order of viral score. */
  lemma {:induction false} SortByScoreSorted(s: seq<Item>)
    ensures SortedDesc(SortByScore(s))
  {
    if s != [] {
      SortByScoreSorted(s[1..]);
      InsertSorted(s[0], SortByScore(s[1..]));
    }
  }

  /** The sort is stable: for every score, the items with that score come out
      in the order they went in. */
  lemma {:induction false} SortByScoreStable(s: seq<Item>)
    ensures SameOrderPerKey(SortByScore(s), s)
  {
    if s != [] {
      SortByScoreStable(s[1..]);
      forall k ensures WithKey(SortByScore(s), k) == WithKey(s, k) {
        InsertStable(s[0], SortByScore(s[1..]), k);
        WithKeyAppend([s[0]], SortByScore(s[1..]), k);
        WithKeyAppend([s[0]], s[1..], k);
        assert s == [s[0]] + s[1..];
      }
    }
  }

  /** In a list sorted by key, the first item has the largest key. */
  lemma HeadIsMax(s: seq<Item>, x: Item)
    requires SortedDesc(s) && x in s
    ensures Key(x) <= Key(s[0])
  {
    var j :| 0 <= j < |s| && s[j] == x;
    assert j == 0 || Key(s[0]) >= Key(s[j]);
  }

  /** The first item is the first of those with its key. */
  lemma WithKeyHead(s: seq<Item>)
    requires s != []
    ensures WithKey(s, Key(s[0])) == [s[0]] + WithKey(s[1..], Key(s[0]))
  {
  }

  lemma WithKeyOther(s: seq<Item>, k: int)
    requires s != [] && Key(s[0]) != k
    ensures WithKey(s, k) == WithKey(s[1..], k)
  {
  }

  /** Two sorted lists that agree per key start with the same key. */
  lemma HeadKeysAgree(a: seq<Item>, b: seq<Item>)
    requires SortedDesc(a) && SortedDesc(b) && SameOrderPerKey(a, b)
    requires a != [] && b != []
    ensures Key(a[0]) == Key(b[0])
  {
    WithKeyHead(a);
    WithKeyHead(b);
    var xa := WithKey(b, Key(a[0]))[0];
    WithKeyMembers(b, Key(a[0]), xa);
    HeadIsMax(b, xa);
    var xb := WithKey(a, Key(b[0]))[0];
    WithKeyMembers(a, Key(b[0]), xb);
    HeadIsMax(a, xb);
  }

  /** The key of a non-empty list's first item selects at least one item. */
  lemma NonEmptyHasKey(s: seq<Item>)
    requires s != []
    ensures WithKey(s, Key(s[0])) != []
  {
    WithKeyHead(s);
  }

  /** A stable descending sort has exactly one possible result: two lists that
      are both sorted and agree on the order of each key's items are equal.
      So `SortByScore` is Python's `sorted`, whatever algorithm that runs. */
  lemma {:induction false} SortedIsUnique(a: seq<Item>, b: seq<Item>)
    requires SortedDesc(a) && SortedDesc(b) && SameOrderPerKey(a, b)
    ensures a == b
  {
    if a == [] || b == [] {
      if a != [] {
        NonEmptyHasKey(a);
      } else if b != [] {
        NonEmptyHasKey(b);
      }
    } else {
      HeadKeysAgree(a, b);
      var k0 := Key(a[0]);
      WithKeyHead(a);
      WithKeyHead(b);
      assert WithKey(a, k0) == WithKey(b, k0);
      assert WithKey(a, k0)[0] == a[0] && WithKey(b, k0)[0] == b[0];
      forall k ensures WithKey(a[1..], k) == WithKey(b[1..], k) {
        if k == k0 {
          assert WithKey(a[1..], k) == WithKey(a, k0)[1..];
          assert WithKey(b[1..], k) == WithKey(b, k0)[1..];
        } else {
          WithKeyOther(a, k);
          WithKeyOther(b, k);
          assert WithKey(a, k) == WithKey(b, k);
        }
      }
      SortedIsUnique(a[1..], b[1..]);
      assert a == [a[0]] + a[1..] && b == [b[0]] + b[1..];
    }
  }
}
