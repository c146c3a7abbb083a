/**
 * `sorted(items, key=str.lower)` (server.py:40) over the entries of a directory:
 * a stable insertion sort on the lower-cased name.
 */
module Sorting {
  import opened PyStr
  import opened FileSystem

  /** The sort key of an entry. */
  function Key(n: Node): string
  {
    Lower(n.name)
  }

  predicate SortedByKey(xs: seq<Node>)
  {
    forall i, j :: 0 <= i < j < |xs| ==> LexLe(Key(xs[i]), Key(xs[j]))
  }

  /** Put `x` after every element whose key is not above its own. */
  function Insert(x: Node, xs: seq<Node>): (r: seq<Node>)
    requires SortedByKey(xs)
    ensures SortedByKey(r)
    ensures multiset(r) == multiset(xs) + multiset{x}
    decreases |xs|
  {
    if xs == [] then [x]
    else
      var init, last := xs[..|xs| - 1], xs[|xs| - 1];
      if LexLe(Key(last), Key(x)) then
        AppendAbove(x, xs);
        xs + [x]
      else
        LexLeTotal(Key(last), Key(x));
        assert xs == init + [last];
        var r0 := Insert(x, init);
        InsertBelow(x, init, r0, last);
        r0 + [last]
  }

  /** Appending an element whose key is at least the last key keeps the order. */
  lemma AppendAbove(x: Node, xs: seq<Node>)
    requires SortedByKey(xs) && xs != [] && LexLe(Key(xs[|xs| - 1]), Key(x))
    ensures SortedByKey(xs + [x])
  {
    forall i | 0 <= i < |xs|
      ensures LexLe(Key(xs[i]), Key(x))
    {
      if i < |xs| - 1 {
        LexLeTrans(Key(xs[i]), Key(xs[|xs| - 1]), Key(x));
      }
    }
  }

  /** Every element of `Insert(x, init)` is at most `last` when `x` and all of `init` are. */
  lemma InsertBelow(x: Node, init: seq<Node>, r0: seq<Node>, last: Node)
    requires SortedByKey(init + [last]) && LexLe(Key(x), Key(last))
    requires multiset(r0) == multiset(init) + multiset{x}
    requires SortedByKey(r0)
    ensures SortedByKey(r0 + [last])
  {
    forall i | 0 <= i < |r0|
      ensures LexLe(Key(r0[i]), Key(last))
    {
      assert r0[i] in multiset(r0);
      if r0[i] != x {
        assert r0[i] in multiset(init);
        var k :| 0 <= k < |init| && init[k] == r0[i];
        assert (init + [last])[k] == init[k];
        assert (init + [last])[|init|] == last;
      }
    }
  }

  /** `sorted(entries, key=lower)` */
  function SortByKey(xs: seq<Node>): (r: seq<Node>)
    ensures SortedByKey(r)
    ensures multiset(r) == multiset(xs)
    decreases |xs|
  {
    if xs == [] then []
    else
      assert xs == xs[..|xs| - 1] + [xs[|xs| - 1]];
      Insert(xs[|xs| - 1], SortByKey(xs[..|xs| - 1]))
  }

  /** Sorting keeps exactly the entries it was given. */
  lemma SortedMembers(xs: seq<Node>, n: Node)
    ensures n in SortByKey(xs) <==> n in xs
  {
    assert n in SortByKey(xs) <==> n in multiset(SortByKey(xs));
    assert n in xs <==> n in multiset(xs);
  }
  /** The entries of `xs` whose key is `k`, in their order in `xs`. */
  function WithKey(xs: seq<Node>, k: string): (r: seq<Node>)
    ensures forall i :: 0 <= i < |r| ==> Key(r[i]) == k
    decreases |xs|
  {
    if xs == [] then []
    else
      var last := xs[|xs| - 1];
      WithKey(xs[..|xs| - 1], k) + (if Key(last) == k then [last] else [])
  }

  /** Inserting `x` puts it after every entry of equal key. */
  lemma {:induction false} InsertStable(x: Node, xs: seq<Node>, k: string)
    requires SortedByKey(xs)
    ensures WithKey(Insert(x, xs), k) == WithKey(xs, k) + (if Key(x) == k then [x] else [])
    decreases |xs|
  {
    if xs != [] {
      var init, last := xs[..|xs| - 1], xs[|xs| - 1];
      if LexLe(Key(last), Key(x)) {
        assert Insert(x, xs) == xs + [x];
        WithKeySnoc(xs, x, k);
      } else {
        LexLeRefl(Key(x));
        var r0 := Insert(x, init);
        assert Insert(x, xs) == r0 + [last];
        InsertStable(x, init, k);
        WithKeySnoc(r0, last, k);
        InsertBeforeLast(WithKey(init, k), x, last, k);
      }
    }
  }

  lemma WithKeySnoc(xs: seq<Node>, y: Node, k: string)
    ensures WithKey(xs + [y], k) == WithKey(xs, k) + (if Key(y) == k then [y] else [])
  {
    assert (xs + [y])[..|xs|] == xs;
  }

  /** Two entries of different keys: at most one of them is kept, so their order does not matter. */
  lemma InsertBeforeLast(w: seq<Node>, x: Node, last: Node, k: string)
    requires Key(x) != Key(last)
    ensures w + (if Key(x) == k then [x] else []) + (if Key(last) == k then [last] else []) ==
            w + (if Key(last) == k then [last] else []) + (if Key(x) == k then [x] else [])
  {
  }

  /** The entries of one key keep their relative order through the sort: it is stable. */
  lemma {:induction false} SortStable(xs: seq<Node>, k: string)
    ensures WithKey(SortByKey(xs), k) == WithKey(xs, k)
    decreases |xs|
  {
    if xs != [] {
      var init, last := xs[..|xs| - 1], xs[|xs| - 1];
      SortStable(init, k);
      InsertStable(last, SortByKey(init), k);
    }
  }
}
