/** The window `Skip(skip).Limit(top)` applied after sorting by id, and an
    independent description of it by rank: the i-th document of a page is
    the stored document with exactly `skip + i` ids before it. */
module Paging {
  import opened Wrappers
  import opened Entities
  import opened DocumentStore
  import opened IdOrder

  /** `xs` lists the store: each document once, each stored document present. */
  predicate ListsStore(s: Store, xs: seq<Entity>) {
    && (forall i :: 0 <= i < |xs| ==> xs[i].id.Some? && xs[i].id.value in s && s[xs[i].id.value] == xs[i])
    && (forall k :: k in s ==> s[k] in xs)
    && DistinctKeys(xs)
  }

  /** How many stored ids sort before `k` in the given direction. */
  function Rank(s: Store, k: string, ascending: bool): nat {
    |set j | j in s.Keys && Before(j, k, ascending)|
  }

  function Abs(x: int): nat {
    if x < 0 then -x else x
  }

  /** Number of documents a page holds: what is left after skipping, capped
      by the limit, where a limit of 0 means no limit and a negative limit
      is taken by magnitude. */
  function PageSize(n: nat, skip: nat, top: int): nat {
    var available := if skip < n then n - skip else 0;
    if top == 0 || Abs(top) >= available then available else Abs(top)
  }

  /** `page` is the page of `s` at offset `skip` with limit `top`. */
  predicate IsPage(s: Store, skip: nat, top: int, ascending: bool, page: seq<Entity>) {
    && |page| == PageSize(|s|, skip, top)
    && forall i :: 0 <= i < |page| ==>
         && page[i].id.Some? && page[i].id.value in s && s[page[i].id.value] == page[i]
         && Rank(s, Key(page[i]), ascending) == skip + i
  }

  /** Skip, then limit, on an already ordered sequence. */
  function Window(xs: seq<Entity>, skip: nat, top: int): (w: seq<Entity>)
    ensures |w| == PageSize(|xs|, skip, top)
    ensures forall i :: 0 <= i < |w| ==> skip + i < |xs| && w[i] == xs[skip + i]
  {
    var rest := if skip < |xs| then xs[skip..] else [];
    if top == 0 || Abs(top) >= |rest| then rest else rest[..Abs(top)]
  }

  lemma {:induction false} PrefixKeysCard(xs: seq<Entity>, n: nat)
    requires DistinctKeys(xs) && n <= |xs|
    ensures |set m | 0 <= m < n :: Key(xs[m])| == n
  {
    if n > 0 {
      PrefixKeysCard(xs, n - 1);
      var smaller := set m | 0 <= m < n - 1 :: Key(xs[m]);
      assert (set m | 0 <= m < n :: Key(xs[m])) == smaller + {Key(xs[n - 1])};
      assert Key(xs[n - 1]) !in smaller;
    }
  }

  /** In a sorted listing of the store, a document's position is its rank. */
  lemma RankOfSorted(s: Store, xs: seq<Entity>, ascending: bool, i: nat)
    requires ListsStore(s, xs) && StrictlySorted(xs, ascending) && i < |xs|
    ensures Rank(s, Key(xs[i]), ascending) == i
  {
    var k := Key(xs[i]);
    var below := set j | j in s.Keys && Before(j, k, ascending);
    var prefix := set m | 0 <= m < i :: Key(xs[m]);
    forall j | j in below
      ensures j in prefix
    {
      assert s[j] in xs;
      var m :| 0 <= m < |xs| && xs[m] == s[j];
      assert Key(xs[m]) == j;
      BeforeStrictTotal(j, k, k, ascending);
      assert m < i;
    }
    forall j | j in prefix
      ensures j in below
    {
      var m :| 0 <= m < i && Key(xs[m]) == j;
      assert Before(Key(xs[m]), k, ascending);
    }
    assert below == prefix;
    PrefixKeysCard(xs, i);
  }

  /** Rank strictly grows along the order. */
  lemma RankIncreasing(s: Store, a: string, b: string, ascending: bool)
    requires a in s && Before(a, b, ascending)
    ensures Rank(s, a, ascending) < Rank(s, b, ascending)
  {
    var sa := set j | j in s.Keys && Before(j, a, ascending);
    var sb := set j | j in s.Keys && Before(j, b, ascending);
    forall j | j in sa
      ensures j in sb
    {
      BeforeStrictTotal(j, a, b, ascending);
    }
    BeforeStrictTotal(a, a, a, ascending);
    assert a in sb - sa;
    assert sb == sa + (sb - sa);
  }

  /** A page is determined by the store, the offset, the limit and the
      direction: two pages for the same arguments are equal. */
  lemma PageUnique(s: Store, skip: nat, top: int, ascending: bool, p: seq<Entity>, q: seq<Entity>)
    requires IsPage(s, skip, top, ascending, p) && IsPage(s, skip, top, ascending, q)
    ensures p == q
  {
    forall i | 0 <= i < |p|
      ensures p[i] == q[i]
    {
      var a, b := Key(p[i]), Key(q[i]);
      BeforeStrictTotal(a, b, b, ascending);
      if Before(a, b, ascending) {
        RankIncreasing(s, a, b, ascending);
      } else if Before(b, a, ascending) {
        RankIncreasing(s, b, a, ascending);
      }
    }
  }
}
