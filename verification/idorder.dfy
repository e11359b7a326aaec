/** Ordering entities by `Id`, as the server's `SortBy(e => e.Id)` and
    `SortByDescending(e => e.Id)` do: strings compared character by
    character, by code point. */
module IdOrder {
  import opened Wrappers
  import opened Entities

  /** Strict lexicographic order on strings. */
  predicate Below(a: string, b: string)
    decreases |a|
  {
    if |a| == 0 then |b| > 0
    else if |b| == 0 then false
    else if a[0] != b[0] then a[0] < b[0]
    else Below(a[1..], b[1..])
  }

  lemma {:induction false} BelowIrreflexive(a: string)
    ensures !Below(a, a)
    decreases |a|
  {
    if |a| > 0 {
      BelowIrreflexive(a[1..]);
    }
  }

  lemma {:induction false} BelowAsymmetric(a: string, b: string)
    requires Below(a, b)
    ensures !Below(b, a)
    decreases |a|
  {
    if |a| > 0 && |b| > 0 && a[0] == b[0] {
      BelowAsymmetric(a[1..], b[1..]);
    }
  }

  lemma {:induction false} BelowTransitive(a: string, b: string, c: string)
    requires Below(a, b) && Below(b, c)
    ensures Below(a, c)
    decreases |a|
  {
    if |a| > 0 && a[0] == b[0] && b[0] == c[0] {
      BelowTransitive(a[1..], b[1..], c[1..]);
    }
  }

  lemma {:induction false} BelowTotal(a: string, b: string)
    ensures a == b || Below(a, b) || Below(b, a)
    decreases |a|
  {
    if |a| > 0 && |b| > 0 && a[0] == b[0] {
      BelowTotal(a[1..], b[1..]);
      if a[1..] == b[1..] {
        assert a == [a[0]] + a[1..] && b == [b[0]] + b[1..];
      }
    }
  }

  /** The sort direction: ascending follows `Below`, descending reverses it. */
  predicate Before(a: string, b: string, ascending: bool) {
    if ascending then Below(a, b) else Below(b, a)
  }

  /** `Before` is a strict total order in either direction. */
  lemma BeforeStrictTotal(a: string, b: string, c: string, ascending: bool)
    ensures !Before(a, a, ascending)
    ensures Before(a, b, ascending) ==> !Before(b, a, ascending)
    ensures Before(a, b, ascending) && Before(b, c, ascending) ==> Before(a, c, ascending)
    ensures a == b || Before(a, b, ascending) || Before(b, a, ascending)
  {
    BelowIrreflexive(a);
    BelowTotal(a, b);
    if Below(a, b) { BelowAsymmetric(a, b); }
    if Below(b, a) { BelowAsymmetric(b, a); }
    if Below(a, b) && Below(b, c) { BelowTransitive(a, b, c); }
    if Below(c, b) && Below(b, a) { BelowTransitive(c, b, a); }
  }

  /** The sort key of a document; stored documents never have a null id. */
  function Key(e: Entity): string {
    if e.id.Some? then e.id.value else ""
  }

  predicate DistinctKeys(xs: seq<Entity>) {
    forall i, j :: 0 <= i < j < |xs| ==> Key(xs[i]) != Key(xs[j])
  }

  predicate StrictlySorted(xs: seq<Entity>, ascending: bool) {
    forall i, j :: 0 <= i < j < |xs| ==> Before(Key(xs[i]), Key(xs[j]), ascending)
  }

  /** Every element of `ys` comes after key `k`. */
  predicate AllAfter(k: string, ys: seq<Entity>, ascending: bool) {
    forall y :: y in ys ==> Before(k, Key(y), ascending)
  }

  lemma SortedCons(a: Entity, ys: seq<Entity>, ascending: bool)
    requires StrictlySorted(ys, ascending) && AllAfter(Key(a), ys, ascending)
    ensures StrictlySorted([a] + ys, ascending)
  {
    var r := [a] + ys;
    forall i, j | 0 <= i < j < |r|
      ensures Before(Key(r[i]), Key(r[j]), ascending)
    {
      if i == 0 {
        assert r[j] == ys[j - 1] && ys[j - 1] in ys;
      } else {
        assert r[i] == ys[i - 1] && r[j] == ys[j - 1];
      }
    }
  }

  lemma SortedTail(xs: seq<Entity>, ascending: bool)
    requires StrictlySorted(xs, ascending) && |xs| > 0
    ensures StrictlySorted(xs[1..], ascending) && AllAfter(Key(xs[0]), xs[1..], ascending)
  {
    forall y | y in xs[1..]
      ensures Before(Key(xs[0]), Key(y), ascending)
    {
      var m :| 0 <= m < |xs[1..]| && xs[1..][m] == y;
      assert xs[m + 1] == y;
    }
  }

  /** Places `x` into a sorted sequence none of whose keys equals `x`'s. */
  function InsertInOrder(x: Entity, xs: seq<Entity>, ascending: bool): (r: seq<Entity>)
    requires StrictlySorted(xs, ascending)
    requires forall y :: y in xs ==> Key(y) != Key(x)
    ensures StrictlySorted(r, ascending)
    ensures forall y :: y in r <==> y == x || y in xs
    ensures multiset(r) == multiset(xs) + multiset{x}
  {
    if |xs| == 0 then [x]
    else
      SortedTail(xs, ascending);
      assert xs == [xs[0]] + xs[1..];
      if Before(Key(xs[0]), Key(x), ascending) then
        var rest := InsertInOrder(x, xs[1..], ascending);
        SortedCons(xs[0], rest, ascending);
        [xs[0]] + rest
      else
        BeforeStrictTotal(Key(x), Key(xs[0]), Key(xs[0]), ascending);
        forall y | y in xs
          ensures Before(Key(x), Key(y), ascending)
        {
          if y != xs[0] {
            BeforeStrictTotal(Key(x), Key(xs[0]), Key(y), ascending);
          }
        }
        SortedCons(x, xs, ascending);
        [x] + xs
  }

  lemma DistinctTail(xs: seq<Entity>)
    requires DistinctKeys(xs) && |xs| > 0
    ensures DistinctKeys(xs[1..])
    ensures forall y :: y in xs[1..] ==> Key(y) != Key(xs[0])
  {
    forall y | y in xs[1..]
      ensures Key(y) != Key(xs[0])
    {
      var m :| 0 <= m < |xs[1..]| && xs[1..][m] == y;
      assert xs[m + 1] == y;
    }
  }

  /** Sorts documents with distinct ids into strictly increasing id order
      (in the requested direction). */
  function SortById(xs: seq<Entity>, ascending: bool): (r: seq<Entity>)
    requires DistinctKeys(xs)
    ensures StrictlySorted(r, ascending)
    ensures forall y :: y in r <==> y in xs
    ensures multiset(r) == multiset(xs)
  {
    if |xs| == 0 then []
    else
      DistinctTail(xs);
      var rest := SortById(xs[1..], ascending);
      assert xs == [xs[0]] + xs[1..];
      InsertInOrder(xs[0], rest, ascending)
  }
}
