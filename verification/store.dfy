/** The document collection, with the MongoDB driver replaced by an abstract
    store: a map from `_id` to the stored document. Every primitive below is
    one atomic single-document step of the driver. */
module DocumentStore {
  import opened Wrappers
  import opened Entities

  /** Every stored document carries its own key as `Id`: `_id` is the
      collection's primary key. */
  predicate WellKeyed(m: map<string, Entity>) {
    forall k :: k in m ==> m[k].id == Some(k)
  }

  type Store = m: map<string, Entity> | WellKeyed(m) witness map[]

  /** `t` agrees with `s` on every key other than `k`. */
  predicate SameExcept(s: Store, t: Store, k: string) {
    && (forall j :: j in s && j != k ==> j in t && t[j] == s[j])
    && (forall j :: j in t && j != k ==> j in s)
  }

  /** The two filters the repository builds: `Id == id`, and
      `Id == id AND Version < bound`. */
  datatype Filter = IdEquals(id: Option<string>) | IdEqualsVersionBelow(id: Option<string>, bound: Int64)

  /** Whether a filter selects a document. */
  predicate Selects(f: Filter, doc: Entity) {
    doc.id == f.id && (f.IdEqualsVersionBelow? ==> doc.version < f.bound)
  }

  /** What `ReplaceOneAsync` reports (acknowledged, modified count available). */
  datatype ReplaceResult = ReplaceResult(matchedCount: nat, modifiedCount: nat)

  datatype Replaced = Replaced(result: ReplaceResult, store: Store)

  /** `InsertOneAsync`: a write error when the `_id` is taken, otherwise the
      store gains the document. */
  function InsertOne(s: Store, doc: Entity): (r: Result<Store, string>)
    requires doc.id.Some?
    ensures r.Err? <==> doc.id.value in s
    ensures r.Err? ==> r.error == doc.id.value
    ensures r.Ok? ==> doc.id.value in r.value && r.value[doc.id.value] == doc
    ensures r.Ok? ==> r.value.Keys == s.Keys + {doc.id.value} && SameExcept(s, r.value, doc.id.value)
  {
    var k := doc.id.value;
    if k in s then Err(k) else Ok(s[k := doc])
  }

  /** `ReplaceOneAsync`: replaces the document the filter selects, if any.
      The modified count is zero when the replacement equals the stored
      document, as the server does not count a no-op write. */
  function ReplaceOne(s: Store, f: Filter, replacement: Entity): (r: Replaced)
    requires replacement.id == f.id
    ensures r.result.matchedCount == 1 <==> exists k :: k in s && Selects(f, s[k])
    ensures r.result.matchedCount <= 1 && r.result.modifiedCount <= r.result.matchedCount
    ensures r.result.modifiedCount == 0 ==> r.store == s
    ensures r.result.matchedCount == 1 ==>
              f.id.Some? && f.id.value in s && r.store == s[f.id.value := replacement]
              && (r.result.modifiedCount == 0 <==> s[f.id.value] == replacement)
  {
    if f.id.Some? && f.id.value in s && Selects(f, s[f.id.value]) then
      var k := f.id.value;
      Replaced(ReplaceResult(1, if s[k] == replacement then 0 else 1), s[k := replacement])
    else
      Replaced(ReplaceResult(0, 0), s)
  }

  /** `Find(e => e.Id == id).FirstOrDefault()`: no stored document has a
      null id, so a null id finds nothing. */
  function FindById(s: Store, id: Option<string>): (r: Option<Entity>)
    ensures r.Some? <==> exists k :: k in s && s[k].id == id
    ensures r.Some? ==> r.value.id == id && r.value in s.Values
  {
    if id.Some? && id.value in s then Some(s[id.value]) else None
  }

  datatype Removal = Removal(removed: Option<Entity>, store: Store)

  /** `FindOneAndDeleteAsync(e => e.Id == id)`: removes the selected document
      and hands it back. */
  function FindOneAndDelete(s: Store, id: Option<string>): (r: Removal)
    ensures r.removed == FindById(s, id)
    ensures r.removed.None? ==> r.store == s
    ensures r.removed.Some? ==> r.store.Keys == s.Keys - {id.value} && SameExcept(s, r.store, id.value)
  {
    if id.Some? && id.value in s then Removal(Some(s[id.value]), s - {id.value})
    else Removal(None, s)
  }
}
