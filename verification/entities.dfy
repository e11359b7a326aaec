/** The persisted record shape shared by every repository: an identifier,
    two timestamps, a 64-bit version counter and a bag of extra fields. */
module Entities {
  import opened Wrappers

  const Int64Min: int := -0x8000_0000_0000_0000
  const Int64Max: int := 0x7fff_ffff_ffff_ffff

  /** C# `long`. */
  type Int64 = x: int | -0x8000_0000_0000_0000 <= x <= 0x7fff_ffff_ffff_ffff

  /** C# `int`. */
  type Int32 = x: int | -0x8000_0000 <= x <= 0x7fff_ffff

  /** An opaque reading of the UTC clock; the model never does date
      arithmetic, it only copies readings around and compares them for
      equality. */
  datatype Timestamp = Timestamp(ticks: int)

  /** `default(DateTime)`, the value a timestamp holds before Insert stamps it. */
  const MinTimestamp := Timestamp(0)

  /** A stored field value, kept opaque. */
  datatype Value = Null | Text(text: string) | Number(number: int) | Flag(flag: bool)

  /** An entity. `id == None` is the null identifier, `metadata == None` a
      null metadata dictionary; `fields` holds the properties declared by the
      concrete entity type (a product's name, say). */
  datatype Entity = Entity(
    id: Option<string>,
    createdDate: Timestamp,
    updatedDate: Timestamp,
    version: Int64,
    metadata: Option<map<string, Value>>,
    fields: map<string, Value>)

  /** The parameterless constructor of a concrete entity type: every
      property at its default except `Metadata`, which the constructor sets
      to a fresh empty dictionary. */
  function NewEntity(fields: map<string, Value>): (e: Entity)
    ensures e.id.None?
    ensures e.version == 0
    ensures e.metadata.Some? && |e.metadata.value| == 0
    ensures e.createdDate == MinTimestamp && e.updatedDate == MinTimestamp
    ensures e.fields == fields
  {
    Entity(None, MinTimestamp, MinTimestamp, 0, Some(map[]), fields)
  }

  /** `Version++` on a `long` in C#'s default unchecked context: the
      successor, except that the largest value wraps to the smallest. */
  function Increment(v: Int64): (r: Int64)
    ensures r == v + 1 || (v == Int64Max && r == Int64Min)
    ensures v < r <==> v < Int64Max
  {
    if v == Int64Max then Int64Min else v + 1
  }
}
