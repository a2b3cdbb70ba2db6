/** `x::EntityId`: an immutable 64-bit handle under the raw-value order, with the
    largest u64 reserved as the invalid sentinel. */
module Entities {

  /** `u64`: the unsigned 64-bit integers. */
  newtype u64 = x: int | 0 <= x < 0x1_0000_0000_0000_0000

  const MaxU64: u64 := 0xFFFF_FFFF_FFFF_FFFF

  /** `kInvalidEntityId`, `std::numeric_limits<u64>::max()`. */
  const InvalidValue: u64 := MaxU64

  /** `explicit EntityId(u64 value)`: the only state is `_value`. */
  datatype EntityId = EntityId(value: u64) {

    /** `value()` */
    function Value(): u64 { value }

    /** `operator*` */
    function Deref(): u64 { value }

    /** `valid()` */
    predicate Valid() { value != InvalidValue }

    predicate Eq(other: EntityId) { value == other.value }
    predicate Ne(other: EntityId) { value != other.value }
    predicate Lt(other: EntityId) { value < other.value }
    predicate Gt(other: EntityId) { value > other.value }
    predicate Le(other: EntityId) { value <= other.value }
    predicate Ge(other: EntityId) { value >= other.value }
  }

  /** The default constructor `EntityId()`. */
  function Default(): EntityId {
    EntityId(InvalidValue)
  }

  /** `EntityId::Invalid()` */
  function Invalid(): EntityId {
    Default()
  }

  /** The `std::hash<x::EntityId>` specialisation: it hashes `value()` with the
      library's `std::hash<u64>`, which is a parameter here. */
  function Hash(id: EntityId, hashU64: u64 -> nat): nat {
    hashU64(id.Value())
  }

  lemma DefaultIsInvalid()
    ensures !Default().Valid()
    ensures Invalid() == Default()
    ensures !Invalid().Valid()
  {
  }

  lemma ValidIffNotSentinel(id: EntityId)
    ensures id.Valid() <==> id.value != MaxU64
    ensures id.Valid() <==> id != Invalid()
  {
  }

  /** Both accessors give back the raw value the id was built from. */
  lemma ValueRoundTrip(v: u64)
    ensures EntityId(v).Value() == v && EntityId(v).Deref() == v
  {
  }

  /** `==` is identity of ids and `!=` its negation, so ids are usable as map keys. */
  lemma EqualityIsIdentity(a: EntityId, b: EntityId)
    ensures a.Eq(b) <==> a == b
    ensures a.Ne(b) <==> !a.Eq(b)
  {
  }

  /** `<` is a strict total order and the other three comparisons are derived from it. */
  lemma OrderIsTotal(a: EntityId, b: EntityId, c: EntityId)
    ensures !a.Lt(a)
    ensures a.Lt(b) && b.Lt(c) ==> a.Lt(c)
    ensures a.Lt(b) || a == b || b.Lt(a)
    ensures a.Gt(b) <==> b.Lt(a)
    ensures a.Le(b) <==> a.Lt(b) || a == b
    ensures a.Ge(b) <==> b.Le(a)
  {
  }

  /** Equal ids hash equally whatever `std::hash<u64>` is. */
  lemma HashRespectsEquality(a: EntityId, b: EntityId, hashU64: u64 -> nat)
    requires a.Eq(b)
    ensures Hash(a, hashU64) == Hash(b, hashU64)
  {
  }
}
