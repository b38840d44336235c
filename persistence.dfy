/** The identity every persisted entity shares: an id fixed at construction,
    an `isNew` flag that tells the store to insert rather than merge, and
    equality by entity class and id. */
module Persistence {
  import opened Wrappers

  const MinLong := -0x8000_0000_0000_0000
  const MaxLong := 0x7FFF_FFFF_FFFF_FFFF
  const TwoTo32 := 0x1_0000_0000
  const TwoTo64 := 0x1_0000_0000_0000_0000

  /** A JVM `long`. */
  type Long = x: int | MinLong <= x <= MaxLong

  /** `Long.hashCode`: the two 32-bit halves of the two's-complement value,
      exclusive-or'ed, read back as a signed `int`. */
  function LongHashCode(v: Long): (h: int)
    ensures -0x8000_0000 <= h < 0x8000_0000
  {
    var bits := if v < 0 then v + TwoTo64 else v;
    var low := (bits % TwoTo32) as bv32;
    var high := (bits / TwoTo32) as bv32;
    var folded := (low ^ high) as int;
    if folded < 0x8000_0000 then folded else folded - TwoTo32
  }

  class BaseEntity {
    /** Generated once when the object is built; never reassigned. */
    const id: Long
    /** The entity's class as the store sees it, behind any lazy proxy. */
    const entityClass: string
    var isNew: bool

    /** A new object has not been saved yet. */
    constructor (id: Long, entityClass: string)
      ensures this.id == id && this.entityClass == entityClass
      ensures isNew
    {
      this.id := id;
      this.entityClass := entityClass;
      isNew := true;
    }

    /** `load`, run after the first save and after every read from the store. */
    method Load()
      modifies this
      ensures !isNew
    {
      isNew := false;
    }

    /** `equals`: the same object is equal, null is not, an entity of another
      class is not, and otherwise the ids decide. */
    function Equals(other: Option<BaseEntity>): (r: bool)
      ensures other == Some(this) ==> r
      ensures other.None? ==> !r
      ensures other.Some? && other.value.entityClass != entityClass ==> !r
      ensures other.Some? && other.value.entityClass == entityClass ==> (r <==> other.value.id == id)
    {
      match other
      case None => false
      case Some(that) => that == this || (entityClass == that.entityClass && id == that.id)
    }

    /** `hashCode`: the hash of the id alone. */
    function HashCode(): (h: int)
      ensures -0x8000_0000 <= h < 0x8000_0000
    {
      LongHashCode(id)
    }
  }

  /** Worked values: small ids hash to themselves, -1 folds to 0, and 2^32
      folds onto 1. */
  lemma LongHashCodeExamples()
    ensures LongHashCode(1) == 1
    ensures LongHashCode(-1) == 0
    ensures LongHashCode(TwoTo32) == 1
  {
    assert LongHashCode(1) == 1 by {
      assert (1 as bv32) ^ (0 as bv32) == 1;
    }
    assert LongHashCode(-1) == 0 by {
      assert TwoTo64 - 1 == (TwoTo32 - 1) * TwoTo32 + (TwoTo32 - 1);
      assert ((TwoTo64 - 1) % TwoTo32) == TwoTo32 - 1 && (TwoTo64 - 1) / TwoTo32 == TwoTo32 - 1;
      assert ((TwoTo32 - 1) as bv32) ^ ((TwoTo32 - 1) as bv32) == 0;
    }
    assert LongHashCode(TwoTo32) == 1 by {
      assert TwoTo32 % TwoTo32 == 0 && TwoTo32 / TwoTo32 == 1;
      assert (0 as bv32) ^ (1 as bv32) == 1;
    }
  }

  /** Equal entities hash alike. */
  lemma EqualsConsistentWithHashCode(a: BaseEntity, b: BaseEntity)
    requires a.Equals(Some(b))
    ensures a.HashCode() == b.HashCode()
  {
  }

  /** `equals` is an equivalence relation on entities. */
  lemma EqualsIsEquivalence(a: BaseEntity, b: BaseEntity, c: BaseEntity)
    ensures a.Equals(Some(a))
    ensures a.Equals(Some(b)) == b.Equals(Some(a))
    ensures a.Equals(Some(b)) && b.Equals(Some(c)) ==> a.Equals(Some(c))
  {
  }
}
