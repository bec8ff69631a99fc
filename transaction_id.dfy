/**
 * The comparison operators of an MVCC transaction id
 * (arangod/Mvcc/TransactionId.cpp). An id is compared through its own
 * transaction number only; the class declaration is not part of this model,
 * so any further fields it may have are ignored here just as the operators
 * ignore them.
 */
module TransactionId {
  import opened Common

  /** `TransactionId::InternalType`, a 64-bit unsigned number. */
  type InternalType = uint64

  datatype TransactionId = TransactionId(ownTransactionId: InternalType)

  /** `operator==(TransactionId const&, TransactionId const&)` */
  function Equal(lhs: TransactionId, rhs: TransactionId): (r: bool)
    ensures r <==> lhs == rhs
  {
    lhs.ownTransactionId == rhs.ownTransactionId
  }

  /** `operator==(TransactionId const&, InternalType)` */
  function EqualRaw(lhs: TransactionId, rhs: InternalType): (r: bool)
    ensures r <==> lhs == TransactionId(rhs)
  {
    lhs.ownTransactionId == rhs
  }

  /** `operator!=`, written in the source as its own comparison rather than as `!(a == b)`. */
  function NotEqual(lhs: TransactionId, rhs: TransactionId): (r: bool)
    ensures r <==> lhs != rhs
  {
    lhs.ownTransactionId != rhs.ownTransactionId
  }

  /** `operator<` */
  function Less(lhs: TransactionId, rhs: TransactionId): (r: bool)
    ensures r ==> NotEqual(lhs, rhs)
    ensures !r && NotEqual(lhs, rhs) ==> rhs.ownTransactionId < lhs.ownTransactionId
  {
    lhs.ownTransactionId < rhs.ownTransactionId
  }

  /** Comparing with a raw number agrees with comparing with the id that carries that number. */
  lemma EqualRawAgreesWithEqual(a: TransactionId, b: TransactionId, raw: InternalType)
    ensures EqualRaw(a, b.ownTransactionId) == Equal(a, b)
    ensures EqualRaw(a, raw) == Equal(a, TransactionId(raw))
  {
  }

  /** `==` is an equivalence relation. */
  lemma EqualIsEquivalence(a: TransactionId, b: TransactionId, c: TransactionId)
    ensures Equal(a, a)
    ensures Equal(a, b) == Equal(b, a)
    ensures Equal(a, b) && Equal(b, c) ==> Equal(a, c)
  {
  }

  /** `!=` is exactly the negation of `==`. */
  lemma NotEqualIsNegation(a: TransactionId, b: TransactionId)
    ensures NotEqual(a, b) == !Equal(a, b)
  {
  }

  /** `<` is a strict order: irreflexive and transitive. */
  lemma LessIsStrictOrder(a: TransactionId, b: TransactionId, c: TransactionId)
    ensures !Less(a, a)
    ensures Less(a, b) && Less(b, c) ==> Less(a, c)
    ensures Less(a, b) ==> !Less(b, a)
  {
  }

  /** For any two ids exactly one of `a < b`, `a == b`, `b < a` holds. */
  lemma Trichotomy(a: TransactionId, b: TransactionId)
    ensures Less(a, b) || Equal(a, b) || Less(b, a)
    ensures !(Less(a, b) && Equal(a, b))
    ensures !(Less(b, a) && Equal(a, b))
    ensures !(Less(a, b) && Less(b, a))
  {
  }

  /** `<` is compatible with `==`: ids that compare equal are ordered alike. */
  lemma LessRespectsEqual(a: TransactionId, a': TransactionId, b: TransactionId)
    requires Equal(a, a')
    ensures Less(a, b) == Less(a', b)
    ensures Less(b, a) == Less(b, a')
  {
  }
}
