/**
 * The Product entity and the errors of the product service.
 *
 * The entity class itself is not part of this model; its fields are those the
 * builder calls in the tests set. Timestamps are dropped. A price is an integer
 * number of minor currency units (99.99 is 9999), which keeps comparisons exact.
 */
module Catalog {
  import opened Wrappers

  /** A product record. `id` is None until the store assigns one. */
  datatype Product = Product(
    id: Option<int>,
    name: string,
    description: Option<string>,
    price: int,
    stockQuantity: int)

  /** Failures the service reports to its callers. */
  datatype Error =
    | DuplicateName(name: string)     // IllegalArgumentException on create
    | NotFound(id: int)               // ResourceNotFoundException on update and delete
    | NonUniqueResult(name: string)   // a single-result query that matched several rows
}
