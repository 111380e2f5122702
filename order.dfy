/**
  The order record of the demo service and the nullable result of a lookup.

  An order is a Kotlin data class with two string fields and structural
  equality: two orders are equal exactly when both fields are equal. A Dafny
  datatype has that equality built in.
 */
module Domain {

  /** An order: `id` is the key the store files it under, `description` is free text. */
  datatype Order = Order(id: string, description: string)

  /** Kotlin's `Order?`: `None` stands for `null`. */
  datatype Option<T> = None | Some(value: T)

}
