/** The catalog's single entity. */
module Books {

  import opened Wrappers

  /** A store-assigned identifier (a `Long` that the store hands out). */
  type Id = nat

  /**
   * A book record. Every field may be null in the entity, so each is optional; the price is an
   * exact decimal (`BigDecimal`), modelled as a `real`.
   */
  datatype Book = Book(
    id: Option<Id>,
    title: Option<string>,
    author: Option<string>,
    isbn: Option<string>,
    publicationYear: Option<int>,
    price: Option<real>)

  /** A fresh entity carrying the five descriptive fields of `b` and no identifier. */
  function CopyWithoutId(b: Book): (r: Book)
    ensures r.id.None?
    ensures r.(id := b.id) == b
  {
    Book(None, b.title, b.author, b.isbn, b.publicationYear, b.price)
  }
}
