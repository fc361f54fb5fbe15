/**
 The records exchanged by the book service (src/models.rs).

 Rust's fixed-width integers become subset types, so that every `Book` value
 carries a `u32` id and, when present, a `u16` publication year by construction.
 */
module Models {
  import opened Options

  /** Largest value of Rust's `u16`. */
  const U16_MAX: int := 0xFFFF
  /** Largest value of Rust's `u32`. */
  const U32_MAX: int := 0xFFFF_FFFF

  type U16 = x: int | 0 <= x <= 0xFFFF
  type U32 = x: int | 0 <= x <= 0xFFFF_FFFF

  /** A stored book: title and author are mandatory, the rest optional. */
  datatype Book = Book(
    id: U32,
    title: string,
    author: string,
    publishedYear: Option<U16>,
    genre: Option<string>,
    isbn: Option<string>)

  /** Body of a create request: everything but the id, title and author required. */
  datatype CreateBookDto = CreateBookDto(
    title: string,
    author: string,
    publishedYear: Option<U16>,
    genre: Option<string>,
    isbn: Option<string>)

  /** Body of an update request: every field optional. */
  datatype UpdateBookDto = UpdateBookDto(
    title: Option<string>,
    author: Option<string>,
    publishedYear: Option<U16>,
    genre: Option<string>,
    isbn: Option<string>)
}
