/** The Book entity, as the backend stores it and as the frontend receives it. */
module BookModel {
  import opened Ints

  /** A row of the Books table; Id is the auto-incremented primary key, a C# `int`. */
  datatype Book = Book(id: int32, title: string, author: string, description: string, category: string)
}
