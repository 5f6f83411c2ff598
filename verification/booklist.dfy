/**
 The catalogue page: the search and category filter applied to the list
 the page holds, and the local list update after a delete.
 */
module BookList {
  import opened Text
  import opened Seqs
  import opened Ints
  import opened BookModel
  import Books

  /** A book is shown when its title or author contains the search text, ignoring case, and its category passes the selector. */
  predicate Keep(b: Book, search: string, categoryFilter: string) {
    && (Contains(Lower(b.title), Lower(search)) || Contains(Lower(b.author), Lower(search)))
    && (categoryFilter == "" || b.category == categoryFilter)
  }

  /** The rows the page renders. */
  function FilteredBooks(books: seq<Book>, search: string, categoryFilter: string): (r: seq<Book>)
    ensures |r| <= |books|
    ensures forall i :: 0 <= i < |r| ==> Keep(r[i], search, categoryFilter)
  {
    Filter(books, b => Keep(b, search, categoryFilter))
  }

  /** A book is rendered exactly when it is in the list and passes the filter. */
  lemma FilteredBooksMembership(books: seq<Book>, search: string, categoryFilter: string, b: Book)
    ensures b in FilteredBooks(books, search, categoryFilter) <==> b in books && Keep(b, search, categoryFilter)
  {
    FilterMembership(books, b => Keep(b, search, categoryFilter), b);
  }

  /** The rendered rows keep the list's order. */
  lemma FilteredBooksInOrder(books: seq<Book>, search: string, categoryFilter: string)
    ensures IsSubsequence(FilteredBooks(books, search, categoryFilter), books)
  {
    FilterIsSubsequence(books, b => Keep(b, search, categoryFilter));
  }

  /** With no search text and "All Categories" selected, every book is rendered. */
  lemma NoFilterShowsAll(books: seq<Book>)
    ensures FilteredBooks(books, "", "") == books
  {
    assert Lower("") == "";
    forall i | 0 <= i < |books| ensures Keep(books[i], "", "") {
      ContainsEmpty(Lower(books[i].title));
    }
    FilterAllPass(books, b => Keep(b, "", ""));
  }

  /** Filtering the rendered rows again changes nothing. */
  lemma FilteredBooksIdempotent(books: seq<Book>, search: string, categoryFilter: string)
    ensures FilteredBooks(FilteredBooks(books, search, categoryFilter), search, categoryFilter)
            == FilteredBooks(books, search, categoryFilter)
  {
    FilterIdempotent(books, b => Keep(b, search, categoryFilter));
  }

  /** The search ignores the letter case of what is typed. */
  lemma SearchIgnoresCase(b: Book, search: string, categoryFilter: string)
    ensures Keep(b, Lower(search), categoryFilter) == Keep(b, search, categoryFilter)
  {
    LowerIdempotent(search);
  }

  /**
   handleDelete: once the user confirmed and the DELETE request succeeded,
   the book is dropped from the local list; otherwise the list is kept.
   */
  function HandleDelete(books: seq<Book>, id: int32, confirmed: bool, deleted: bool): (r: seq<Book>)
    ensures !(confirmed && deleted) ==> r == books
    ensures confirmed && deleted ==> forall i :: 0 <= i < |r| ==> r[i].id != id
  {
    if confirmed && deleted then Filter(books, (b: Book) => b.id != id) else books
  }

  /** After a delete, exactly the books with other Ids remain, in their original order. */
  lemma HandleDeleteKeepsOthers(books: seq<Book>, id: int32, b: Book)
    ensures b in HandleDelete(books, id, true, true) <==> b in books && b.id != id
    ensures IsSubsequence(HandleDelete(books, id, true, true), books)
  {
    FilterMembership(books, (b: Book) => b.id != id, b);
    FilterIsSubsequence(books, (b: Book) => b.id != id);
  }

  /** The page's list shows exactly the books the store holds. */
  ghost predicate Mirrors(books: seq<Book>, st: Books.Store) {
    forall b :: b in books <==> b.id in st.books && st.books[b.id] == b
  }

  /** A delete on the server followed by the local update leaves the page in step with the store. */
  lemma DeleteKeepsListInStep(books: seq<Book>, st: Books.Store, id: int32)
    requires Mirrors(books, st)
    requires Books.DeleteBook(st, id).0 == Books.NoContent
    ensures Mirrors(HandleDelete(books, id, true, true), Books.DeleteBook(st, id).1)
  {
    forall b
      ensures b in HandleDelete(books, id, true, true)
              <==> b.id in Books.DeleteBook(st, id).1.books && Books.DeleteBook(st, id).1.books[b.id] == b
    {
      HandleDeleteKeepsOthers(books, id, b);
    }
  }
}
