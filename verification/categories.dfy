/** Categories (models/categoria.py). A category's books are the inverse of
    the books' category link, and its book count is their number; the count
    is derived on demand and never stored. */
module Categories {
  import opened Wrappers
  import Books

  /** 1 when book `b` links to category `k`, else 0. */
  function Links(b: Books.Book, k: Books.CategoryId): nat {
    if b.categoria == Some(k) then 1 else 0
  }

  /** The inverse collection `libro_ids`: the books whose category link is
      `k`, in catalogue order. */
  function CategoryBooks(books: seq<Books.Book>, k: Books.CategoryId): (r: seq<Books.Book>)
    ensures |r| <= |books|
    ensures forall i :: 0 <= i < |r| ==> r[i].categoria == Some(k)
  {
    if books == [] then []
    else
      var n := |books| - 1;
      CategoryBooks(books[..n], k) + (if books[n].categoria == Some(k) then [books[n]] else [])
  }

  /** The collection holds exactly the catalogue's books whose category link
      is `k`. */
  lemma {:induction false} CategoryBooksMembers(books: seq<Books.Book>, k: Books.CategoryId)
    ensures forall b :: b in CategoryBooks(books, k) <==> b in books && b.categoria == Some(k)
  {
    if books != [] {
      var n := |books| - 1;
      CategoryBooksMembers(books[..n], k);
      assert books == books[..n] + [books[n]];
    }
  }

  /** Reference definition of membership: the catalogue positions whose
      book links to `k`. */
  ghost function LinkedIndices(books: seq<Books.Book>, k: Books.CategoryId): set<nat> {
    set i | 0 <= i < |books| && books[i].categoria == Some(k)
  }

  /** `_compute_cantidad_libros` for category `k`: the size of its book
      collection. A category's other fields play no part in it. */
  method CantidadLibros(books: seq<Books.Book>, k: Books.CategoryId) returns (n: nat)
    ensures n == |CategoryBooks(books, k)|
    ensures n == |LinkedIndices(books, k)|
  {
    n := 0;
    var i := 0;
    while i < |books|
      invariant 0 <= i <= |books|
      invariant n == |CategoryBooks(books[..i], k)|
    {
      assert books[..i + 1][..i] == books[..i];
      if books[i].categoria == Some(k) {
        n := n + 1;
      }
      i := i + 1;
    }
    assert books[..|books|] == books;
    CountIsLinkedIndices(books, k);
  }

  /** The collection's size is the number of catalogue positions linking to
      the category: each linked book is counted exactly once. */
  lemma {:induction false} CountIsLinkedIndices(books: seq<Books.Book>, k: Books.CategoryId)
    ensures |CategoryBooks(books, k)| == |LinkedIndices(books, k)|
  {
    if books != [] {
      var n := |books| - 1;
      CountIsLinkedIndices(books[..n], k);
      LinkedIndicesSnoc(books, k);
    }
  }

  /** Extending the catalogue by one book adds its position to the linked
      positions exactly when it links to `k`. */
  lemma LinkedIndicesSnoc(books: seq<Books.Book>, k: Books.CategoryId)
    requires books != []
    ensures var n := |books| - 1;
            |LinkedIndices(books, k)| == |LinkedIndices(books[..n], k)| + Links(books[n], k)
  {
    var n := |books| - 1;
    var before := LinkedIndices(books[..n], k);
    var extra: set<nat> := if books[n].categoria == Some(k) then {n} else {};
    forall i | i in LinkedIndices(books, k)
      ensures i in before + extra
    {
      if i < n {
        assert books[..n][i] == books[i];
      }
    }
    forall i | i in before + extra
      ensures i in LinkedIndices(books, k)
    {
      if i < n {
        assert books[..n][i] == books[i];
      }
    }
    assert LinkedIndices(books, k) == before + extra;
    assert before !! extra;
  }

  /** A category has a count of 0 exactly when no book links to it. */
  lemma EmptyCategory(books: seq<Books.Book>, k: Books.CategoryId)
    ensures |CategoryBooks(books, k)| == 0 <==> forall i :: 0 <= i < |books| ==> books[i].categoria != Some(k)
  {
    CategoryBooksMembers(books, k);
    if |CategoryBooks(books, k)| != 0 {
      var b := CategoryBooks(books, k)[0];
      assert b in CategoryBooks(books, k);
    } else {
      forall i | 0 <= i < |books|
        ensures books[i].categoria != Some(k)
      {
        assert books[i] in books;
      }
    }
  }

  /** The count of a catalogue is that of all but its last book, plus what
      the last book contributes. */
  lemma CountSnoc(books: seq<Books.Book>, k: Books.CategoryId)
    requires books != []
    ensures |CategoryBooks(books, k)| == |CategoryBooks(books[..|books| - 1], k)| + Links(books[|books| - 1], k)
  {
  }

  /** Replacing one book changes every category's count only by what the
      old and the new book contribute. */
  lemma {:induction false} CountAfterReplace(books: seq<Books.Book>, i: nat, b: Books.Book, k: Books.CategoryId)
    requires i < |books|
    ensures |CategoryBooks(books[i := b], k)| + Links(books[i], k)
         == |CategoryBooks(books, k)| + Links(b, k)
  {
    var n := |books| - 1;
    var books2 := books[i := b];
    CountSnoc(books, k);
    CountSnoc(books2, k);
    if i == n {
      assert books2[..n] == books[..n];
    } else {
      assert books2[..n] == books[..n][i := b];
      assert books2[n] == books[n];
      CountAfterReplace(books[..n], i, b, k);
    }
  }

  /** Counts depend only on the books' category links. */
  lemma {:induction false} CountDependsOnlyOnLinks(books: seq<Books.Book>, books2: seq<Books.Book>, k: Books.CategoryId)
    requires |books2| == |books|
    requires forall i :: 0 <= i < |books| ==> books2[i].categoria == books[i].categoria
    ensures |CategoryBooks(books2, k)| == |CategoryBooks(books, k)|
  {
    if books != [] {
      var n := |books| - 1;
      CountSnoc(books, k);
      CountSnoc(books2, k);
      CountDependsOnlyOnLinks(books[..n], books2[..n], k);
    }
  }

  /** Pointing one book at a new category (or at none) moves it: the count
      of its old category drops by one, that of its new category rises by
      one, and every other count stays as it was. */
  lemma CountAfterWriteCategory(lib: Books.Library, j: nat, to: Option<Books.CategoryId>, k: Books.CategoryId)
    requires Books.DistinctIds(lib.books)
    requires j < |lib.books|
    requires to.None? || to.value in lib.categories
    ensures Books.WriteCategory(lib, lib.books[j].id, to).Success?
    ensures var lib2 := Books.WriteCategory(lib, lib.books[j].id, to).value;
            |CategoryBooks(lib2.books, k)|
              + (if lib.books[j].categoria == Some(k) then 1 else 0)
            == |CategoryBooks(lib.books, k)| + (if to == Some(k) then 1 else 0)
  {
    Books.IndexOfUnique(lib.books, lib.books[j].id, j);
    var lib2 := Books.WriteCategory(lib, lib.books[j].id, to).value;
    assert lib2.books == lib.books[j := lib.books[j].(categoria := to)];
    CountAfterReplace(lib.books, j, lib.books[j].(categoria := to), k);
  }

  /** Moving a book from category `a` to a different, existing category `b`. */
  lemma MoveBetweenCategories(lib: Books.Library, j: nat, a: Books.CategoryId, b: Books.CategoryId)
    requires Books.DistinctIds(lib.books)
    requires j < |lib.books| && lib.books[j].categoria == Some(a) && a != b
    requires b in lib.categories
    ensures Books.WriteCategory(lib, lib.books[j].id, Some(b)).Success?
    ensures var lib2 := Books.WriteCategory(lib, lib.books[j].id, Some(b)).value;
            && |CategoryBooks(lib2.books, a)| == |CategoryBooks(lib.books, a)| - 1
            && |CategoryBooks(lib2.books, b)| == |CategoryBooks(lib.books, b)| + 1
            && forall k :: k != a && k != b ==>
                 |CategoryBooks(lib2.books, k)| == |CategoryBooks(lib.books, k)|
  {
    CountAfterWriteCategory(lib, j, Some(b), a);
    CountAfterWriteCategory(lib, j, Some(b), b);
    forall k | k != a && k != b
      ensures |CategoryBooks(Books.WriteCategory(lib, lib.books[j].id, Some(b)).value.books, k)|
           == |CategoryBooks(lib.books, k)|
    {
      CountAfterWriteCategory(lib, j, Some(b), k);
    }
  }

  /** Deleting an author, or writing a rating or an ISBN, leaves every
      category's count as it was. */
  lemma OtherWritesKeepCounts(lib: Books.Library, op: Books.Op, k: Books.CategoryId)
    requires !op.SetCategory? && !op.CreateBook?
    requires Books.Apply(lib, op).Success?
    ensures |CategoryBooks(Books.Apply(lib, op).value.books, k)| == |CategoryBooks(lib.books, k)|
  {
    var books2 := Books.Apply(lib, op).value.books;
    forall i | 0 <= i < |lib.books|
      ensures books2[i].categoria == lib.books[i].categoria
    {
    }
    CountDependsOnlyOnLinks(lib.books, books2, k);
  }

  /** Creating a book raises only the count of the category it links to. */
  lemma CreateAddsToItsCategory(lib: Books.Library, d: Books.BookDraft, k: Books.CategoryId)
    requires Books.Create(lib, d).Success?
    ensures |CategoryBooks(Books.Create(lib, d).value.books, k)|
         == |CategoryBooks(lib.books, k)| + (if d.categoria == Some(k) then 1 else 0)
  {
    var books2 := Books.Create(lib, d).value.books;
    assert books2[..|lib.books|] == lib.books;
  }
}
