/** The book catalogue (models/libro.py): the book record with its stored
    rating tier, ISBN uniqueness across books, and the clearing of a book's
    author link when that author is deleted. */
module Books {
  import opened Wrappers
  import Rating

  type BookId = nat
  type AuthorId = nat
  type CategoryId = nat

  /** Calendar dates, as day numbers. */
  type Date = int

  /** Literary genre; a new book is a novel unless told otherwise. */
  datatype Genre =
    | Novela | Poesia | Ensayo | Teatro | CienciaFiccion | Fantasia | Terror
    | Romance | Historia | Biografia | Infantil | Juvenil | Otro

  /** A stored book. `valoracion` is `None` for a falsy rating, the case
      the tier computation reads as 0; `nivelValoracion` is the stored
      computed tier label. */
  datatype Book = Book(
    id: BookId,
    titulo: string,
    isbn: string,
    fechaPublicacion: Date,
    editorial: Option<string>,
    genero: Genre,
    paginas: Option<int>,
    disponible: bool,
    sinopsis: Option<string>,
    valoracion: Option<real>,
    nivelValoracion: string,
    autor: Option<AuthorId>,
    categoria: Option<CategoryId>)

  /** A creation value for a field with a default: either not given, so
      the default applies, or given explicitly. */
  datatype Supplied<+T> = NotGiven | Given(value: T) {

    /** The given value, or `default` when none was given. */
    function OrDefault(default: T): T {
      match this
      case Given(v) => v
      case NotGiven => default
    }
  }

  /** What a caller supplies to create a book. A rating given as empty
      (`Given(None)`) stands for a falsy rating, which the tier computation
      reads as 0. */
  datatype BookDraft = BookDraft(
    titulo: string,
    isbn: string,
    fechaPublicacion: Date,
    editorial: Option<string>,
    genero: Supplied<Genre>,
    paginas: Option<int>,
    disponible: Supplied<bool>,
    sinopsis: Option<string>,
    valoracion: Supplied<Option<real>>,
    autor: Option<AuthorId>,
    categoria: Option<CategoryId>)

  /** The catalogue: the ids of existing authors and categories, and the
      stored books. */
  datatype Library = Library(authors: set<AuthorId>, categories: set<CategoryId>, books: seq<Book>)

  /** Why a write is rejected. */
  datatype Error =
    | DuplicateIsbn   // another book already has this ISBN
    | MissingBook     // no book has the given id
    | MissingAuthor   // no author has the given id
    | MissingCategory // no category has the given id

  /** One write against the catalogue. */
  datatype Op =
    | CreateBook(draft: BookDraft)
    | SetRating(book: BookId, rating: Option<real>)
    | SetIsbn(book: BookId, isbn: string)
    | SetCategory(book: BookId, category: Option<CategoryId>)
    | DeleteAuthorOp(author: AuthorId)

  // ---------------------------------------------------------------------
  // Catalogue invariants
  // ---------------------------------------------------------------------

  ghost predicate DistinctIds(books: seq<Book>) {
    forall i, j :: 0 <= i < j < |books| ==> books[i].id != books[j].id
  }

  /** No two books share an ISBN. */
  ghost predicate UniqueIsbns(books: seq<Book>) {
    forall i, j :: 0 <= i < j < |books| ==> books[i].isbn != books[j].isbn
  }

  /** Every stored tier label is the one its book's rating calls for. */
  ghost predicate TiersCurrent(books: seq<Book>) {
    forall i :: 0 <= i < |books| ==> books[i].nivelValoracion == Rating.NivelValoracion(books[i].valoracion)
  }

  /** Every author link points at an existing author. */
  ghost predicate AuthorLinksResolve(lib: Library) {
    forall i :: 0 <= i < |lib.books| && lib.books[i].autor.Some? ==> lib.books[i].autor.value in lib.authors
  }

  /** Every stored ISBN fits the field's size. */
  ghost predicate IsbnsFit(books: seq<Book>) {
    forall i :: 0 <= i < |books| ==> |books[i].isbn| <= IsbnSize
  }

  /** Every category link points at an existing category. */
  ghost predicate CategoryLinksResolve(lib: Library) {
    forall i :: 0 <= i < |lib.books| && lib.books[i].categoria.Some? ==> lib.books[i].categoria.value in lib.categories
  }

  ghost predicate Valid(lib: Library) {
    && DistinctIds(lib.books)
    && IsbnsFit(lib.books)
    && UniqueIsbns(lib.books)
    && TiersCurrent(lib.books)
    && AuthorLinksResolve(lib)
    && CategoryLinksResolve(lib)
  }

  /** `books2` is `books` with at most the book at index `i` replaced. */
  ghost predicate SameExceptAt(books: seq<Book>, books2: seq<Book>, i: nat) {
    && |books2| == |books|
    && forall j :: 0 <= j < |books| && j != i ==> books2[j] == books[j]
  }

  // ---------------------------------------------------------------------
  // ISBN storage
  // ---------------------------------------------------------------------

  /** Declared size of the `isbn` character field. */
  const IsbnSize: nat := 13

  /** The value the database keeps for an ISBN: a character field with a
      size keeps only its first `IsbnSize` characters, silently. */
  function StoredIsbn(isbn: string): (s: string)
    ensures |s| <= IsbnSize
    ensures s <= isbn
    ensures |isbn| <= IsbnSize ==> s == isbn
    ensures |isbn| > IsbnSize ==> |s| == IsbnSize
  {
    if |isbn| <= IsbnSize then isbn else isbn[..IsbnSize]
  }

  // ---------------------------------------------------------------------
  // Lookups
  // ---------------------------------------------------------------------

  /** Whether a book other than `except` already carries `isbn`. */
  predicate IsbnInUse(books: seq<Book>, isbn: string, except: Option<BookId>) {
    exists i | 0 <= i < |books| :: books[i].isbn == isbn && except != Some(books[i].id)
  }

  /** Position of the book with id `id`, if any. */
  function IndexOf(books: seq<Book>, id: BookId): (r: Option<nat>)
    ensures r.Some? ==> r.value < |books| && books[r.value].id == id
    ensures r.None? <==> forall i :: 0 <= i < |books| ==> books[i].id != id
  {
    if books == [] then None
    else if books[0].id == id then Some(0)
    else match IndexOf(books[1..], id)
      case None => None
      case Some(k) => Some(k + 1)
  }

  /** An id no stored book uses: one past the largest. */
  function NextId(books: seq<Book>): (n: BookId)
    ensures forall i :: 0 <= i < |books| ==> books[i].id < n
  {
    if books == [] then 1
    else
      var rest := NextId(books[1..]);
      if books[0].id < rest then rest else books[0].id + 1
  }

  /** In a catalogue with distinct ids, the book found is the only one with that id. */
  lemma IndexOfUnique(books: seq<Book>, id: BookId, j: nat)
    requires DistinctIds(books)
    requires j < |books| && books[j].id == id
    ensures IndexOf(books, id) == Some(j)
  {
  }

  // ---------------------------------------------------------------------
  // Writes
  // ---------------------------------------------------------------------

  /** The book a draft becomes under id `id`: given values kept (the ISBN
      cut to its field size), defaults filled in for values not given
      (genre novel, available, rating 5.0), and the tier computed. */
  function NewBook(id: BookId, d: BookDraft): (b: Book)
    ensures b.id == id && b.isbn == StoredIsbn(d.isbn)
    ensures b.titulo == d.titulo && b.fechaPublicacion == d.fechaPublicacion
    ensures b.editorial == d.editorial && b.paginas == d.paginas && b.sinopsis == d.sinopsis
    ensures b.autor == d.autor && b.categoria == d.categoria
    ensures d.genero.Given? ==> b.genero == d.genero.value
    ensures d.genero.NotGiven? ==> b.genero == Novela
    ensures d.disponible.Given? ==> b.disponible == d.disponible.value
    ensures d.disponible.NotGiven? ==> b.disponible
    ensures d.valoracion.Given? ==> b.valoracion == d.valoracion.value
    ensures d.valoracion.NotGiven? ==> b.valoracion == Some(Rating.DefaultRating)
    ensures b.nivelValoracion == Rating.NivelValoracion(b.valoracion)
    ensures d.valoracion.NotGiven? ==> b.nivelValoracion == "Regular"
    ensures d.valoracion == Given(None) ==> b.nivelValoracion == "Baja"
  {
    var rating := d.valoracion.OrDefault(Some(Rating.DefaultRating));
    Book(id, d.titulo, StoredIsbn(d.isbn), d.fechaPublicacion, d.editorial,
         d.genero.OrDefault(Novela), d.paginas, d.disponible.OrDefault(true), d.sinopsis,
         rating, Rating.NivelValoracion(rating), d.autor, d.categoria)
  }

  /** Creates a book. The database rejects an author or category link to
      nothing, and an ISBN whose stored form another book already has;
      otherwise the book is appended under a fresh id and nothing else
      changes. */
  function Create(lib: Library, d: BookDraft): (r: Result<Library, Error>)
    ensures r.Failure? <==>
              (d.autor.Some? && d.autor.value !in lib.authors)
              || (d.categoria.Some? && d.categoria.value !in lib.categories)
              || (exists i :: 0 <= i < |lib.books| && lib.books[i].isbn == StoredIsbn(d.isbn))
    ensures r == Failure(MissingAuthor) <==> d.autor.Some? && d.autor.value !in lib.authors
    ensures r == Failure(MissingCategory) <==>
              && (d.autor.None? || d.autor.value in lib.authors)
              && d.categoria.Some? && d.categoria.value !in lib.categories
    ensures r == Failure(DuplicateIsbn) <==>
              && (d.autor.None? || d.autor.value in lib.authors)
              && (d.categoria.None? || d.categoria.value in lib.categories)
              && exists i :: 0 <= i < |lib.books| && lib.books[i].isbn == StoredIsbn(d.isbn)
    ensures r.Success? ==>
              && r.value.authors == lib.authors && r.value.categories == lib.categories
              && |r.value.books| == |lib.books| + 1
              && r.value.books[..|lib.books|] == lib.books
              && r.value.books[|lib.books|] == NewBook(r.value.books[|lib.books|].id, d)
              && (forall i :: 0 <= i < |lib.books| ==> lib.books[i].id != r.value.books[|lib.books|].id)
    ensures r.Success? && Valid(lib) ==> Valid(r.value)
  {
    if d.autor.Some? && d.autor.value !in lib.authors then Failure(MissingAuthor)
    else if d.categoria.Some? && d.categoria.value !in lib.categories then Failure(MissingCategory)
    else if IsbnInUse(lib.books, StoredIsbn(d.isbn), None) then Failure(DuplicateIsbn)
    else
      var b := NewBook(NextId(lib.books), d);
      var books := lib.books + [b];
      assert books[..|lib.books|] == lib.books;
      Success(lib.(books := books))
  }

  /** Writes the rating of book `id`; the stored tier follows it. Only the
      rating and the tier of that one book change. */
  function WriteRating(lib: Library, id: BookId, v: Option<real>): (r: Result<Library, Error>)
    ensures r.Failure? <==> forall i :: 0 <= i < |lib.books| ==> lib.books[i].id != id
    ensures r.Failure? ==> r.error == MissingBook
    ensures r.Success? ==>
              && IndexOf(lib.books, id).Some?
              && var i := IndexOf(lib.books, id).value;
              && r.value.authors == lib.authors && r.value.categories == lib.categories
              && SameExceptAt(lib.books, r.value.books, i)
              && r.value.books[i].valoracion == v
              && Rating.TierOfLabel(r.value.books[i].nivelValoracion) == Some(Rating.Classify(Rating.EffectiveRating(v)))
              && r.value.books[i].(valoracion := lib.books[i].valoracion,
                                   nivelValoracion := lib.books[i].nivelValoracion) == lib.books[i]
    ensures r.Success? && Valid(lib) ==> Valid(r.value)
  {
    match IndexOf(lib.books, id)
    case None => Failure(MissingBook)
    case Some(i) =>
      var b := lib.books[i].(valoracion := v, nivelValoracion := Rating.NivelValoracion(v));
      Success(lib.(books := lib.books[i := b]))
  }

  /** Writes the ISBN of book `id`, cut to its field size. Rejected when
      another book already has that stored ISBN; otherwise only that book's
      ISBN changes. */
  function WriteIsbn(lib: Library, id: BookId, isbn: string): (r: Result<Library, Error>)
    ensures r == Failure(MissingBook) <==> forall i :: 0 <= i < |lib.books| ==> lib.books[i].id != id
    ensures r == Failure(DuplicateIsbn) <==>
              && IndexOf(lib.books, id).Some?
              && exists j :: 0 <= j < |lib.books| && lib.books[j].isbn == StoredIsbn(isbn) && lib.books[j].id != id
    ensures r.Success? <==>
              && IndexOf(lib.books, id).Some?
              && !exists j :: 0 <= j < |lib.books| && lib.books[j].isbn == StoredIsbn(isbn) && lib.books[j].id != id
    ensures r.Success? ==>
              && IndexOf(lib.books, id).Some?
              && var i := IndexOf(lib.books, id).value;
              && r.value.authors == lib.authors && r.value.categories == lib.categories
              && SameExceptAt(lib.books, r.value.books, i)
              && r.value.books[i] == lib.books[i].(isbn := StoredIsbn(isbn))
    ensures r.Success? && Valid(lib) ==> Valid(r.value)
  {
    match IndexOf(lib.books, id)
    case None => Failure(MissingBook)
    case Some(i) =>
      var stored := StoredIsbn(isbn);
      if IsbnInUse(lib.books, stored, Some(id)) then Failure(DuplicateIsbn)
      else Success(lib.(books := lib.books[i := lib.books[i].(isbn := stored)]))
  }

  /** Points book `id` at category `k` (or at none). Rejected when `k` names
      no category; otherwise only that link changes. */
  function WriteCategory(lib: Library, id: BookId, k: Option<CategoryId>): (r: Result<Library, Error>)
    ensures r == Failure(MissingBook) <==> forall i :: 0 <= i < |lib.books| ==> lib.books[i].id != id
    ensures r == Failure(MissingCategory) <==>
              IndexOf(lib.books, id).Some? && k.Some? && k.value !in lib.categories
    ensures r.Success? <==> IndexOf(lib.books, id).Some? && (k.None? || k.value in lib.categories)
    ensures r.Success? ==>
              && IndexOf(lib.books, id).Some?
              && var i := IndexOf(lib.books, id).value;
              && r.value.authors == lib.authors && r.value.categories == lib.categories
              && SameExceptAt(lib.books, r.value.books, i)
              && r.value.books[i] == lib.books[i].(categoria := k)
    ensures r.Success? && Valid(lib) ==> Valid(r.value)
  {
    match IndexOf(lib.books, id)
    case None => Failure(MissingBook)
    case Some(i) =>
      if k.Some? && k.value !in lib.categories then Failure(MissingCategory)
      else Success(lib.(books := lib.books[i := lib.books[i].(categoria := k)]))
  }

  /** The books after author `a` is gone: every link to `a` is cleared,
      every book is kept, and nothing but those links changes. */
  function ClearAuthor(books: seq<Book>, a: AuthorId): (r: seq<Book>)
    ensures |r| == |books|
    ensures forall i :: 0 <= i < |r| ==> r[i].autor != Some(a)
    ensures forall i :: 0 <= i < |r| && books[i].autor == Some(a) ==> r[i] == books[i].(autor := None)
    ensures forall i :: 0 <= i < |r| ==> r[i].(autor := books[i].autor) == books[i]
    ensures forall i :: 0 <= i < |r| && books[i].autor != Some(a) ==> r[i] == books[i]
  {
    seq(|books|, i requires 0 <= i < |books| =>
      if books[i].autor == Some(a) then books[i].(autor := None) else books[i])
  }

  /** Deletes author `a`. Books are never deleted with their author: their
      link is set to null. Deleting an author that is already gone removes
      nothing and is not an error. */
  function DeleteAuthor(lib: Library, a: AuthorId): (r: Result<Library, Error>)
    ensures r.Success?
    ensures r.Success? ==>
              && r.value.authors == lib.authors - {a}
              && r.value.categories == lib.categories
              && r.value.books == ClearAuthor(lib.books, a)
              && |r.value.books| == |lib.books|
              && (forall i :: 0 <= i < |lib.books| ==> r.value.books[i].id == lib.books[i].id)
              && (forall i :: 0 <= i < |lib.books| ==> r.value.books[i].autor != Some(a))
              && (forall i :: 0 <= i < |lib.books| && lib.books[i].autor == Some(a) ==>
                    r.value.books[i] == lib.books[i].(autor := None))
              && (forall i :: 0 <= i < |lib.books| && lib.books[i].autor != Some(a) ==>
                    r.value.books[i] == lib.books[i])
    ensures r.Success? && Valid(lib) ==> Valid(r.value)
  {
    Success(lib.(authors := lib.authors - {a}, books := ClearAuthor(lib.books, a)))
  }

  /** In a valid catalogue no book links to an author that is not there, so
      deleting such an author leaves the catalogue exactly as it was. */
  lemma DeleteMissingAuthorChangesNothing(lib: Library, a: AuthorId)
    requires Valid(lib)
    requires a !in lib.authors
    ensures DeleteAuthor(lib, a) == Success(lib)
  {
    var books2 := DeleteAuthor(lib, a).value.books;
    forall i | 0 <= i < |lib.books|
      ensures books2[i] == lib.books[i]
    {
      assert lib.books[i].autor != Some(a);
    }
    assert books2 == lib.books;
    assert lib.authors - {a} == lib.authors;
  }

  /** Recomputes the stored tier of every book whose id is in `selected`
      (the record set the computation runs over). Each such book's label
      depends on its own rating alone; no other field and no other book
      changes. */
  method ComputeNivelValoracion(books: seq<Book>, selected: set<BookId>) returns (out: seq<Book>)
    ensures |out| == |books|
    ensures forall i :: 0 <= i < |books| ==>
              out[i].(nivelValoracion := books[i].nivelValoracion) == books[i]
    ensures forall i :: 0 <= i < |books| && books[i].id in selected ==>
              out[i].nivelValoracion == Rating.NivelValoracion(books[i].valoracion)
    ensures forall i :: 0 <= i < |books| && books[i].id !in selected ==> out[i] == books[i]
    ensures (forall i :: 0 <= i < |books| ==> books[i].id in selected) ==> TiersCurrent(out)
  {
    out := books;
    var i := 0;
    while i < |books|
      invariant 0 <= i <= |books|
      invariant |out| == |books|
      invariant forall j :: 0 <= j < |books| ==> out[j].(nivelValoracion := books[j].nivelValoracion) == books[j]
      invariant forall j :: 0 <= j < i && books[j].id in selected ==>
                  out[j].nivelValoracion == Rating.NivelValoracion(books[j].valoracion)
      invariant forall j :: 0 <= j < |books| && (i <= j || books[j].id !in selected) ==> out[j] == books[j]
    {
      if books[i].id in selected {
        out := out[i := books[i].(nivelValoracion := Rating.NivelValoracion(books[i].valoracion))];
      }
      i := i + 1;
    }
  }

  // ---------------------------------------------------------------------
  // Sequences of writes
  // ---------------------------------------------------------------------

  function Apply(lib: Library, op: Op): Result<Library, Error> {
    match op
    case CreateBook(d) => Create(lib, d)
    case SetRating(id, v) => WriteRating(lib, id, v)
    case SetIsbn(id, isbn) => WriteIsbn(lib, id, isbn)
    case SetCategory(id, k) => WriteCategory(lib, id, k)
    case DeleteAuthorOp(a) => DeleteAuthor(lib, a)
  }

  /** Applies writes in order; a rejected write leaves the catalogue as it was. */
  function Run(lib: Library, ops: seq<Op>): Library
    decreases |ops|
  {
    if ops == [] then lib
    else
      var next := match Apply(lib, ops[0])
        case Success(lib2) => lib2
        case Failure(_) => lib;
      Run(next, ops[1..])
  }

  /** Every write keeps the catalogue valid. */
  lemma ApplyPreservesValid(lib: Library, op: Op)
    requires Valid(lib)
    ensures Apply(lib, op).Success? ==> Valid(Apply(lib, op).value)
  {
  }

  /** Whatever writes are issued, the catalogue stays valid: in particular
      no two books ever share an ISBN, and every author and category link
      resolves. The second ensures is part of `Valid`, spelled out because
      it is the constraint the source declares. */
  lemma {:induction false} RunPreservesValid(lib: Library, ops: seq<Op>)
    requires Valid(lib)
    ensures Valid(Run(lib, ops))
    ensures UniqueIsbns(Run(lib, ops).books)
    decreases |ops|
  {
    if ops != [] {
      ApplyPreservesValid(lib, ops[0]);
      var next := match Apply(lib, ops[0])
        case Success(lib2) => lib2
        case Failure(_) => lib;
      RunPreservesValid(next, ops[1..]);
    }
  }

  /** Once a book with some ISBN is in, creating another whose ISBN is
      stored the same is rejected. */
  lemma SecondCreateWithSameIsbnRejected(lib: Library, d1: BookDraft, d2: BookDraft)
    requires Create(lib, d1).Success?
    requires StoredIsbn(d2.isbn) == StoredIsbn(d1.isbn)
    ensures Create(Create(lib, d1).value, d2).Failure?
  {
    var lib1 := Create(lib, d1).value;
    assert lib1.books[|lib.books|].isbn == StoredIsbn(d2.isbn);
  }

  /** Two ISBNs that differ only after the 13th character are stored alike,
      so once one is in, the other is rejected. */
  lemma OverlongIsbnsCollide(lib: Library, d: BookDraft)
    requires d.isbn == "1234567890123A"
    requires Create(lib, d).Success?
    ensures Create(Create(lib, d).value, d.(isbn := "1234567890123B")) == Failure(DuplicateIsbn)
  {
    assert StoredIsbn("1234567890123A") == "1234567890123";
    assert StoredIsbn("1234567890123B") == "1234567890123";
    SecondCreateWithSameIsbnRejected(lib, d, d.(isbn := "1234567890123B"));
  }
}
