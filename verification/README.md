# Library catalogue: rating tiers, unique ISBNs and category counts

A Dafny model of the behavioural core of a small library-management module
built on an ORM framework. Books (`libro.libro`) carry a numeric rating
`valoracion` and a stored, computed tier label `nivel_valoracion`. ISBNs
must be unique across books. A book's author link is cleared, and the book
kept, when the author is deleted. Categories (`libro.categoria`) expose
their books as the inverse of the books' category link, and a computed
book count `cantidad_libros`.

The model is functional. A catalogue is an immutable `Library` value: a
set of author ids, a set of category ids, and a sequence of `Book` records. Every write is a pure
function that returns either the new catalogue or the reason the database
would reject it. A rejected write changes nothing, as under the framework's
transaction. Deleting an author is never rejected: an author that is
already gone is simply not there to delete.

- `wrappers.dfy`: `Option` and `Result`.
- `rating.dfy`, module `Rating`: the five-way tier classifier. It is checked
  against two independent reference definitions: the half-open band each
  tier covers, read off a threshold table, and the number of thresholds
  the rating has reached.
- `books.dfy`, module `Books`: the book record with its field defaults, and
  creation and writes that recompute the tier. Also the ISBN uniqueness
  constraint, set-null on author deletion, and the recompute loop over a
  record set. A catalogue invariant `Valid` is proved to survive any
  sequence of writes.
- `categories.dfy`, module `Categories`: the inverse book collection of a
  category, its count, and how writes move counts between categories.

The model follows the code wherever prose written about the module promises
more. The module's written description of the loan workflow (outside
the code) has three rules: loan validation (a return date not before the
loan date, at most one active loan per book), syncing book availability
when a loan's status changes, and a default status of "loaned".
`models/prestamo.py` declares only fields: no constraint, no create or write
override, and no default on `estado`. So none of that is modelled.
The docstring of the tier computation (`models/libro.py:106-111`) lists the
tiers as "0 a 4.9" up to "9.5 a 10", which suggests bounds at both ends.
The code enforces neither bound, so negative ratings are Baja here and
ratings above 10 are Excelente.

The `isbn` field is declared with `size=13` (`models/libro.py:22-27`). The
ORM framework does not reject a longer value: its character field keeps
the first 13 characters. The uniqueness constraint then
compares those cut values. The model stores and compares ISBNs the same
way (`Books.StoredIsbn`).

## Model

| member | source | states |
|---|---|---|
| Rating.Label | models/libro.py:116-125 | the stored label is always one of exactly five: Baja, Regular, Buena, Muy buena, Excelente |
| Rating.TierOfLabel | models/libro.py:116-125 | a string is read back as a tier exactly when it is one of the five labels, and then it is that tier's label |
| Rating.EffectiveRating | models/libro.py:114 | a missing rating counts as 0: the result is 0 exactly when the rating is falsy (empty or 0), and any other rating is kept |
| Rating.Classify | models/libro.py:116-125 | the tier returned is the one whose half-open band in the threshold table (5, 7, 8.5, 9.5) contains the rating |
| Rating.NivelValoracion | models/libro.py:113-125 | the computed label, for a possibly missing rating, is one of the five labels and names the tier of the rating, or of 0 when missing |
| Rating.LabelRoundTrip | models/libro.py:116-125 | distinct tiers get distinct labels: reading a tier's label back gives that tier |
| Rating.ClassifyIsBand | models/libro.py:116-125 | the classifier returns tier t exactly when the rating lies in t's band: below 5 Baja, [5,7) Regular, [7,8.5) Buena, [8.5,9.5) Muy buena, 9.5 and up Excelente |
| Rating.RankIsThresholdsReached | models/libro.py:116-125 | the tier's rank (0 to 4) equals the number of thresholds 5, 7, 8.5, 9.5 the rating has reached |
| Rating.ClassifyMonotone | models/libro.py:116-125 | if r1 <= r2 then the rank of r1's tier is at most the rank of r2's tier |
| Rating.HighRatingIsExcelente | models/libro.py:116-125 | no clamping at the top: every rating of 9.5 or more, above 10 included, is Excelente |
| Rating.NegativeRatingIsBaja | models/libro.py:116-117 | no clamping at the bottom: every negative rating is Baja |
| Rating.MissingRatingIsBaja | models/libro.py:114-117 | a missing rating counts as 0 and is labelled Baja |
| Rating.DefaultRatingIsRegular | models/libro.py:116-119 | the default rating 5.0 is labelled Regular |
| Rating.BoundaryValues | models/libro.py:116-125 | 4.9 Baja, 5.0 Regular, 6.9 Regular, 7.0 Buena, 8.4 Buena, 8.5 Muy buena, 9.4 Muy buena, 9.5, 10.0 and 10.1 Excelente |
| Books.NewBook | models/libro.py:16-90 | a created book keeps every given value, with the ISBN cut to 13 characters. Values not given get the defaults genre novel, available, and rating 5.0 (so label Regular). A rating given as empty stands for a falsy rating, which reads as 0 and is labelled Baja. The stored label always matches the stored rating |
| Books.StoredIsbn | models/libro.py:22-27 | the stored ISBN is the given one when it has at most 13 characters, and its first 13 characters otherwise |
| Books.Create | models/libro.py:127-130 | creation is rejected exactly when the author or category link is dangling, or another book already has the stored (cut) ISBN; each rejection names its cause: a dangling author is reported as a missing author, a dangling category as a missing category, and a taken stored ISBN as a duplicate. Otherwise one book is appended under an unused id, the existing books are unchanged, and validity is kept |
| Books.WriteRating | models/libro.py:101-125 | writing a rating fails exactly for an unknown book, and then reports a missing book; otherwise only that book's rating and stored label change, and the label names the tier of the new rating |
| Books.WriteIsbn | models/libro.py:127-130 | for an existing book, writing an ISBN succeeds exactly when no other book has its stored (cut) form, and is rejected as a duplicate otherwise. On success only that book's ISBN changes, and uniqueness is kept |
| Books.WriteCategory | models/categoria.py:38-43 | for an existing book, re-linking its category succeeds exactly when the new link is empty or names an existing category. On success that one link changes and nothing else |
| Books.ClearAuthor | models/libro.py:93-98 | set null: every book that linked to the author now has an empty author link and is otherwise unchanged. Every other book is unchanged, and no book is dropped |
| Books.DeleteAuthor | models/libro.py:93-98 | deleting an author always succeeds. It removes the author and keeps every book with the same id. A book that linked to that author gets an empty author link and is otherwise unchanged. Every other book is unchanged, and every author link still resolves |
| Books.DeleteMissingAuthorChangesNothing | models/libro.py:93-98 | in a valid catalogue, deleting an author that is not there succeeds and leaves the catalogue exactly as it was |
| Books.ComputeNivelValoracion | models/libro.py:100-125 | the recompute over a record set changes only the label field. Each selected book's label is the one for its own rating, and unselected books are untouched. Over all books, every stored label is current |
| Books.ApplyPreservesValid | models/libro.py:85-130 | every successful write keeps ids distinct, ISBNs unique and within 13 characters, stored labels current, and author and category links resolvable |
| Books.RunPreservesValid | models/libro.py:127-130 | after any sequence of writes, rejected ones rolled back, no two books share an ISBN and the catalogue stays valid |
| Books.SecondCreateWithSameIsbnRejected | models/libro.py:127-130 | after a book is created, creating another whose ISBN is stored the same is rejected |
| Books.OverlongIsbnsCollide | models/libro.py:127-130 | "1234567890123A" and "1234567890123B" are both stored as "1234567890123", so once the first is in, creating the second is rejected as a duplicate |
| Categories.CategoryBooks | models/categoria.py:38-43 | every book in a category's collection links to that category, and the collection is no larger than the catalogue |
| Categories.CategoryBooksMembers | models/categoria.py:38-43 | a category's book collection holds exactly the catalogue's books whose category link is that category |
| Categories.CountSnoc | models/categoria.py:38-54 | adding a book to the end of the catalogue raises a category's count by 1 if the book links to it, and by 0 otherwise |
| Categories.CantidadLibros | models/categoria.py:52-54 | the computed count of a category is a natural number equal to the size of the category's book collection and to the number of catalogue positions linking to it |
| Categories.CountIsLinkedIndices | models/categoria.py:38-54 | the size of the collection is the number of books linking to the category, each counted once |
| Categories.EmptyCategory | models/categoria.py:52-54 | the count is 0 exactly when no book links to the category |
| Categories.CountAfterReplace | models/categoria.py:38-54 | replacing one book changes a category's count by exactly what the new book adds and the old one removed |
| Categories.CountDependsOnlyOnLinks | models/categoria.py:38-43 | two catalogues with the same category links, position by position, give every category the same count |
| Categories.CountAfterWriteCategory | models/categoria.py:38-54 | re-linking a book to an existing category, or to none, moves one unit of count from its old category, if any, to its new one, if any |
| Categories.MoveBetweenCategories | models/categoria.py:38-54 | moving a book from category A to a different, existing B lowers A's count by 1, raises B's by 1, and leaves every other count unchanged |
| Categories.OtherWritesKeepCounts | models/categoria.py:38-54 | writing a rating or an ISBN, or deleting an author, leaves every category's count unchanged |
| Categories.CreateAddsToItsCategory | models/categoria.py:38-54 | creating a book raises by one the count of the category it links to, and no other |

## Left out

- Loans (`models/prestamo.py`): only fields are declared. Their required links, `ondelete='restrict'` and status selection are enforced by the framework. There is no procedural loan logic, so date ordering, single active loan and availability sync are not modelled.
- Author records (`models/autor.py`): authors appear only as a set of ids, and creating authors is not modelled, so along a sequence of writes the author set only shrinks. Their fields and their inverse book list have no logic of their own.
- Category deletion: the books' `categoria_id` field is not declared in the code shown, so its deletion policy is not known and is not modelled. The category set only changes through the initial catalogue. As the inverse of `libro_ids`, the link is taken to be a many-to-one link that the database requires to resolve.
- Category records: their name, description, location and colour (default 0) are plain storage with no logic, so a category is only its id here.
- Creating or editing categories, and editing book fields other than rating, ISBN and category: plain storage with no logic.
- Deleting books: the framework's generic record deletion, with no logic in this module.
- Required fields (title, ISBN, publication date) and selection membership are the framework's field validation, and are not modelled. ISBN format and check digits are not validated by the code either.
- Creating a book with a genre given as empty: the model's genre is always one of the thirteen values.
- Books.Create: when more than one rule is broken, the model reports the missing author first, then the missing category, then the duplicate ISBN. The database's order of constraint checks is not modelled.
- Ratings are `real`. IEEE floating-point specifics such as NaN, infinities and rounding are not modelled. The thresholds 5, 7, 8.5 and 9.5 are exact in binary, so comparisons of finite values agree.
- Dates are day numbers. Persistence, search, access control, views, the dashboard, report templates, demo data and module metadata (`__manifest__.py`) are framework or presentation concerns with no behaviour here.
