/** The catalog handlers (controllers/bookController.js): the one-time seeding
    and the read-only book queries. */
module BookController {
  import opened Types
  import opened BookModel
  import opened Store

  /** One row of the hard-coded catalog. */
  datatype SeedEntry = SeedEntry(bookId: string, title: string, author: string,
                                 pricePerDay: real, groupPricePerDay: real)

  /** The twenty books the catalog starts with. */
  const SEED: seq<SeedEntry> := [
    SeedEntry("B001", "To Kill a Mockingbird", "Harper Lee", 2.5, 1.8),
    SeedEntry("B002", "1984", "George Orwell", 3.0, 2.2),
    SeedEntry("B003", "Pride and Prejudice", "Jane Austen", 2.0, 1.5),
    SeedEntry("B004", "The Great Gatsby", "F. Scott Fitzgerald", 2.8, 2.0),
    SeedEntry("B005", "Moby Dick", "Herman Melville", 3.5, 2.5),
    SeedEntry("B006", "War and Peace", "Leo Tolstoy", 4.0, 3.0),
    SeedEntry("B007", "The Catcher in the Rye", "J.D. Salinger", 2.5, 1.8),
    SeedEntry("B008", "The Hobbit", "J.R.R. Tolkien", 3.0, 2.3),
    SeedEntry("B009", "Fahrenheit 451", "Ray Bradbury", 2.7, 2.0),
    SeedEntry("B010", "Jane Eyre", "Charlotte Bronte", 2.5, 1.8),
    SeedEntry("B011", "Animal Farm", "George Orwell", 2.2, 1.6),
    SeedEntry("B012", "Brave New World", "Aldous Huxley", 2.8, 2.1),
    SeedEntry("B013", "The Lord of the Rings", "J.R.R. Tolkien", 4.5, 3.5),
    SeedEntry("B014", "Wuthering Heights", "Emily Bronte", 2.6, 1.9),
    SeedEntry("B015", "The Chronicles of Narnia", "C.S. Lewis", 3.2, 2.4),
    SeedEntry("B016", "Crime and Punishment", "Fyodor Dostoevsky", 3.8, 2.8),
    SeedEntry("B017", "The Odyssey", "Homer", 3.5, 2.6),
    SeedEntry("B018", "Great Expectations", "Charles Dickens", 2.9, 2.2),
    SeedEntry("B019", "Hamlet", "William Shakespeare", 3.0, 2.3),
    SeedEntry("B020", "The Divine Comedy", "Dante Alighieri", 4.2, 3.2)
  ]

  /** The seed rows carry distinct `bookId`s and every required field. */
  lemma SeedWellFormed()
    ensures |SEED| == 20
    ensures forall i, j :: 0 <= i < j < |SEED| ==> SEED[i].bookId != SEED[j].bookId
    ensures forall i :: 0 <= i < |SEED| ==>
              NewBook(SEED[i].bookId, SEED[i].title, SEED[i].author,
                      Some(SEED[i].pricePerDay), Some(SEED[i].groupPricePerDay)).Ok?
  {
  }

  /** The document a seed row becomes: available, with no borrower. */
  function SeedBook(e: SeedEntry): (b: Book)
    ensures b.isAvailable && b.currentBorrower == None && AvailabilityConsistent(b)
    ensures b.bookId == e.bookId && b.title == e.title && b.author == e.author
    ensures b.pricePerDay == e.pricePerDay && b.groupPricePerDay == e.groupPricePerDay
  {
    Book(e.bookId, e.title, e.author, e.pricePerDay, e.groupPricePerDay, true, None)
  }

  /** `insertMany`: row `i` is stored under the fresh id `base + i`. */
  function InsertMany(base: nat, entries: seq<SeedEntry>): (m: map<BookRef, Book>)
    ensures |m| == |entries|
    ensures forall k :: k in m <==> base <= k < base + |entries|
    ensures forall i :: 0 <= i < |entries| ==> m[base + i] == SeedBook(entries[i])
    decreases |entries|
  {
    if entries == [] then map[]
    else
      var n := |entries| - 1;
      InsertMany(base, entries[..n])[base + n := SeedBook(entries[n])]
  }

  /** The seeded catalog holds twenty available books with distinct
      `bookId`s, under the ids `base .. base + 19`. */
  lemma SeedCatalog(base: nat)
    ensures |InsertMany(base, SEED)| == 20
    ensures forall k :: k in InsertMany(base, SEED) <==> base <= k < base + 20
    ensures forall k :: k in InsertMany(base, SEED) ==>
              InsertMany(base, SEED)[k].isAvailable && InsertMany(base, SEED)[k].currentBorrower == None
    ensures BookIdsUnique(InsertMany(base, SEED))
  {
    var books := InsertMany(base, SEED);
    SeedWellFormed();
    forall a, b | a in books && b in books && books[a].bookId == books[b].bookId
      ensures a == b
    {
      assert books[a] == SeedBook(SEED[a - base]);
      assert books[b] == SeedBook(SEED[b - base]);
    }
    forall k | k in books
      ensures books[k].isAvailable && books[k].currentBorrower == None
    {
      assert books[k] == SeedBook(SEED[k - base]);
    }
  }

  /** `initializeBooks`: the seed rows go in only when the catalog is empty. */
  function InitializeBooks(s: State): (s': State)
    ensures |s.books| != 0 ==> s' == s
    ensures |s.books| == 0 ==>
              && s'.books == InsertMany(s.nextId, SEED)
              && |s'.books| == 20
              && s'.nextId == s.nextId + 20
              && s'.users == s.users && s'.borrows == s.borrows && s'.payments == s.payments
  {
    if |s.books| == 0 then
      SeedCatalog(s.nextId);
      s.(books := InsertMany(s.nextId, SEED), nextId := s.nextId + |SEED|)
    else
      s
  }

  /** Seeding twice is seeding once. */
  lemma InitializeBooksIdempotent(s: State)
    ensures InitializeBooks(InitializeBooks(s)) == InitializeBooks(s)
  {
  }

  /** `getAllBooks`: the whole catalog. */
  function GetAllBooks(s: State): (r: map<BookRef, Book>)
    ensures r == s.books
  {
    s.books
  }

  /** `getAvailableBooks`: the books whose `isAvailable` flag is set, and no
      others. */
  function GetAvailableBooks(s: State): (r: map<BookRef, Book>)
    ensures forall k :: k in r <==> k in s.books && s.books[k].isAvailable
    ensures forall k :: k in r ==> r[k] == s.books[k]
  {
    map k | k in s.books && s.books[k].isAvailable :: s.books[k]
  }

  /** `getBookById`: the book, or NotFound. */
  function GetBookById(s: State, id: BookRef): (r: Result<Book>)
    ensures r.Err? <==> id !in s.books
    ensures r.Err? ==> r.error == NotFound
    ensures r.Ok? ==> r.value == s.books[id]
  {
    if id in s.books then Ok(s.books[id]) else Err(NotFound)
  }
}
