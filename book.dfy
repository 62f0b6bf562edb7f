/** `createBookController` (src/controllers/book.controller.ts). */
module BookController {
  import opened Js
  import opened Guards
  import opened Store
  import Validator

  /** The fields of the request body the handler reads. */
  datatype BookBody = BookBody(authorId: Value, publisherId: Value, title: Value, publishYear: Value)

  const AuthorIdRequired := "Author ID is required"
  const PublisherIdRequired := "Publisher ID is required"
  const TitleTooShort := "Book title must be at least 3 characters"
  const InvalidYear := "Invalid publish year"
  const AuthorNotFound := "Author not found"
  const PublisherNotFound := "Publisher not found"
  const Created := "Create book successful"

  /** `!(!publish_year || publish_year < 1000 || publish_year > currentYear)`. */
  predicate YearPasses(year: Value, currentYear: int) {
    !(Falsy(year) || Below(year, 1000) || Above(year, currentYear))
  }

  /** The four field checks that run before any lookup. */
  predicate FieldsPass(body: BookBody, currentYear: int) {
    !Falsy(body.authorId) && !Falsy(body.publisherId) && !TooShort(body.title, 3)
    && YearPasses(body.publishYear, currentYear)
  }

  /** The handler's guards, in the order it runs them. */
  function Checks(body: BookBody, currentYear: int, authors: map<Id, Author>, publishers: map<Id, Publisher>): seq<Check> {
    [ Check(!Falsy(body.authorId), 400, AuthorIdRequired),
      Check(!Falsy(body.publisherId), 400, PublisherIdRequired),
      Check(!TooShort(body.title, 3), 400, TitleTooShort),
      Check(YearPasses(body.publishYear, currentYear), 400, InvalidYear),
      Check(Finds(authors, body.authorId), 404, AuthorNotFound),
      Check(Finds(publishers, body.publisherId), 404, PublisherNotFound) ]
  }

  /** The handler's reply to `body` against the author and publisher tables,
      `currentYear` standing for `new Date().getFullYear()`. The fields are
      checked in order, then the author must exist, then the publisher. There
      is no uniqueness check. An accepted year that is a number lies between
      1000 and the current year. */
  function CreateBookReply(body: BookBody, currentYear: int, authors: map<Id, Author>, publishers: map<Id, Publisher>)
    : (r: Reply<Book>)
    ensures Falsy(body.authorId) ==> r == Reply(400, AuthorIdRequired, None)
    ensures !Falsy(body.authorId) && Falsy(body.publisherId) ==> r == Reply(400, PublisherIdRequired, None)
    ensures !Falsy(body.authorId) && !Falsy(body.publisherId) && TooShort(body.title, 3)
            ==> r == Reply(400, TitleTooShort, None)
    ensures (!Falsy(body.authorId) && !Falsy(body.publisherId) && !TooShort(body.title, 3)
             && !YearPasses(body.publishYear, currentYear)) ==> r == Reply(400, InvalidYear, None)
    ensures FieldsPass(body, currentYear) && !Finds(authors, body.authorId) ==> r == Reply(404, AuthorNotFound, None)
    ensures (FieldsPass(body, currentYear) && Finds(authors, body.authorId) && !Finds(publishers, body.publisherId))
            ==> r == Reply(404, PublisherNotFound, None)
    ensures r.status == 201 <==> (FieldsPass(body, currentYear) && Finds(authors, body.authorId)
                                  && Finds(publishers, body.publisherId))
    ensures r.status == 201 ==>
              r == Reply(201, Created, Some(Book(body.authorId.s, body.publisherId.s, body.title, body.publishYear)))
    ensures r.status == 201 && body.publishYear.Num? ==> 1000 <= body.publishYear.n <= currentYear
  {
    var cs := Checks(body, currentYear, authors, publishers);
    var k := FirstFailing(cs);
    assert cs == [cs[0], cs[1], cs[2], cs[3], cs[4], cs[5]];
    if k < |cs| then Refuse(cs[k])
    else Reply(201, Created, Some(Book(body.authorId.s, body.publisherId.s, body.title, body.publishYear)))
  }

  /** On a numeric year the inline check agrees with `yearValidator`; a
      string that does not read as a number passes it, which the validator
      would refuse. */
  lemma InlineYearCheckAgainstValidator(year: Value, currentYear: int, context: string)
    ensures year.Num? ==> (YearPasses(year, currentYear) <==> Validator.YearValidator(year, context, currentYear).Valid?)
    ensures YearPasses(Str("MMXX"), currentYear) && Validator.YearValidator(Str("MMXX"), context, currentYear).Invalid?
  {
    assert Trim("MMXX") == "MMXX" by {
      assert TrimStart("MMXX") == "MMXX";
      assert TrimEnd("MMXX") == "MMXX";
    }
    assert !AllDigits("MMXX") by { assert !IsDigit("MMXX"[0]); }
  }

  /** Two identical valid requests add two books with the same fields. */
  lemma DuplicateBooksAllowed(body: BookBody, currentYear: int, authors: map<Id, Author>,
                              publishers: map<Id, Publisher>, books: map<Id, Book>, first: Id, second: Id)
    requires first !in books && second !in books && first != second
    requires CreateBookReply(body, currentYear, authors, publishers).status == 201
    ensures var r := CreateBookReply(body, currentYear, authors, publishers);
      var once := Insert(books, r, first);
      second !in once &&
      var twice := Insert(once, r, second);
      |twice| == |books| + 2 && twice[first] == twice[second]
  {
  }

  /** The handler: run the guards against the store, then create the book. */
  method CreateBook(db: Db, body: BookBody, currentYear: int, newId: Id) returns (reply: Reply<Book>)
    requires db.Valid() && newId !in db.books
    modifies db`books
    ensures db.Valid()
    ensures reply == CreateBookReply(body, currentYear, old(db.authors), old(db.publishers))
    ensures db.books == Insert(old(db.books), reply, newId)
  {
    if Falsy(body.authorId) {
      return Reply(400, AuthorIdRequired, None);
    }
    if Falsy(body.publisherId) {
      return Reply(400, PublisherIdRequired, None);
    }
    if TooShort(body.title, 3) {
      return Reply(400, TitleTooShort, None);
    }
    if Falsy(body.publishYear) || Below(body.publishYear, 1000) || Above(body.publishYear, currentYear) {
      return Reply(400, InvalidYear, None);
    }
    if !Finds(db.authors, body.authorId) {
      return Reply(404, AuthorNotFound, None);
    }
    if !Finds(db.publishers, body.publisherId) {
      return Reply(404, PublisherNotFound, None);
    }
    var row := Book(body.authorId.s, body.publisherId.s, body.title, body.publishYear);
    db.books := db.books[newId := row];
    reply := Reply(201, Created, Some(row));
  }
}
