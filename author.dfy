/** `createAuthorController` (src/controllers/author.controller.ts). */
module AuthorController {
  import opened Js
  import opened Guards
  import opened Store

  /** The field of the request body the handler reads. */
  datatype AuthorBody = AuthorBody(authorName: Value)

  const NameTooShort := "Author name must be at least 3 characters"
  const Created := "Create author successful"

  /** The handler's reply to `body`. It reads no table: whether an author is
      created depends on the request alone, and names need not be unique. */
  function CreateAuthorReply(body: AuthorBody): (r: Reply<Author>)
    ensures TooShort(body.authorName, 3) ==> r == Reply(400, NameTooShort, None)
    ensures r.status == 201 <==> !TooShort(body.authorName, 3)
    ensures r.status == 201 ==> r == Reply(201, Created, Some(Author(body.authorName)))
  {
    var cs := [Check(!TooShort(body.authorName, 3), 400, NameTooShort)];
    var k := FirstFailing(cs);
    if k < |cs| then Refuse(cs[k])
    else Reply(201, Created, Some(Author(body.authorName)))
  }

  /** Two identical valid requests add two authors with the same name. */
  lemma DuplicateAuthorsAllowed(body: AuthorBody, authors: map<Id, Author>, first: Id, second: Id)
    requires first !in authors && second !in authors && first != second
    requires !TooShort(body.authorName, 3)
    ensures var once := Insert(authors, CreateAuthorReply(body), first);
      second !in once &&
      var twice := Insert(once, CreateAuthorReply(body), second);
      |twice| == |authors| + 2 && twice[first] == twice[second] == Author(body.authorName)
  {
  }

  /** The handler: check the name, then create the author. */
  method CreateAuthor(db: Db, body: AuthorBody, newId: Id) returns (reply: Reply<Author>)
    requires db.Valid() && newId !in db.authors
    modifies db`authors
    ensures db.Valid()
    ensures reply == CreateAuthorReply(body)
    ensures db.authors == Insert(old(db.authors), reply, newId)
  {
    if TooShort(body.authorName, 3) {
      return Reply(400, NameTooShort, None);
    }
    var row := Author(body.authorName);
    db.authors := db.authors[newId := row];
    reply := Reply(201, Created, Some(row));
  }
}
