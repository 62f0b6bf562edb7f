/** `createPublisherController` (src/controllers/publisher.controller.ts). */
module PublisherController {
  import opened Js
  import opened Guards
  import opened Store

  /** The field of the request body the handler reads. */
  datatype PublisherBody = PublisherBody(publisherName: Value)

  const NameTooShort := "Publisher name must be at least 3 characters"
  const NameExists := "Publisher name already exists"
  const Created := "Create publisher successful"

  /** The handler's guards, in the order it runs them. */
  function Checks(body: PublisherBody, publishers: map<Id, Publisher>): seq<Check> {
    [ Check(!TooShort(body.publisherName, 3), 400, NameTooShort),
      Check(!PublisherNamed(publishers, body.publisherName), 409, NameExists) ]
  }

  /** The handler's reply to `body` against the publisher table: the name is
      checked before the duplicate lookup, and a publisher is created exactly
      when the name is long enough and not taken. */
  function CreatePublisherReply(body: PublisherBody, publishers: map<Id, Publisher>): (r: Reply<Publisher>)
    ensures TooShort(body.publisherName, 3) ==> r == Reply(400, NameTooShort, None)
    ensures !TooShort(body.publisherName, 3) && PublisherNamed(publishers, body.publisherName)
            ==> r == Reply(409, NameExists, None)
    ensures r.status == 201 <==> !TooShort(body.publisherName, 3) && !PublisherNamed(publishers, body.publisherName)
    ensures r.status == 201 ==> r == Reply(201, Created, Some(Publisher(body.publisherName)))
  {
    var cs := Checks(body, publishers);
    var k := FirstFailing(cs);
    assert cs == [cs[0], cs[1]];
    if k < |cs| then Refuse(cs[k])
    else Reply(201, Created, Some(Publisher(body.publisherName)))
  }

  /** Check-then-create keeps publisher names unique. */
  lemma CreatePublisherKeepsNamesUnique(body: PublisherBody, publishers: map<Id, Publisher>, newId: Id)
    requires UniquePublisherNames(publishers) && newId !in publishers
    ensures UniquePublisherNames(Insert(publishers, CreatePublisherReply(body, publishers), newId))
  {
  }

  /** The handler: run the guards against the store, then create the publisher. */
  method CreatePublisher(db: Db, body: PublisherBody, newId: Id) returns (reply: Reply<Publisher>)
    requires db.Valid() && newId !in db.publishers
    modifies db`publishers
    ensures db.Valid()
    ensures reply == CreatePublisherReply(body, old(db.publishers))
    ensures db.publishers == Insert(old(db.publishers), reply, newId)
  {
    if TooShort(body.publisherName, 3) {
      return Reply(400, NameTooShort, None);
    }
    if PublisherNamed(db.publishers, body.publisherName) {
      return Reply(409, NameExists, None);
    }
    var row := Publisher(body.publisherName);
    CreatePublisherKeepsNamesUnique(body, db.publishers, newId);
    db.publishers := db.publishers[newId := row];
    reply := Reply(201, Created, Some(row));
  }
}
