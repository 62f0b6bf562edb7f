/** `createTransactionController` and `createTransactionItemController`
    (src/controllers/transaction.controller.ts). */
module TransactionController {
  import opened Js
  import opened Guards
  import opened Store

  /** The fields of the request body the transaction handler reads. */
  datatype TransactionBody = TransactionBody(staffId: Value, memberId: Value, branchId: Value,
                                             status: Value, deadlineAt: Value)

  const StaffIdRequired := "Staff ID is required"
  const MemberIdRequired := "Member ID is required"
  const BranchIdRequired := "Branch ID is required"
  const StatusRequired := "Transaction status is required"
  const InvalidDeadline := "Invalid deadline date"
  const StaffNotFound := "Staff not found"
  const MemberNotFound := "Member not found"
  const BranchNotFound := "Branch not found"
  const InvalidStatus := "Invalid transaction status"
  const Created := "Create transaction successful"

  /** `!(!deadline_at || isNaN(Date.parse(deadline_at)))`, with `parsable`
      standing for "`Date.parse` does not return NaN". */
  predicate DeadlinePasses(deadline: Value, parsable: string -> bool) {
    !Falsy(deadline) && parsable(ToText(deadline))
  }

  /** The five field checks that run before any lookup. */
  predicate FieldsPass(body: TransactionBody, parsable: string -> bool) {
    !Falsy(body.staffId) && !Falsy(body.memberId) && !Falsy(body.branchId) && !Falsy(body.status)
    && DeadlinePasses(body.deadlineAt, parsable)
  }

  /** The three referenced rows exist. */
  predicate Referenced(body: TransactionBody, staff: map<Id, Staff>, members: map<Id, Member>,
                       branches: map<Id, Branch>) {
    Finds(staff, body.staffId) && Finds(members, body.memberId) && Finds(branches, body.branchId)
  }

  /** The transaction handler's guards, in the order it runs them. */
  function Checks(body: TransactionBody, parsable: string -> bool, staff: map<Id, Staff>,
                  members: map<Id, Member>, branches: map<Id, Branch>): seq<Check> {
    [ Check(!Falsy(body.staffId), 400, StaffIdRequired),
      Check(!Falsy(body.memberId), 400, MemberIdRequired),
      Check(!Falsy(body.branchId), 400, BranchIdRequired),
      Check(!Falsy(body.status), 400, StatusRequired),
      Check(DeadlinePasses(body.deadlineAt, parsable), 400, InvalidDeadline),
      Check(Finds(staff, body.staffId), 404, StaffNotFound),
      Check(Finds(members, body.memberId), 404, MemberNotFound),
      Check(Finds(branches, body.branchId), 404, BranchNotFound),
      Check(ParseTransactionStatus(body.status).Some?, 400, InvalidStatus) ]
  }

  /** The transaction handler's reply to `body` against the staff, member and
      branch tables. A transaction is created exactly when every guard passes;
      it carries the given ids, status and deadline and no fine. */
  function CreateTransactionReply(body: TransactionBody, parsable: string -> bool, staff: map<Id, Staff>,
                                  members: map<Id, Member>, branches: map<Id, Branch>): (r: Reply<Transaction>)
    ensures r.status == 201 <==> (FieldsPass(body, parsable) && Referenced(body, staff, members, branches)
                                  && ParseTransactionStatus(body.status).Some?)
    ensures r.status == 201 ==>
              r == Reply(201, Created, Some(Transaction(body.staffId.s, body.memberId.s, body.branchId.s,
                                                        ParseTransactionStatus(body.status).value,
                                                        body.deadlineAt, None)))
    ensures r.status != 201 ==> r.data.None?
  {
    var cs := Checks(body, parsable, staff, members, branches);
    var k := FirstFailing(cs);
    assert cs == [cs[0], cs[1], cs[2], cs[3], cs[4], cs[5], cs[6], cs[7], cs[8]];
    if k < |cs| then Refuse(cs[k])
    else
      Reply(201, Created, Some(Transaction(body.staffId.s, body.memberId.s, body.branchId.s,
                                           ParseTransactionStatus(body.status).value, body.deadlineAt, None)))
  }

  /** Which guard answers a refused request. The fields are checked in order
      (a missing or unparsable deadline before any lookup), then staff, member
      and branch must exist, in that order, and only then is the status
      checked against the enumeration. */
  lemma CreateTransactionGuardOrder(body: TransactionBody, parsable: string -> bool, staff: map<Id, Staff>,
                                    members: map<Id, Member>, branches: map<Id, Branch>)
    ensures var r := CreateTransactionReply(body, parsable, staff, members, branches);
      (Falsy(body.staffId) ==> r == Reply(400, StaffIdRequired, None))
      && (!Falsy(body.staffId) && Falsy(body.memberId) ==> r == Reply(400, MemberIdRequired, None))
      && (!Falsy(body.staffId) && !Falsy(body.memberId) && Falsy(body.branchId)
          ==> r == Reply(400, BranchIdRequired, None))
      && ((!Falsy(body.staffId) && !Falsy(body.memberId) && !Falsy(body.branchId) && Falsy(body.status))
          ==> r == Reply(400, StatusRequired, None))
      && ((!Falsy(body.staffId) && !Falsy(body.memberId) && !Falsy(body.branchId) && !Falsy(body.status)
           && !DeadlinePasses(body.deadlineAt, parsable)) ==> r == Reply(400, InvalidDeadline, None))
      && (FieldsPass(body, parsable) && !Finds(staff, body.staffId) ==> r == Reply(404, StaffNotFound, None))
      && ((FieldsPass(body, parsable) && Finds(staff, body.staffId) && !Finds(members, body.memberId))
          ==> r == Reply(404, MemberNotFound, None))
      && ((FieldsPass(body, parsable) && Finds(staff, body.staffId) && Finds(members, body.memberId)
           && !Finds(branches, body.branchId)) ==> r == Reply(404, BranchNotFound, None))
      && ((FieldsPass(body, parsable) && Referenced(body, staff, members, branches)
           && ParseTransactionStatus(body.status).None?) ==> r == Reply(400, InvalidStatus, None))
  {
    var cs := Checks(body, parsable, staff, members, branches);
    assert cs == [cs[0], cs[1], cs[2], cs[3], cs[4], cs[5], cs[6], cs[7], cs[8]];
  }

  /** The transaction handler: run the guards against the store, then create the transaction. */
  method CreateTransaction(db: Db, body: TransactionBody, parsable: string -> bool, newId: Id)
    returns (reply: Reply<Transaction>)
    requires db.Valid() && newId !in db.transactions
    modifies db`transactions
    ensures db.Valid()
    ensures reply == CreateTransactionReply(body, parsable, old(db.staff), old(db.members), old(db.branches))
    ensures db.transactions == Insert(old(db.transactions), reply, newId)
  {
    CreateTransactionGuardOrder(body, parsable, db.staff, db.members, db.branches);
    if Falsy(body.staffId) {
      return Reply(400, StaffIdRequired, None);
    }
    if Falsy(body.memberId) {
      return Reply(400, MemberIdRequired, None);
    }
    if Falsy(body.branchId) {
      return Reply(400, BranchIdRequired, None);
    }
    if Falsy(body.status) {
      return Reply(400, StatusRequired, None);
    }
    if Falsy(body.deadlineAt) || !parsable(ToText(body.deadlineAt)) {
      return Reply(400, InvalidDeadline, None);
    }
    if !Finds(db.staff, body.staffId) {
      return Reply(404, StaffNotFound, None);
    }
    if !Finds(db.members, body.memberId) {
      return Reply(404, MemberNotFound, None);
    }
    if !Finds(db.branches, body.branchId) {
      return Reply(404, BranchNotFound, None);
    }
    var status := ParseTransactionStatus(body.status);
    if status.None? {
      return Reply(400, InvalidStatus, None);
    }
    var row := Transaction(body.staffId.s, body.memberId.s, body.branchId.s, status.value, body.deadlineAt, None);
    db.transactions := db.transactions[newId := row];
    reply := Reply(201, Created, Some(row));
  }

  // ---------------------------------------------------------------- items

  /** The fields of the request body the item handler reads. */
  datatype ItemBody = ItemBody(transactionId: Value, bookId: Value, note: Value)

  const TransactionIdRequired := "Transaction ID is required"
  const BookIdRequired := "Book ID is required"
  const TransactionNotFound := "Transaction not found"
  const BookNotFound := "Book not found"
  const AlreadyAdded := "This book already added to the transaction"
  const ItemCreated := "Create transaction item successful"

  /** `transaction_item.findFirst({ where: { transaction_id, book_id } })` finds a row. */
  predicate PairTaken(items: map<Id, TransactionItem>, transactionId: Value, bookId: Value) {
    transactionId.Str? && bookId.Str? && ItemFor(items, transactionId.s, bookId.s)
  }

  /** The item handler's guards, in the order it runs them. */
  function ItemChecks(body: ItemBody, transactions: map<Id, Transaction>, books: map<Id, Book>,
                      items: map<Id, TransactionItem>): seq<Check> {
    [ Check(!Falsy(body.transactionId), 400, TransactionIdRequired),
      Check(!Falsy(body.bookId), 400, BookIdRequired),
      Check(Finds(transactions, body.transactionId), 404, TransactionNotFound),
      Check(Finds(books, body.bookId), 404, BookNotFound),
      Check(!PairTaken(items, body.transactionId, body.bookId), 409, AlreadyAdded) ]
  }

  /** The item handler's reply to `body`. Both ids are required, in order;
      the transaction must exist, then the book; a book already on the
      transaction is a 409; otherwise one item is created. */
  function CreateItemReply(body: ItemBody, transactions: map<Id, Transaction>, books: map<Id, Book>,
                           items: map<Id, TransactionItem>): (r: Reply<TransactionItem>)
    ensures Falsy(body.transactionId) ==> r == Reply(400, TransactionIdRequired, None)
    ensures !Falsy(body.transactionId) && Falsy(body.bookId) ==> r == Reply(400, BookIdRequired, None)
    ensures (!Falsy(body.transactionId) && !Falsy(body.bookId) && !Finds(transactions, body.transactionId))
            ==> r == Reply(404, TransactionNotFound, None)
    ensures (!Falsy(body.transactionId) && !Falsy(body.bookId) && Finds(transactions, body.transactionId)
             && !Finds(books, body.bookId)) ==> r == Reply(404, BookNotFound, None)
    ensures (!Falsy(body.transactionId) && !Falsy(body.bookId) && Finds(transactions, body.transactionId)
             && Finds(books, body.bookId) && PairTaken(items, body.transactionId, body.bookId))
            ==> r == Reply(409, AlreadyAdded, None)
    ensures r.status == 201 <==> (!Falsy(body.transactionId) && !Falsy(body.bookId)
                                  && Finds(transactions, body.transactionId) && Finds(books, body.bookId)
                                  && !PairTaken(items, body.transactionId, body.bookId))
    ensures r.status == 201 ==>
              r == Reply(201, ItemCreated, Some(TransactionItem(body.transactionId.s, body.bookId.s, body.note)))
  {
    var cs := ItemChecks(body, transactions, books, items);
    var k := FirstFailing(cs);
    assert cs == [cs[0], cs[1], cs[2], cs[3], cs[4]];
    if k < |cs| then Refuse(cs[k])
    else Reply(201, ItemCreated, Some(TransactionItem(body.transactionId.s, body.bookId.s, body.note)))
  }

  /** Check-then-create keeps each (transaction, book) pair on at most one item. */
  lemma CreateItemKeepsPairsUnique(body: ItemBody, transactions: map<Id, Transaction>, books: map<Id, Book>,
                                   items: map<Id, TransactionItem>, newId: Id)
    requires UniqueItemPairs(items) && newId !in items
    ensures UniqueItemPairs(Insert(items, CreateItemReply(body, transactions, books, items), newId))
  {
  }

  /** The item handler: run the guards against the store, then create the item. */
  method CreateTransactionItem(db: Db, body: ItemBody, newId: Id) returns (reply: Reply<TransactionItem>)
    requires db.Valid() && newId !in db.items
    modifies db`items
    ensures db.Valid()
    ensures reply == CreateItemReply(body, old(db.transactions), old(db.books), old(db.items))
    ensures db.items == Insert(old(db.items), reply, newId)
  {
    if Falsy(body.transactionId) {
      return Reply(400, TransactionIdRequired, None);
    }
    if Falsy(body.bookId) {
      return Reply(400, BookIdRequired, None);
    }
    if !Finds(db.transactions, body.transactionId) {
      return Reply(404, TransactionNotFound, None);
    }
    if !Finds(db.books, body.bookId) {
      return Reply(404, BookNotFound, None);
    }
    if ItemFor(db.items, body.transactionId.s, body.bookId.s) {
      return Reply(409, AlreadyAdded, None);
    }
    var row := TransactionItem(body.transactionId.s, body.bookId.s, body.note);
    CreateItemKeepsPairsUnique(body, db.transactions, db.books, db.items, newId);
    db.items := db.items[newId := row];
    reply := Reply(201, ItemCreated, Some(row));
  }
}
