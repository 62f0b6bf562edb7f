/** The relational store the handlers read and write, as an in-memory set of
    tables: one map from row id to row per entity. */
module Store {
  import opened Js
  import opened Guards
  import opened TimeOfDay

  /** Row ids are the strings the database generates. */
  type Id = string

  // ---------------------------------------------------------------- enumerations

  datatype Day = Mon | Tue | Wed | Thu | Fri | Sat | Sun
  datatype Role = Admin | Librarian | StaffRole
  datatype MemberStatus = Active | Inactive | Blocked
  datatype TransactionStatus = Borrowed | Returned | Late

  function DayName(d: Day): string {
    match d
    case Mon => "mon" case Tue => "tue" case Wed => "wed" case Thu => "thu"
    case Fri => "fri" case Sat => "sat" case Sun => "sun"
  }

  /** `VALID_SCHEDULE_DAYS`, in the order the source lists them. */
  const DayNames: seq<string> := ["mon", "tue", "wed", "thu", "fri", "sat", "sun"]

  /** `VALID_SCHEDULE_DAYS.includes(v)`, and the day it names. */
  function ParseDay(v: Value): (d: Option<Day>)
    ensures d.Some? <==> v.Str? && v.s in DayNames
    ensures d.Some? ==> v == Str(DayName(d.value))
  {
    match v
    case Str("mon") => Some(Mon) case Str("tue") => Some(Tue) case Str("wed") => Some(Wed)
    case Str("thu") => Some(Thu) case Str("fri") => Some(Fri) case Str("sat") => Some(Sat)
    case Str("sun") => Some(Sun)
    case _ => None
  }

  function RoleName(r: Role): string {
    match r
    case Admin => "admin" case Librarian => "librarian" case StaffRole => "staff"
  }

  /** The staff roles the staff handler accepts. */
  const RoleNames: seq<string> := ["admin", "librarian", "staff"]

  /** `validRoles.includes(v)`, and the role it names. */
  function ParseRole(v: Value): (r: Option<Role>)
    ensures r.Some? <==> v.Str? && v.s in RoleNames
    ensures r.Some? ==> v == Str(RoleName(r.value))
  {
    match v
    case Str("admin") => Some(Admin) case Str("librarian") => Some(Librarian)
    case Str("staff") => Some(StaffRole)
    case _ => None
  }

  function MemberStatusName(s: MemberStatus): string {
    match s
    case Active => "active" case Inactive => "inactive" case Blocked => "blocked"
  }

  /** The member statuses the member handler accepts. */
  const MemberStatusNames: seq<string> := ["active", "inactive", "blocked"]

  /** `validStatuses.includes(v)` in the member handler, and the status it names. */
  function ParseMemberStatus(v: Value): (s: Option<MemberStatus>)
    ensures s.Some? <==> v.Str? && v.s in MemberStatusNames
    ensures s.Some? ==> v == Str(MemberStatusName(s.value))
  {
    match v
    case Str("active") => Some(Active) case Str("inactive") => Some(Inactive)
    case Str("blocked") => Some(Blocked)
    case _ => None
  }

  function TransactionStatusName(s: TransactionStatus): string {
    match s
    case Borrowed => "borrowed" case Returned => "returned" case Late => "late"
  }

  /** The transaction statuses the transaction handler accepts. */
  const TransactionStatusNames: seq<string> := ["borrowed", "returned", "late"]

  /** `validStatuses.includes(v)` in the transaction handler, and the status it names. */
  function ParseTransactionStatus(v: Value): (s: Option<TransactionStatus>)
    ensures s.Some? <==> v.Str? && v.s in TransactionStatusNames
    ensures s.Some? ==> v == Str(TransactionStatusName(s.value))
  {
    match v
    case Str("borrowed") => Some(Borrowed) case Str("returned") => Some(Returned)
    case Str("late") => Some(Late)
    case _ => None
  }

  /** Every enumerated value is accepted under its own name. */
  lemma EnumNamesRoundTrip(d: Day, r: Role, m: MemberStatus, t: TransactionStatus)
    ensures ParseDay(Str(DayName(d))) == Some(d)
    ensures ParseRole(Str(RoleName(r))) == Some(r)
    ensures ParseMemberStatus(Str(MemberStatusName(m))) == Some(m)
    ensures ParseTransactionStatus(Str(TransactionStatusName(t))) == Some(t)
  {
  }

  // ---------------------------------------------------------------- rows

  datatype Author = Author(name: Value)
  datatype Publisher = Publisher(name: Value)
  datatype Branch = Branch(name: Value, address: Value)
  datatype Staff = Staff(branchId: Id, name: Value, email: Value, role: Role)
  datatype Member = Member(branchId: Id, fullname: Value, email: Value, address: Value, status: MemberStatus)
  datatype Book = Book(authorId: Id, publisherId: Id, title: Value, publishYear: Value)
  datatype Schedule = Schedule(staffId: Id, day: Day, start: string, end: string, note: Value)
  datatype Transaction = Transaction(staffId: Id, memberId: Id, branchId: Id, status: TransactionStatus,
                                     deadline: Value, totalFine: Option<int>)
  datatype TransactionItem = TransactionItem(transactionId: Id, bookId: Id, note: Value)

  // ---------------------------------------------------------------- queries

  /** `findUnique({ where: { id: v } })` finds a row. */
  predicate Finds<T>(table: map<Id, T>, v: Value) {
    v.Str? && v.s in table
  }

  /** `branch.findFirst({ where: { branch_name } })` finds a row. */
  predicate BranchNamed(branches: map<Id, Branch>, name: Value) {
    exists id | id in branches :: branches[id].name == name
  }

  /** `publisher.findFirst({ where: { publisher_name } })` finds a row. */
  predicate PublisherNamed(publishers: map<Id, Publisher>, name: Value) {
    exists id | id in publishers :: publishers[id].name == name
  }

  /** `staff.findFirst({ where: { staff_email } })` finds a row. */
  predicate StaffWithEmail(staff: map<Id, Staff>, email: Value) {
    exists id | id in staff :: staff[id].email == email
  }

  /** `member.findFirst({ where: { email } })` finds a row. */
  predicate MemberWithEmail(members: map<Id, Member>, email: Value) {
    exists id | id in members :: members[id].email == email
  }

  /** `transaction_item.findFirst({ where: { transaction_id, book_id } })` finds a row. */
  predicate ItemFor(items: map<Id, TransactionItem>, transactionId: Id, bookId: Id) {
    exists id | id in items :: items[id].transactionId == transactionId && items[id].bookId == bookId
  }

  // ---------------------------------------------------------------- create

  /** The table after a handler's reply: the created row under the new id, or
      the table as it was when the handler refused. */
  function Insert<T>(table: map<Id, T>, reply: Reply<T>, id: Id): (t: map<Id, T>)
    requires id !in table
    ensures reply.data.None? ==> t == table
    ensures reply.data.Some? ==> t.Keys == table.Keys + {id} && t[id] == reply.data.value
    ensures forall k | k in table :: k in t && t[k] == table[k]
    ensures |t| == |table| + (if reply.data.Some? then 1 else 0)
  {
    if reply.data.Some? then table[id := reply.data.value] else table
  }

  // ---------------------------------------------------------------- invariants

  predicate UniqueBranchNames(branches: map<Id, Branch>) {
    forall i, j | i in branches && j in branches && branches[i].name == branches[j].name :: i == j
  }

  predicate UniquePublisherNames(publishers: map<Id, Publisher>) {
    forall i, j | i in publishers && j in publishers && publishers[i].name == publishers[j].name :: i == j
  }

  predicate UniqueStaffEmails(staff: map<Id, Staff>) {
    forall i, j | i in staff && j in staff && staff[i].email == staff[j].email :: i == j
  }

  predicate UniqueMemberEmails(members: map<Id, Member>) {
    forall i, j | i in members && j in members && members[i].email == members[j].email :: i == j
  }

  predicate UniqueItemPairs(items: map<Id, TransactionItem>) {
    forall i, j | i in items && j in items && items[i].transactionId == items[j].transactionId
                  && items[i].bookId == items[j].bookId :: i == j
  }

  predicate StaffRefs(staff: map<Id, Staff>, branches: map<Id, Branch>) {
    forall i | i in staff :: staff[i].branchId in branches
  }

  predicate MemberRefs(members: map<Id, Member>, branches: map<Id, Branch>) {
    forall i | i in members :: members[i].branchId in branches
  }

  predicate BookRefs(books: map<Id, Book>, authors: map<Id, Author>, publishers: map<Id, Publisher>) {
    forall i | i in books :: books[i].authorId in authors && books[i].publisherId in publishers
  }

  predicate ScheduleRefs(schedules: map<Id, Schedule>, staff: map<Id, Staff>) {
    forall i | i in schedules :: schedules[i].staffId in staff
  }

  predicate TransactionRefs(transactions: map<Id, Transaction>, staff: map<Id, Staff>,
                            members: map<Id, Member>, branches: map<Id, Branch>) {
    forall i | i in transactions :: transactions[i].staffId in staff
      && transactions[i].memberId in members && transactions[i].branchId in branches
  }

  predicate ItemRefs(items: map<Id, TransactionItem>, transactions: map<Id, Transaction>, books: map<Id, Book>) {
    forall i | i in items :: items[i].transactionId in transactions && items[i].bookId in books
  }

  /** Every stored schedule is a well-formed slot whose start precedes its end. */
  predicate SlotsValid(schedules: map<Id, Schedule>) {
    forall i | i in schedules :: ValidSlot(schedules[i].start, schedules[i].end)
  }

  /** The database: one table per entity. */
  class Db {
    var authors: map<Id, Author>
    var publishers: map<Id, Publisher>
    var branches: map<Id, Branch>
    var staff: map<Id, Staff>
    var members: map<Id, Member>
    var books: map<Id, Book>
    var schedules: map<Id, Schedule>
    var transactions: map<Id, Transaction>
    var items: map<Id, TransactionItem>

    /** The unique columns are unique, every foreign key names an existing
        row, and every schedule is a valid slot. */
    ghost predicate Valid()
      reads this
    {
      UniqueBranchNames(branches) && UniquePublisherNames(publishers)
      && UniqueStaffEmails(staff) && UniqueMemberEmails(members) && UniqueItemPairs(items)
      && StaffRefs(staff, branches) && MemberRefs(members, branches)
      && BookRefs(books, authors, publishers) && ScheduleRefs(schedules, staff)
      && TransactionRefs(transactions, staff, members, branches)
      && ItemRefs(items, transactions, books)
      && SlotsValid(schedules)
    }

    constructor ()
      ensures Valid()
      ensures authors == map[] && publishers == map[] && branches == map[] && staff == map[]
      ensures members == map[] && books == map[] && schedules == map[]
      ensures transactions == map[] && items == map[]
    {
      authors, publishers, branches, staff := map[], map[], map[], map[];
      members, books, schedules := map[], map[], map[];
      transactions, items := map[], map[];
    }
  }
}
