/** `createStaffController` (src/controllers/staff.controller.ts). */
module StaffController {
  import opened Js
  import opened Guards
  import opened Store

  /** The fields of the request body the handler reads. */
  datatype StaffBody = StaffBody(branchId: Value, staffName: Value, staffEmail: Value, staffRole: Value)

  const BranchIdRequired := "Branch ID is required"
  const NameTooShort := "Staff name must be at least 3 characters"
  const EmailRequired := "Staff email is required"
  const BranchNotFound := "Branch not found"
  const EmailExists := "Staff email already exists"
  const InvalidRole := "Invalid staff role"
  const Created := "Create staff successful"

  /** The three field checks that run before any lookup. */
  predicate FieldsPass(body: StaffBody) {
    !Falsy(body.branchId) && !TooShort(body.staffName, 3) && !Falsy(body.staffEmail)
  }

  /** The handler's guards, in the order it runs them. */
  function Checks(body: StaffBody, branches: map<Id, Branch>, staff: map<Id, Staff>): seq<Check> {
    [ Check(!Falsy(body.branchId), 400, BranchIdRequired),
      Check(!TooShort(body.staffName, 3), 400, NameTooShort),
      Check(!Falsy(body.staffEmail), 400, EmailRequired),
      Check(Finds(branches, body.branchId), 404, BranchNotFound),
      Check(!StaffWithEmail(staff, body.staffEmail), 409, EmailExists),
      Check(ParseRole(body.staffRole).Some?, 400, InvalidRole) ]
  }

  /** The handler's reply to `body` against the branch and staff tables. The
      fields are checked in order, then the branch must exist, then the email
      must be free, and only then is the role checked: a duplicate email with
      a bad role is a 409. A staff is created exactly when every guard passes. */
  function CreateStaffReply(body: StaffBody, branches: map<Id, Branch>, staff: map<Id, Staff>): (r: Reply<Staff>)
    ensures Falsy(body.branchId) ==> r == Reply(400, BranchIdRequired, None)
    ensures !Falsy(body.branchId) && TooShort(body.staffName, 3) ==> r == Reply(400, NameTooShort, None)
    ensures !Falsy(body.branchId) && !TooShort(body.staffName, 3) && Falsy(body.staffEmail)
            ==> r == Reply(400, EmailRequired, None)
    ensures FieldsPass(body) && !Finds(branches, body.branchId) ==> r == Reply(404, BranchNotFound, None)
    ensures FieldsPass(body) && Finds(branches, body.branchId) && StaffWithEmail(staff, body.staffEmail)
            ==> r == Reply(409, EmailExists, None)
    ensures (FieldsPass(body) && Finds(branches, body.branchId) && !StaffWithEmail(staff, body.staffEmail)
             && ParseRole(body.staffRole).None?) ==> r == Reply(400, InvalidRole, None)
    ensures r.status == 201 <==> (FieldsPass(body) && Finds(branches, body.branchId)
                                  && !StaffWithEmail(staff, body.staffEmail) && ParseRole(body.staffRole).Some?)
    ensures r.status == 201 ==>
              r == Reply(201, Created, Some(Staff(body.branchId.s, body.staffName, body.staffEmail,
                                                  ParseRole(body.staffRole).value)))
  {
    var cs := Checks(body, branches, staff);
    var k := FirstFailing(cs);
    assert cs == [cs[0], cs[1], cs[2], cs[3], cs[4], cs[5]];
    if k < |cs| then Refuse(cs[k])
    else
      Reply(201, Created, Some(Staff(body.branchId.s, body.staffName, body.staffEmail,
                                     ParseRole(body.staffRole).value)))
  }

  /** Check-then-create keeps staff emails unique, and a created staff row
      belongs to an existing branch. */
  lemma CreateStaffKeepsEmailsUnique(body: StaffBody, branches: map<Id, Branch>, staff: map<Id, Staff>, newId: Id)
    requires UniqueStaffEmails(staff) && StaffRefs(staff, branches) && newId !in staff
    ensures var after := Insert(staff, CreateStaffReply(body, branches, staff), newId);
      UniqueStaffEmails(after) && StaffRefs(after, branches)
  {
  }

  /** The handler: run the guards against the store, then create the staff. */
  method CreateStaff(db: Db, body: StaffBody, newId: Id) returns (reply: Reply<Staff>)
    requires db.Valid() && newId !in db.staff
    modifies db`staff
    ensures db.Valid()
    ensures reply == CreateStaffReply(body, old(db.branches), old(db.staff))
    ensures db.staff == Insert(old(db.staff), reply, newId)
  {
    if Falsy(body.branchId) {
      return Reply(400, BranchIdRequired, None);
    }
    if TooShort(body.staffName, 3) {
      return Reply(400, NameTooShort, None);
    }
    if Falsy(body.staffEmail) {
      return Reply(400, EmailRequired, None);
    }
    if !Finds(db.branches, body.branchId) {
      return Reply(404, BranchNotFound, None);
    }
    if StaffWithEmail(db.staff, body.staffEmail) {
      return Reply(409, EmailExists, None);
    }
    var role := ParseRole(body.staffRole);
    if role.None? {
      return Reply(400, InvalidRole, None);
    }
    var row := Staff(body.branchId.s, body.staffName, body.staffEmail, role.value);
    CreateStaffKeepsEmailsUnique(body, db.branches, db.staff, newId);
    db.staff := db.staff[newId := row];
    reply := Reply(201, Created, Some(row));
  }
}
