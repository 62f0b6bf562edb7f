/** `createMemberController` (src/controllers/member.controller.ts). */
module MemberController {
  import opened Js
  import opened Guards
  import opened Store

  /** The fields of the request body the handler reads. */
  datatype MemberBody = MemberBody(branchId: Value, fullname: Value, email: Value, address: Value, status: Value)

  const BranchIdRequired := "Branch ID is required"
  const FullnameTooShort := "Fullname must be at least 3 characters"
  const EmailRequired := "Email is required"
  const AddressRequired := "Address is required"
  const BranchNotFound := "Branch not found"
  const EmailExists := "Email already exists"
  const InvalidStatus := "Invalid member status"
  const Created := "Create member successful"

  /** The four field checks that run before any lookup. */
  predicate FieldsPass(body: MemberBody) {
    !Falsy(body.branchId) && !TooShort(body.fullname, 3) && !Falsy(body.email) && !Falsy(body.address)
  }

  /** The handler's guards, in the order it runs them. */
  function Checks(body: MemberBody, branches: map<Id, Branch>, members: map<Id, Member>): seq<Check> {
    [ Check(!Falsy(body.branchId), 400, BranchIdRequired),
      Check(!TooShort(body.fullname, 3), 400, FullnameTooShort),
      Check(!Falsy(body.email), 400, EmailRequired),
      Check(!Falsy(body.address), 400, AddressRequired),
      Check(Finds(branches, body.branchId), 404, BranchNotFound),
      Check(!MemberWithEmail(members, body.email), 409, EmailExists),
      Check(ParseMemberStatus(body.status).Some?, 400, InvalidStatus) ]
  }

  /** The handler's reply to `body` against the branch and member tables. The
      fields are checked in order, then the branch must exist, then the email
      must be free, and only then is the status checked (an absent status is
      invalid). A member is created exactly when every guard passes. */
  function CreateMemberReply(body: MemberBody, branches: map<Id, Branch>, members: map<Id, Member>): (r: Reply<Member>)
    ensures Falsy(body.branchId) ==> r == Reply(400, BranchIdRequired, None)
    ensures !Falsy(body.branchId) && TooShort(body.fullname, 3) ==> r == Reply(400, FullnameTooShort, None)
    ensures !Falsy(body.branchId) && !TooShort(body.fullname, 3) && Falsy(body.email)
            ==> r == Reply(400, EmailRequired, None)
    ensures !Falsy(body.branchId) && !TooShort(body.fullname, 3) && !Falsy(body.email) && Falsy(body.address)
            ==> r == Reply(400, AddressRequired, None)
    ensures FieldsPass(body) && !Finds(branches, body.branchId) ==> r == Reply(404, BranchNotFound, None)
    ensures FieldsPass(body) && Finds(branches, body.branchId) && MemberWithEmail(members, body.email)
            ==> r == Reply(409, EmailExists, None)
    ensures (FieldsPass(body) && Finds(branches, body.branchId) && !MemberWithEmail(members, body.email)
             && ParseMemberStatus(body.status).None?) ==> r == Reply(400, InvalidStatus, None)
    ensures r.status == 201 <==> (FieldsPass(body) && Finds(branches, body.branchId)
                                  && !MemberWithEmail(members, body.email) && ParseMemberStatus(body.status).Some?)
    ensures r.status == 201 ==>
              r == Reply(201, Created, Some(Member(body.branchId.s, body.fullname, body.email, body.address,
                                                   ParseMemberStatus(body.status).value)))
  {
    var cs := Checks(body, branches, members);
    var k := FirstFailing(cs);
    assert cs == [cs[0], cs[1], cs[2], cs[3], cs[4], cs[5], cs[6]];
    if k < |cs| then Refuse(cs[k])
    else
      Reply(201, Created, Some(Member(body.branchId.s, body.fullname, body.email, body.address,
                                      ParseMemberStatus(body.status).value)))
  }

  /** Check-then-create keeps member emails unique, and a created member
      belongs to an existing branch. */
  lemma CreateMemberKeepsEmailsUnique(body: MemberBody, branches: map<Id, Branch>, members: map<Id, Member>, newId: Id)
    requires UniqueMemberEmails(members) && MemberRefs(members, branches) && newId !in members
    ensures var after := Insert(members, CreateMemberReply(body, branches, members), newId);
      UniqueMemberEmails(after) && MemberRefs(after, branches)
  {
  }

  /** The handler: run the guards against the store, then create the member. */
  method CreateMember(db: Db, body: MemberBody, newId: Id) returns (reply: Reply<Member>)
    requires db.Valid() && newId !in db.members
    modifies db`members
    ensures db.Valid()
    ensures reply == CreateMemberReply(body, old(db.branches), old(db.members))
    ensures db.members == Insert(old(db.members), reply, newId)
  {
    if Falsy(body.branchId) {
      return Reply(400, BranchIdRequired, None);
    }
    if TooShort(body.fullname, 3) {
      return Reply(400, FullnameTooShort, None);
    }
    if Falsy(body.email) {
      return Reply(400, EmailRequired, None);
    }
    if Falsy(body.address) {
      return Reply(400, AddressRequired, None);
    }
    if !Finds(db.branches, body.branchId) {
      return Reply(404, BranchNotFound, None);
    }
    if MemberWithEmail(db.members, body.email) {
      return Reply(409, EmailExists, None);
    }
    var status := ParseMemberStatus(body.status);
    if status.None? {
      return Reply(400, InvalidStatus, None);
    }
    var row := Member(body.branchId.s, body.fullname, body.email, body.address, status.value);
    CreateMemberKeepsEmailsUnique(body, db.branches, db.members, newId);
    db.members := db.members[newId := row];
    reply := Reply(201, Created, Some(row));
  }
}
