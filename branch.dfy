/** `createBranchController` (src/controllers/branch.controller.ts). */
module BranchController {
  import opened Js
  import opened Guards
  import opened Store

  /** The fields of the request body the handler reads. */
  datatype BranchBody = BranchBody(branchName: Value, branchAddress: Value)

  const NameTooShort := "Branch name must be at least 3 characters"
  const AddressRequired := "Branch address is required"
  const NameExists := "Branch name already exists"
  const Created := "Create branch successful"

  /** The handler's guards, in the order it runs them. */
  function Checks(body: BranchBody, branches: map<Id, Branch>): seq<Check> {
    [ Check(!TooShort(body.branchName, 3), 400, NameTooShort),
      Check(!Falsy(body.branchAddress), 400, AddressRequired),
      Check(!BranchNamed(branches, body.branchName), 409, NameExists) ]
  }

  /** The handler's reply to `body` against the branch table. The name is
      checked before the address, and the duplicate-name lookup only once
      both fields pass; a new branch is created exactly when no guard fails. */
  function CreateBranchReply(body: BranchBody, branches: map<Id, Branch>): (r: Reply<Branch>)
    ensures TooShort(body.branchName, 3) ==> r == Reply(400, NameTooShort, None)
    ensures !TooShort(body.branchName, 3) && Falsy(body.branchAddress) ==> r == Reply(400, AddressRequired, None)
    ensures !TooShort(body.branchName, 3) && !Falsy(body.branchAddress) && BranchNamed(branches, body.branchName)
            ==> r == Reply(409, NameExists, None)
    ensures r.status == 201 <==>
              !TooShort(body.branchName, 3) && !Falsy(body.branchAddress) && !BranchNamed(branches, body.branchName)
    ensures r.status == 201 ==> r == Reply(201, Created, Some(Branch(body.branchName, body.branchAddress)))
  {
    var cs := Checks(body, branches);
    var k := FirstFailing(cs);
    assert cs == [cs[0], cs[1], cs[2]];
    if k < |cs| then Refuse(cs[k])
    else Reply(201, Created, Some(Branch(body.branchName, body.branchAddress)))
  }

  /** Check-then-create keeps branch names unique. */
  lemma CreateBranchKeepsNamesUnique(body: BranchBody, branches: map<Id, Branch>, newId: Id)
    requires UniqueBranchNames(branches) && newId !in branches
    ensures UniqueBranchNames(Insert(branches, CreateBranchReply(body, branches), newId))
  {
  }

  /** The handler: run the guards against the store, then create the branch. */
  method CreateBranch(db: Db, body: BranchBody, newId: Id) returns (reply: Reply<Branch>)
    requires db.Valid() && newId !in db.branches
    modifies db`branches
    ensures db.Valid()
    ensures reply == CreateBranchReply(body, old(db.branches))
    ensures db.branches == Insert(old(db.branches), reply, newId)
  {
    if TooShort(body.branchName, 3) {
      return Reply(400, NameTooShort, None);
    }
    if Falsy(body.branchAddress) {
      return Reply(400, AddressRequired, None);
    }
    if BranchNamed(db.branches, body.branchName) {
      return Reply(409, NameExists, None);
    }
    var row := Branch(body.branchName, body.branchAddress);
    CreateBranchKeepsNamesUnique(body, db.branches, newId);
    db.branches := db.branches[newId := row];
    reply := Reply(201, Created, Some(row));
  }
}
