# Library backend: request guards and guarded creates

This project models the create handlers of a library-management REST backend
(branches, publishers, authors, staff, members, books, staff schedules,
transactions and transaction items), the schedule delete handler, and the two
stand-alone validators of `src/helpers/validator.helper.ts`. It proves, for
every handler, which guard answers a request, what row a successful request
creates, and that the store's invariants survive.

Every handler is a fixed, ordered chain of guards. Each guard either answers
with a status (400, 404 or 409) and a message, or lets the request through.
Only a request that passes every guard reaches the store, and then exactly one
row is created (or, for the delete handler, removed).

The model is built in layers:

- `Js` models the JavaScript semantics the guards rely on:
  - the request values `Absent | Str | Num` and falsiness (`!x`);
  - `.length` in UTF-16 code units;
  - `String.prototype.trim` with the ECMAScript white-space set;
  - `Number(s)` on trimmed sign-and-digit strings;
  - the relational operators on strings and numbers;
  - `String(v)`.
- `Guards` models the ordered guard list (`Check`), the reply envelope
  (`Reply`), and `FirstFailing`, the position of the guard that answers.
- `TimeOfDay` models the schedule times:
  - the `HH:MM` format test;
  - `split(":").map(Number)` (`Clock`);
  - the hour and minute bounds;
  - the start-before-end comparison, and its meaning in minutes since midnight.
- `Store` holds the enumerations (days, staff roles, member and transaction
  statuses) with their accepted names, and the rows. The database is the class
  `Db`, with one `map` from id to row per table. `Db.Valid()` is the store
  invariant:
  - the unique columns are unique (branch name, publisher name, staff email,
    member email, the (transaction, book) pair of an item);
  - every foreign key names an existing row;
  - every stored schedule is a valid slot.
- Each controller module has:
  - a function giving the handler's reply from the request and a snapshot of
    the tables it reads;
  - lemmas about that reply;
  - a module-level method taking the store `db: Db`, which changes only the
    table the handler writes and keeps `Db.Valid()`. Most of these methods
    follow the handler's early returns themselves. For the schedule create
    handler, the read-only method `CheckSchedule` runs the guards and
    `CreateSchedule` writes the row.

Some behaviours of the source are modelled as written:
- The branch, publisher, author, staff, member and book handlers check length
  with `x.length < 3`, untrimmed. A number has no `length`, so a numeric name
  passes that guard.
- The book handler's year guard compares the raw `publish_year`. A string that
  does not read as a number (e.g. `"MMXX"`) compares false both ways and
  passes. `yearValidator` would refuse it
  (`BookController.InlineYearCheckAgainstValidator`).
- The schedule handler decides the staff lookup (404) before any time-format
  check.
- `createAuthorController` reads no table, so duplicate author names are
  allowed. Likewise, identical books may be created twice.

## Model

| member | source | states |
|---|---|---|
| Guards.FirstFailing | src/controllers/branch.controller.ts:10-32 | The guard that answers is the first failing one in order: every earlier guard passes and the one at the returned position fails; all pass exactly when the position is past the end |
| Guards.FirstFailingAt | src/controllers/branch.controller.ts:10-32 | A guard that fails after only passing guards is the one that answers |
| Js.Utf16Length | src/controllers/branch.controller.ts:10 | `.length` counts UTF-16 units: between the number of code points and twice that, and zero only for the empty string |
| Js.TrimStartSpec | src/helpers/validator.helper.ts:2 | Trimming the start removes exactly a maximal all-white-space prefix |
| Js.TrimEndSpec | src/helpers/validator.helper.ts:2 | Trimming the end removes exactly a maximal all-white-space suffix |
| Js.TrimSpec | src/helpers/validator.helper.ts:2 | `trim()` returns the infix between a white-space prefix and suffix, starting and ending with a non-space character when non-empty |
| Js.TrimStartSkips | src/helpers/validator.helper.ts:2 | Leading white space does not change the start-trimmed result |
| Js.TrimEndSkips | src/helpers/validator.helper.ts:2 | Trailing white space does not change the end-trimmed result |
| Js.TrimStartAppend | src/helpers/validator.helper.ts:2 | Start-trimming a concatenation trims into the second part only when the first is all white space |
| Js.TrimIgnoresSurroundingSpace | src/helpers/validator.helper.ts:2 | White space around a string does not change its trimmed form |
| Js.TrimAllSpace | src/helpers/validator.helper.ts:2 | A string of white space trims to the empty string |
| Js.NatToDecimal | src/helpers/validator.helper.ts:5 | A number prints as decimal digits without a leading zero |
| Js.DecimalRoundTrip | src/helpers/validator.helper.ts:5 | Reading the printed digits of a number gives the number back |
| Js.IntToString | src/helpers/validator.helper.ts:5 | An integer prints as a non-empty string; `Js.IntToStringRoundTrip` reads it back |
| Js.Falsy | src/controllers/staff.controller.ts:10 | `!v` holds exactly for an absent value, the empty string and 0 |
| Js.TooShort | src/controllers/branch.controller.ts:10 | `!v` or `v.length < k`: falsy, or a string with fewer than k UTF-16 units; a number has no length and passes |
| Js.Trim | src/helpers/validator.helper.ts:2 | `trim()` cuts leading and then trailing white space |
| Js.StringToNumber | src/controllers/schedule.controller.ts:70-71 | `Number(s)`: trimmed empty string is 0, an optional sign before decimal digits is that integer, anything else is NaN (`None`) |
| Js.Below | src/controllers/book.controller.ts:28 | `v < k` after numeric conversion, false on NaN |
| Js.Above | src/controllers/book.controller.ts:28 | `v > k` after numeric conversion, false on NaN |
| Js.ToText | src/controllers/schedule.controller.ts:57 | `String(v)`, the text a regular expression test or `Date.parse` sees |
| Js.IntToStringRoundTrip | src/helpers/validator.helper.ts:5 | `Number(String(n))` is n for every integer |
| Js.DigitsToNumber | src/controllers/schedule.controller.ts:70-71 | `Number` of a non-empty digit string is the decimal value of its digits |
| Validator.LengthMessage | src/helpers/validator.helper.ts:5 | The length failure message "<context> must be at least <len> characters" |
| Validator.YearMessage | src/helpers/validator.helper.ts:18 | The year failure message "Invalid <context> year" |
| Validator.StringLengthValidator | src/helpers/validator.helper.ts:1-10 | Valid exactly when the target is a string whose trimmed UTF-16 length is at least the minimum; a non-string is invalid; the failure carries "<context> must be at least <len> characters" |
| Validator.WhiteSpaceOnlyInvalid | src/helpers/validator.helper.ts:2 | A white-space-only string is invalid for every minimum of at least 1 |
| Validator.SurroundingSpaceIrrelevant | src/helpers/validator.helper.ts:2 | Surrounding white space never changes the verdict |
| Validator.LengthMonotone | src/helpers/validator.helper.ts:2 | A target valid for a minimum is valid for every smaller minimum |
| Validator.LengthMessageNamesMinimum | src/helpers/validator.helper.ts:5 | For every integer minimum, the failure message is the context, " must be at least ", a number text and " characters", and that text reads back with `Number` as the minimum |
| Validator.YearValidator | src/helpers/validator.helper.ts:12-23 | Valid exactly when the year is a number between 1000 and the current year inclusive; the failure carries "Invalid <context> year" |
| TimeOfDay.IsHHMM | src/controllers/schedule.controller.ts:57 | `/^\d{2}:\d{2}$/`: exactly two ASCII digits, a colon and two ASCII digits |
| TimeOfDay.ValueIsHHMM | src/controllers/schedule.controller.ts:57-68 | `.test(v)` on the value converted to text |
| TimeOfDay.InRange | src/controllers/schedule.controller.ts:73-84 | Neither `hour > 23` nor `minute > 59` |
| TimeOfDay.StartsBefore | src/controllers/schedule.controller.ts:87 | Neither `sh > eh` nor `sh === eh && sm >= em` |
| TimeOfDay.ValidSlot | src/controllers/schedule.controller.ts:57-92 | Both times pass the format test and the bounds, and the start is before the end |
| TimeOfDay.HHMMValueIsString | src/controllers/schedule.controller.ts:57-68 | Only a string passes the `HH:MM` regular expression |
| TimeOfDay.Split | src/controllers/schedule.controller.ts:70-71 | `split` always returns at least one piece |
| TimeOfDay.SplitNoSeparator | src/controllers/schedule.controller.ts:70-71 | A string without the separator splits into itself |
| TimeOfDay.SplitFirst | src/controllers/schedule.controller.ts:70-71 | Splitting at the first separator gives the part before it followed by the split of the rest |
| TimeOfDay.SplitHHMM | src/controllers/schedule.controller.ts:70-71 | An `HH:MM` string splits into its two two-digit halves |
| TimeOfDay.TwoDigitsValue | src/controllers/schedule.controller.ts:70-71 | Two digits read as a decimal number give ten times the first plus the second |
| TimeOfDay.Clock | src/controllers/schedule.controller.ts:70-71 | `split(":").map(Number)` of an `HH:MM` string is the hour and minute its digits denote |
| TimeOfDay.StartsBeforeIffEarlier | src/controllers/schedule.controller.ts:87 | For minutes within 0..59, the lexicographic hour-then-minute comparison holds exactly when the start is earlier in minutes since midnight |
| TimeOfDay.ValidSlotBounds | src/controllers/schedule.controller.ts:70-92 | An accepted slot has hours in 0..23, minutes in 0..59, and starts strictly before it ends |
| TimeOfDay.Format | src/controllers/schedule.controller.ts:57 | The two-digit rendering of an hour and minute passes the `HH:MM` test |
| TimeOfDay.FormatClock | src/controllers/schedule.controller.ts:57-71 | Reading an `HH:MM` string and rendering it back gives the same string |
| TimeOfDay.ClockFormat | src/controllers/schedule.controller.ts:57-71 | Rendering an hour and minute and reading them back gives the same pair |
| Store.ParseDay | src/controllers/schedule.controller.ts:38-43 | A day is accepted exactly when it is a string among the seven lower-case names, and names the day it parses to |
| Store.ParseRole | src/controllers/staff.controller.ts:52-58 | A role is accepted exactly when it is "admin", "librarian" or "staff", and names the role it parses to |
| Store.ParseMemberStatus | src/controllers/member.controller.ts:59-65 | A member status is accepted exactly when it is "active", "inactive" or "blocked" |
| Store.ParseTransactionStatus | src/controllers/transaction.controller.ts:75-81 | A transaction status is accepted exactly when it is "borrowed", "returned" or "late" |
| Store.EnumNamesRoundTrip | src/controllers/staff.controller.ts:52-53 | Every enumerated value is accepted under its own name |
| Store.Finds | src/controllers/staff.controller.ts:30-33 | `findUnique({ where: { id } })` finds a row: the id is a string key of the table |
| Store.BranchNamed | src/controllers/branch.controller.ts:24-27 | Some branch has the given name |
| Store.PublisherNamed | src/controllers/publisher.controller.ts:18-21 | Some publisher has the given name |
| Store.StaffWithEmail | src/controllers/staff.controller.ts:41-44 | Some staff has the given email |
| Store.MemberWithEmail | src/controllers/member.controller.ts:47-51 | Some member has the given email |
| Store.ItemFor | src/controllers/transaction.controller.ts:150-156 | Some item has the given transaction id and book id |
| Store.Db.Valid | src/controllers/staff.controller.ts:29-49 | The store invariant the handlers' lookups keep: unique names, emails and item pairs, existing referenced rows, valid schedule slots |
| Store.Insert | src/controllers/branch.controller.ts:35-40 | A refusal leaves the table unchanged; a success adds exactly one row under the new id and keeps every other row |
| BranchController.CreateBranchReply | src/controllers/branch.controller.ts:10-46 | A short name is a 400, then a missing address a 400, then an existing name a 409; a branch is created exactly when all three pass |
| BranchController.CreateBranchKeepsNamesUnique | src/controllers/branch.controller.ts:23-40 | Check-then-create keeps branch names unique |
| BranchController.CreateBranch | src/controllers/branch.controller.ts:4-53 | The handler answers as the reply function and changes only the branch table, by at most the one created row, keeping the store invariant |
| PublisherController.CreatePublisherReply | src/controllers/publisher.controller.ts:10-37 | A short name is a 400, then an existing name a 409; a publisher is created exactly when both pass |
| PublisherController.CreatePublisherKeepsNamesUnique | src/controllers/publisher.controller.ts:17-31 | Check-then-create keeps publisher names unique |
| PublisherController.CreatePublisher | src/controllers/publisher.controller.ts:4-44 | The handler answers as the reply function and changes only the publisher table, keeping the store invariant |
| AuthorController.CreateAuthorReply | src/controllers/author.controller.ts:10-26 | The reply depends on the request alone: a short name is a 400, anything else creates the author |
| AuthorController.DuplicateAuthorsAllowed | src/controllers/author.controller.ts:17-20 | Two identical valid requests add two authors with the same name |
| AuthorController.CreateAuthor | src/controllers/author.controller.ts:4-33 | The handler answers as the reply function and changes only the author table |
| StaffController.CreateStaffReply | src/controllers/staff.controller.ts:10-74 | Branch id, name length and email are checked in order (400), then the branch must exist (404), then the email must be free (409), and only then the role (400); a staff is created exactly when all pass |
| StaffController.CreateStaffKeepsEmailsUnique | src/controllers/staff.controller.ts:29-68 | Check-then-create keeps staff emails unique and every staff in an existing branch |
| StaffController.CreateStaff | src/controllers/staff.controller.ts:4-81 | The handler answers as the reply function and changes only the staff table, keeping the store invariant |
| MemberController.CreateMemberReply | src/controllers/member.controller.ts:10-82 | Branch id, full-name length, email and address are checked in order (400), then the branch (404), then email uniqueness (409), then the status (400); a member is created exactly when all pass |
| MemberController.CreateMemberKeepsEmailsUnique | src/controllers/member.controller.ts:35-76 | Check-then-create keeps member emails unique and every member in an existing branch |
| MemberController.CreateMember | src/controllers/member.controller.ts:4-89 | The handler answers as the reply function and changes only the member table, keeping the store invariant |
| BookController.YearPasses | src/controllers/book.controller.ts:28 | None of `!publish_year`, `publish_year < 1000`, `publish_year > currentYear` holds, with JavaScript's comparison on the raw value |
| BookController.CreateBookReply | src/controllers/book.controller.ts:10-71 | Author id, publisher id, title length and year are checked in order (400), then the author and the publisher must exist (404); a book is created exactly when all pass, and an accepted numeric year lies between 1000 and the current year |
| BookController.InlineYearCheckAgainstValidator | src/controllers/book.controller.ts:28-33 | On numbers the inline year guard agrees with `yearValidator`; the non-numeric string "MMXX" passes the guard but not the validator |
| BookController.DuplicateBooksAllowed | src/controllers/book.controller.ts:57-65 | Two identical valid requests add two books with the same fields |
| BookController.CreateBook | src/controllers/book.controller.ts:4-78 | The handler answers as the reply function and changes only the book table, keeping the store invariant |
| ScheduleController.CreateScheduleReply | src/controllers/schedule.controller.ts:6-103 | A schedule is created, with its time strings stored as sent, exactly when the fields are present, the day is valid, the staff exists and the times form a valid slot |
| ScheduleController.CreateScheduleGuardOrder | src/controllers/schedule.controller.ts:12-92 | The required fields answer in order, then the day, then the staff lookup (404, whatever the times look like), then the two formats, the two bounds and start-before-end |
| ScheduleController.CreatedScheduleIsOrdered | src/controllers/schedule.controller.ts:70-92 | A created schedule has hours at most 23, minutes at most 59, and starts strictly earlier than it ends, so equal times are refused |
| ScheduleController.CheckSchedule | src/controllers/schedule.controller.ts:12-92 | The handler's early returns give exactly the reply function's answer |
| ScheduleController.CreateSchedule | src/controllers/schedule.controller.ts:94-103 | The handler changes only the schedule table, by at most the one created row, keeping every stored slot valid |
| ScheduleController.IdParam | src/controllers/schedule.controller.ts:115 | A string route parameter is kept; anything else becomes `undefined` |
| ScheduleController.AfterDelete | src/controllers/schedule.controller.ts:134-137 | After a 200 the named schedule is gone; otherwise the table is as it was |
| ScheduleController.DeleteScheduleReply | src/controllers/schedule.controller.ts:115-142 | A missing or empty id is a 400, an unknown id a 404, and otherwise the delete succeeds with 200 |
| ScheduleController.DeleteRemovesExactlyOne | src/controllers/schedule.controller.ts:125-137 | A successful delete removes exactly the named schedule and keeps every other; a refusal removes nothing |
| ScheduleController.DeleteSchedule | src/controllers/schedule.controller.ts:112-149 | The handler answers as the reply function and changes only the schedule table, keeping the store invariant |
| TransactionController.DeadlinePasses | src/controllers/transaction.controller.ts:34 | Neither `!deadline_at` nor `isNaN(Date.parse(deadline_at))` holds, with `Date.parse` succeeding given by a parameter |
| TransactionController.CreateTransactionReply | src/controllers/transaction.controller.ts:10-99 | A transaction is created exactly when the fields are present, the deadline parses, staff, member and branch exist and the status is valid; it carries the given ids, status and deadline and no fine |
| TransactionController.CreateTransactionGuardOrder | src/controllers/transaction.controller.ts:10-81 | The four ids and status answer in order, then the deadline (before any lookup), then staff, member and branch (404), and only then the status |
| TransactionController.CreateTransaction | src/controllers/transaction.controller.ts:4-106 | The handler answers as the reply function and changes only the transaction table, keeping every reference valid |
| TransactionController.PairTaken | src/controllers/transaction.controller.ts:150-156 | An item with this transaction id and book id already exists |
| TransactionController.CreateItemReply | src/controllers/transaction.controller.ts:114-176 | Both ids are required (400), the transaction then the book must exist (404), a book already on the transaction is a 409; otherwise exactly one item is created |
| TransactionController.CreateItemKeepsPairsUnique | src/controllers/transaction.controller.ts:149-170 | Check-then-create keeps each (transaction, book) pair on at most one item |
| TransactionController.CreateTransactionItem | src/controllers/transaction.controller.ts:108-183 | The handler answers as the reply function and changes only the item table, keeping pair uniqueness and references |

## Left out

- Authentication (`auth.controller.ts`, the token helper and the token middleware): bcrypt and JSON Web Token calls into libraries outside the model.
- Express bootstrap and routing (`src/index.ts`, `src/routers/*.ts`). The book router imports a `hardDeleteBookById` that the book controller does not define, so there is no book delete.
- The `catch` paths that answer 500 "Something went wrong": they fire only on database exceptions, and the store here cannot fail.
- Prisma validates every field against its column type and raises an error, which the catch answers as 500. The model does not. A non-string id is treated as not found. A value of the wrong type that gets past the guards through JavaScript coercion is stored as sent. Examples: a numeric `branch_name`, staff or member email, or book title; a string `publish_year` such as `"MMXX"`. The store would reject these at `findFirst` or `create` (e.g. src/controllers/branch.controller.ts:24-40, src/controllers/book.controller.ts:58-65).
- Response bodies: the model returns status, message and the created row. The row's generated id and timestamps are not modelled, and neither is the delete replies' missing `data` key.
- Ids generated by the database: every create method takes the new id as a parameter, required to be fresh.
- `new Date().getFullYear()` is the parameter `currentYear`. `isNaN(Date.parse(deadline_at))` is the parameter predicate `parsable`.
- TransactionController.CreateTransactionReply: stores the deadline as sent, not converted by `new Date(...)`.
- JSON `null` and a missing field are both `Absent`; `String(null)` would print "null", not "undefined".
- Non-integer numbers: `Num` holds integers only, so NaN, fractions and infinities are not modelled. `Number(s)` reads only an optional sign and decimal digits after trimming; other numeric spellings (exponents, fractions, hexadecimal, `Infinity`) read as NaN here. Integers from 1e21 upward print in exponent form in JavaScript, which `String(n)` here does not model.
- Arrays, objects and booleans in the request body are not modelled; they would go through the same guards with JavaScript's own coercions.
- Concurrency: uniqueness by check-then-create holds only for handlers run one after another. Races between the lookup and the create are out of scope.
- The list, read, update and soft-delete handlers of other resources, pagination and search are not part of this model.
