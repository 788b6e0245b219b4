# Library lending store

A Dafny model of the in-memory lending store of a small library manager. The
store (`MemStorage`) keeps four id-keyed tables: users, books, members and
loans. It also keeps one id counter per table. It answers point lookups and
full scans. It creates, merges and deletes rows. Lending a book marks it
unavailable, and returning a loan marks the book available again. The model
also covers the record shapes the store works on: rows, insert inputs and
partial patches.

Layout:

- `wrappers.dfy` holds `Option`.
- `schema.dfy` (module `Schema`) holds the row, insert and patch types, the
  shallow merge `{ ...row, ...patch }` for each patch type, and the declared
  uniqueness constraints as predicates over a table scan.
- `ordered_map.dfy` (module `OrderedMaps`) models the insertion-ordered
  JavaScript `Map<number, V>` that holds each table:
  - `get`, `set` and `delete`;
  - `values()` in insertion order.
- `lending.dfy` (module `Lending`) models the whole store as a state machine
  over values:
  - a mutating call maps a state to a `Step` (the next state plus the value
    returned or the error thrown);
  - a query maps a state to its answer;
  - `WellFormed` is the invariant every call keeps: sound tables, keys in
    increasing order and below the counter, rows carrying their own key as id.
- `storage.dfy` (module `Storage`) holds the class `MemStorage`, whose fields its
  methods update in place. Each method is proved to leave `Model()` (the
  fields read as a `Lending.State`) exactly where the `Lending` function puts
  it, and to return the same value. So every property below holds of the
  object.
- `store_properties.dfy` (module `StoreProperties`) relates several calls:
  - lookups against scans;
  - updates keeping positions;
  - idempotent deletes and dangling references;
  - lending twice, returns, and the overdue view;
  - duplicates that creation accepts.
- `traces.dfy` (module `Traces`) replays call sequences. It proves the
  id-counter discipline: each counter advances by exactly the number of
  creations in its table (failed loan creations included), and ids are never
  reused.
- `availability.dfy` (module `Availability`) covers the book/loan coupling:
  "a present book is unavailable exactly when exactly one active loan
  references it".
  - It holds in every state reachable from the constructor through *safe*
    calls. Safe means every call except an `updateLoan` of a present loan
    that is neither the first return of an active loan nor leaves both
    `bookId` and `returnDate` alone.
  - It fails in general. A counterexample trace works from any consistent
    state, the freshly constructed store included: lend the book as loan 1,
    return it, lend it again as loan 2, then patch loan 1's `returnDate`
    again. The book is then marked available while loan 2 is still active.

Where the design description of the store and the code disagree, the model
follows the code:

- The description says the coupling holds under every mutation. The code
  breaks it, as the counterexample shows.
- The description says `updateLoan` re-opens the book only when it returns a
  previously active loan, and that a returned loan stays returned. The code
  re-opens the book under the loan's pre-patch `bookId` whenever the patch's
  `returnDate` is truthy. It also lets an explicit null `returnDate`
  re-activate a loan without touching any book.
- The description leaves the order of the overdue view open. The code
  returns insertion order, which is ascending id.
- `createLoan` advances the loan counter before validating, so a failed call
  still uses up an id.

Dates are integer instants. The clock read by `getOverdueLoans` is the
parameter `now`.

## Model

| member | source | states |
|---|---|---|
| Schema.MergeBook | server/storage.ts:93 | a supplied patch field overrides and a missing one keeps the book's value; id and `available` cannot change |
| Schema.MergeMember | server/storage.ts:122 | a supplied patch field overrides and a missing one keeps the member's value; the id cannot change |
| Schema.MergeLoan | server/storage.ts:171 | each of the five loan fields is taken from the patch when supplied, an explicit null included; the id cannot change; a truthy return date leaves the loan returned |
| Schema.MergeBookComposes | server/storage.ts:93 | two successive book merges equal one merge of the combined patch; the empty patch is the identity; merging the same patch twice equals merging it once |
| Schema.MergeMemberComposes | server/storage.ts:122 | the same three laws for member merges |
| Schema.MergeLoanComposes | server/storage.ts:171 | the same three laws for loan merges |
| OrderedMaps.Empty | server/storage.ts:41-44 | a new map is sound, has no entries and scans to nothing |
| OrderedMaps.Put | server/storage.ts:69 | `set` makes `get(k)` the new value and leaves every other key's value alone; soundness is kept; increasing key order is kept when the key is new and largest, or already present |
| OrderedMaps.Delete | server/storage.ts:99 | `delete` makes `get(k)` undefined and leaves every other key alone; soundness and key order are kept; no key is added |
| OrderedMaps.Values | server/storage.ts:75 | the scan lists the entry of every key, in key order, one per key |
| OrderedMaps.ValuesMember | server/storage.ts:75 | a value is in the scan exactly when some key holds it |
| OrderedMaps.ValuesPutNew | server/storage.ts:69 | setting an absent key appends its value to the end of the scan |
| OrderedMaps.ValuesPutExisting | server/storage.ts:94 | setting a present key keeps the key order and replaces the value in place |
| OrderedMaps.DeleteIdempotent | server/storage.ts:99 | deleting a key twice equals deleting it once |
| Lending.Init | server/storage.ts:40-53 | the new store is well formed; it has empty book, member and loan tables and exactly one user, `{1, admin, admin123, admin}`; the user counter is 2 and every other counter is 1 |
| Lending.GetUser | server/storage.ts:56-58 | a user found under an id carries that id |
| Lending.GetUserByUsername | server/storage.ts:60-64 | none exactly when no user has the name; otherwise the earliest-inserted user with the name |
| Lending.FindUser | server/storage.ts:61-63 | `find` over a scan: none exactly when no element matches, else the first match |
| Lending.CreateUser | server/storage.ts:66-71 | the new user takes the user counter as id; only the user table and counter change; other users are untouched; the id was free; the new user is appended to the scan; well-formedness is kept |
| Lending.Authenticate | server/routes.ts:34-38 | a login succeeds only with the first user of that name and its exact password, and fails exactly when that user's password differs or no user has the name |
| Lending.GetBooks | server/storage.ts:74-76 | the scan lists books in strictly ascending id order (insertion order) |
| Lending.GetBook | server/storage.ts:78-80 | a book found under an id carries that id |
| Lending.CreateBook | server/storage.ts:82-87 | the new book takes the book counter as id; it is available whatever the input; only the book table and counter change; the book is appended to the scan; well-formedness is kept |
| Lending.UpdateBook | server/storage.ts:89-96 | an absent id fails as not found and changes nothing; otherwise the merge is stored and returned, no other book or table changes, and the key order is unchanged |
| Lending.DeleteBook | server/storage.ts:98-100 | never fails; only that book key goes and no other table changes |
| Lending.GetMembers | server/storage.ts:103-105 | the scan lists members in strictly ascending id order |
| Lending.GetMember | server/storage.ts:107-109 | a member found under an id carries that id |
| Lending.CreateMember | server/storage.ts:111-116 | the new member takes the member counter as id; only the member table and counter change; the member is appended to the scan |
| Lending.UpdateMember | server/storage.ts:118-125 | an absent id fails as not found and changes nothing; otherwise the merge is stored and returned, and nothing else changes |
| Lending.DeleteMember | server/storage.ts:127-129 | never fails; only that member key goes and no other table changes |
| Lending.GetLoans | server/storage.ts:132-134 | the scan lists loans in strictly ascending id order |
| Lending.GetLoan | server/storage.ts:136-138 | a loan found under an id carries that id |
| Lending.CreateLoan | server/storage.ts:140-165 | the loan counter always advances; checks run in order (book exists, book available, member exists), and each failure changes nothing else; success exactly when all pass; on success an active loan with the counter as id is stored, exactly that book becomes unavailable, every other book and the member table are unchanged, and the loan is appended to the scan |
| Lending.UpdateLoan | server/storage.ts:167-183 | an absent id fails as not found and changes nothing; otherwise the merge is stored and returned, other loans and the order are unchanged, and books change only when the patch has a truthy return date; in that case exactly the book under the pre-patch `bookId` becomes available, if it exists, whether or not the loan was active |
| Lending.OverdueIn | server/storage.ts:187-189 | the filter keeps exactly the active loans due strictly before `now` |
| Lending.OverdueInAscending | server/storage.ts:187-189 | the filter keeps ascending ids ascending |
| Lending.GetOverdueLoans | server/storage.ts:185-190 | exactly the scanned loans that are active and due strictly before `now`, in ascending id order |
| StoreProperties.BookLookupAgreesWithScan | server/storage.ts:74-80 | a book is in the scan exactly when looking up its id yields it |
| StoreProperties.MemberLookupAgreesWithScan | server/storage.ts:103-109 | a member is in the scan exactly when looking up its id yields it |
| StoreProperties.LoanLookupAgreesWithScan | server/storage.ts:132-138 | a loan is in the scan exactly when looking up its id yields it |
| StoreProperties.UpdateBookKeepsPosition | server/storage.ts:89-96 | an update keeps the scan's length and replaces only that book, in place |
| StoreProperties.UpdateMemberKeepsPosition | server/storage.ts:118-125 | an update keeps the scan's length and replaces only that member, in place |
| StoreProperties.UpdateLoanKeepsPosition | server/storage.ts:167-173 | an update keeps the scan's length and replaces only that loan, in place |
| StoreProperties.DeleteBookIdempotent | server/storage.ts:98-100 | deleting a book twice equals deleting it once |
| StoreProperties.DeleteMemberIdempotent | server/storage.ts:127-129 | deleting a member twice equals deleting it once |
| StoreProperties.DeleteBookLeavesDanglingLoan | server/storage.ts:98-100 | deleting a lent book leaves its loan, now pointing at no book |
| StoreProperties.NoDoubleLending | server/storage.ts:148-150 | after a successful loan, a second loan of the same book fails as unavailable and only uses up an id |
| StoreProperties.ReturnReopensBook | server/storage.ts:171-179 | a return stores the date and makes the loan's book available, so a new loan of it to an existing member succeeds |
| StoreProperties.ReturnUsesPrePatchBook | server/storage.ts:175-179 | a return leaves every book except the one the loan named before the patch |
| StoreProperties.ReturnedLoanNotOverdue | server/storage.ts:185-190 | after a return the overdue view is the old one minus that loan |
| StoreProperties.FindUserAppend | server/storage.ts:60-64 | appending a user never changes an existing first match |
| StoreProperties.CreateUserAcceptsDuplicateName | server/storage.ts:66-71 | creating a user under a taken name succeeds, breaks username uniqueness and leaves lookup by that name returning the earlier user |
| StoreProperties.ShadowedUserCannotLogIn | server/routes.ts:34-38 | a user whose name an earlier user has can never log in as themselves |
| StoreProperties.CreateBookAcceptsDuplicateIsbn | server/storage.ts:82-87 | creating a book with a taken ISBN succeeds and breaks ISBN uniqueness |
| StoreProperties.CreateMemberAcceptsDuplicates | server/storage.ts:111-116 | creating a member with a taken email or membership id succeeds and breaks that uniqueness |
| Traces.RunKeepsWellFormed | server/storage.ts:33-191 | every call sequence keeps the store well formed |
| Traces.ApplyCounter | server/storage.ts:67 | a call advances by one exactly the counter of the table it creates in, and no other |
| Traces.RunCounter | server/storage.ts:141 | over a sequence each counter advances by the number of creations in its table, failed loan creations included |
| Traces.ApplyIds | server/storage.ts:83 | a call adds at most one id to a table: that table's counter, and only when it creates there |
| Traces.RunIds | server/storage.ts:112 | every id present after a sequence was present before it or was taken from the counter during it, so ids are never reused |
| Availability.ConsistentIsCoupled | server/storage.ts:161-162 | the inductive invariant implies the coupling |
| Availability.InitConsistent | server/storage.ts:40-53 | the new store satisfies the inductive invariant |
| Availability.SameLoansKeepConsistent | server/storage.ts:89-129 | calls that change neither the loans nor any book's availability keep the invariant |
| Availability.CreateBookKeepsConsistent | server/storage.ts:82-87 | a new book is available and no active loan names its id yet |
| Availability.CreateLoanActive | server/storage.ts:158-162 | a successful loan adds itself to its own book's active loans and to no other book's |
| Availability.CreateLoanKeepsConsistent | server/storage.ts:140-165 | loan creation keeps the invariant, on success and on failure |
| Availability.FirstReturnKeepsConsistent | server/storage.ts:171-179 | the first return of an active loan keeps the invariant |
| Availability.QuietPatchKeepsConsistent | server/storage.ts:171-172 | a loan patch that leaves `bookId` and `returnDate` alone keeps the invariant |
| Availability.SafeStepKeepsConsistent | server/storage.ts:33-191 | every safe call keeps the invariant |
| Availability.SafeRunKeepsConsistent | server/storage.ts:33-191 | every sequence of safe calls keeps the invariant |
| Availability.ReachableIsCoupled | server/storage.ts:40-53 | every state reached from the constructor through safe calls is coupled |
| Availability.SafePrefixOutcome | server/storage.ts:140-183 | lend, return and lend again is a safe sequence; the book ends unavailable while the first loan is returned |
| Availability.RereturnStep | server/storage.ts:175-179 | re-returning an already returned loan is not safe, and it marks the book available while another loan of it is active |
| Availability.CouplingNotPreservedByUpdateLoan | server/storage.ts:167-183 | from any consistent state the safe prefix ends coupled, but the re-return that follows breaks the coupling |
| Availability.CouplingFailsFromInit | server/storage.ts:40-53 | the freshly constructed store admits the counterexample |
| Storage.MemStorage.constructor | server/storage.ts:40-53 | the object starts in the constructor state of the state machine |
| Storage.MemStorage.GetUser | server/storage.ts:56-58 | returns the state machine's lookup, which carries the requested id |
| Storage.MemStorage.GetUserByUsername | server/storage.ts:60-64 | returns the first user of that name in insertion order, or none exactly when there is none |
| Storage.MemStorage.CreateUser | server/storage.ts:66-71 | updates the fields exactly as the state machine's `createUser` and returns the same user |
| Storage.MemStorage.GetBooks | server/storage.ts:74-76 | returns the scan, in ascending id order |
| Storage.MemStorage.GetBook | server/storage.ts:78-80 | returns the lookup, which carries the requested id |
| Storage.MemStorage.CreateBook | server/storage.ts:82-87 | updates the fields exactly as `createBook` and returns the same book |
| Storage.MemStorage.UpdateBook | server/storage.ts:89-96 | updates the fields exactly as `updateBook` and returns the same outcome |
| Storage.MemStorage.DeleteBook | server/storage.ts:98-100 | updates the fields exactly as `deleteBook` |
| Storage.MemStorage.GetMembers | server/storage.ts:103-105 | returns the scan, in ascending id order |
| Storage.MemStorage.GetMember | server/storage.ts:107-109 | returns the lookup, which carries the requested id |
| Storage.MemStorage.CreateMember | server/storage.ts:111-116 | updates the fields exactly as `createMember` and returns the same member |
| Storage.MemStorage.UpdateMember | server/storage.ts:118-125 | updates the fields exactly as `updateMember` and returns the same outcome |
| Storage.MemStorage.DeleteMember | server/storage.ts:127-129 | updates the fields exactly as `deleteMember` |
| Storage.MemStorage.GetLoans | server/storage.ts:132-134 | returns the scan, in ascending id order |
| Storage.MemStorage.GetLoan | server/storage.ts:136-138 | returns the lookup, which carries the requested id |
| Storage.MemStorage.CreateLoan | server/storage.ts:140-165 | updates the fields exactly as `createLoan` (counter first, then the three checks in order) and returns the same outcome |
| Storage.MemStorage.UpdateLoan | server/storage.ts:167-183 | updates the fields exactly as `updateLoan` and returns the same outcome |
| Storage.MemStorage.GetOverdueLoans | server/storage.ts:185-190 | returns exactly the active loans due before `now`, in ascending id order, and changes nothing |

## Left out

- Promises and `async`: every store call runs to completion without
  suspending, so the model has no interleavings and no locks.
- Dates: ISO-8601 parsing, `new Date()` and millisecond arithmetic are not
  modelled. Timestamps are integers, and the clock is the `now` parameter of
  `GetOverdueLoans`.
- The `./types` module that storage.ts imports for the loan patch type is not
  part of this model. The loan patch follows `updateLoanSchema` instead, with
  every field optional.
- Runtime patches with fields outside the declared patch types are not
  modelled. A request body could carry `id` or `available`, since the routes
  forward it unchecked; the model's patches cannot set them.
- A patch field that is present but `undefined` is not modelled. A spread
  would copy `undefined` over the row; the model only has absent fields,
  which keep the row's value.
- A falsy non-null `returnDate` value (an empty string or the epoch 0) is not
  modelled separately. Any return date in a patch counts as truthy.
- Drizzle tables, zod schemas and `createInsertSchema` appear only as the
  record and field-set shapes they define. Column defaults and uniqueness are
  not enforced by the in-memory store, so uniqueness is a predicate that
  creation may break.
- The HTTP routes apart from the credential check, sessions, and all client
  pages: they wrap the store without adding state to it.
- The module-level `storage` singleton is not modelled separately. It is one
  `MemStorage` built by the constructor.
