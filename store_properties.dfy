/**
 * Properties that relate several operations of the lending store: lookups
 * against scans, updates against positions, returns against later loans and
 * the overdue view, and the declared uniqueness constraints that creation
 * does not enforce.
 */
module StoreProperties {
  import opened Wrappers
  import opened Schema
  import opened OrderedMaps
  import opened Lending

  // -------------------------------------------------- lookups and scans

  /** A book is listed by the scan exactly when looking up its id yields it. */
  lemma BookLookupAgreesWithScan(s: State, b: Book)
    requires WellFormed(s)
    ensures b in GetBooks(s) <==> GetBook(s, b.id) == Some(b)
  {
    ValuesMember(s.books, b);
  }

  lemma MemberLookupAgreesWithScan(s: State, m: Member)
    requires WellFormed(s)
    ensures m in GetMembers(s) <==> GetMember(s, m.id) == Some(m)
  {
    ValuesMember(s.members, m);
  }

  lemma LoanLookupAgreesWithScan(s: State, l: Loan)
    requires WellFormed(s)
    ensures l in GetLoans(s) <==> GetLoan(s, l.id) == Some(l)
  {
    ValuesMember(s.loans, l);
  }

  // ------------------------------------------- updates keep positions

  /** An update replaces the book in place: the scan keeps its length and every other entry. */
  lemma UpdateBookKeepsPosition(s: State, id: int, p: BookPatch)
    requires WellFormed(s) && GetBook(s, id).Some?
    ensures var before, after := GetBooks(s), GetBooks(UpdateBook(s, id, p).state);
            |after| == |before| &&
            forall i :: 0 <= i < |before| ==>
              after[i] == if before[i].id == id then MergeBook(before[i], p) else before[i]
  {
    ValuesPutExisting(s.books, id, MergeBook(GetBook(s, id).value, p));
  }

  lemma UpdateMemberKeepsPosition(s: State, id: int, p: MemberPatch)
    requires WellFormed(s) && GetMember(s, id).Some?
    ensures var before, after := GetMembers(s), GetMembers(UpdateMember(s, id, p).state);
            |after| == |before| &&
            forall i :: 0 <= i < |before| ==>
              after[i] == if before[i].id == id then MergeMember(before[i], p) else before[i]
  {
    ValuesPutExisting(s.members, id, MergeMember(GetMember(s, id).value, p));
  }

  lemma UpdateLoanKeepsPosition(s: State, id: int, p: LoanPatch)
    requires WellFormed(s) && GetLoan(s, id).Some?
    ensures var before, after := GetLoans(s), GetLoans(UpdateLoan(s, id, p).state);
            |after| == |before| &&
            forall i :: 0 <= i < |before| ==>
              after[i] == if before[i].id == id then MergeLoan(before[i], p) else before[i]
  {
    ValuesPutExisting(s.loans, id, MergeLoan(GetLoan(s, id).value, p));
  }

  // ------------------------------------------------------------ deletes

  /** Deleting a book twice is deleting it once. */
  lemma DeleteBookIdempotent(s: State, id: int)
    ensures DeleteBook(DeleteBook(s, id), id) == DeleteBook(s, id)
  {
    DeleteIdempotent(s.books, id);
  }

  lemma DeleteMemberIdempotent(s: State, id: int)
    ensures DeleteMember(DeleteMember(s, id), id) == DeleteMember(s, id)
  {
    DeleteIdempotent(s.members, id);
  }

  /** A book with an active loan can be deleted; the loan keeps its dangling `bookId`. */
  lemma DeleteBookLeavesDanglingLoan(s: State, loanId: int)
    requires GetLoan(s, loanId).Some?
    ensures var after := DeleteBook(s, GetLoan(s, loanId).value.bookId);
            GetLoan(after, loanId) == GetLoan(s, loanId) &&
            GetBook(after, GetLoan(s, loanId).value.bookId) == None
  {
  }

  // ------------------------------------------------------------- loans

  /** Once a loan is made, a second loan of the same book fails as unavailable and stores nothing. */
  lemma NoDoubleLending(s: State, x: InsertLoan, y: InsertLoan)
    requires WellFormed(s) && CreateLoan(s, x).result.Ok? && y.bookId == x.bookId
    ensures var s1 := CreateLoan(s, x).state;
            CreateLoan(s1, y) == Step(s1.(nextLoanId := s1.nextLoanId + 1), Err(BookUnavailable))
  {
    var s1 := CreateLoan(s, x).state;
    assert GetBook(s1, y.bookId).Some? && !GetBook(s1, y.bookId).value.available;
  }

  /**
   * A patch with a return date stores that date on the loan and marks the
   * loan's book available (if it still exists), so a new loan of that book to
   * an existing member then succeeds.
   */
  lemma ReturnReopensBook(s: State, id: int, p: LoanPatch, y: InsertLoan)
    requires WellFormed(s) && GetLoan(s, id).Some? && SetsReturnDate(p)
    requires GetBook(s, GetLoan(s, id).value.bookId).Some?
    ensures var bookId, s1 := GetLoan(s, id).value.bookId, UpdateLoan(s, id, p).state;
            && GetLoan(s1, id).value.returnDate == p.returnDate.value
            && GetBook(s1, bookId).value.available
            && (y.bookId == bookId && GetMember(s1, y.memberId).Some? ==> CreateLoan(s1, y).result.Ok?)
  {
  }

  /** The book that a return re-opens is the one named before the patch, not one the patch names. */
  lemma ReturnUsesPrePatchBook(s: State, id: int, p: LoanPatch, k: int)
    requires WellFormed(s) && GetLoan(s, id).Some? && SetsReturnDate(p)
    requires k != GetLoan(s, id).value.bookId
    ensures GetBook(UpdateLoan(s, id, p).state, k) == GetBook(s, k)
  {
  }

  /** After a return, the loan leaves the overdue view and every other overdue loan stays. */
  lemma ReturnedLoanNotOverdue(s: State, id: int, p: LoanPatch, now: Timestamp)
    requires WellFormed(s) && GetLoan(s, id).Some? && SetsReturnDate(p)
    ensures forall l :: l in GetOverdueLoans(UpdateLoan(s, id, p).state, now) <==>
                        l in GetOverdueLoans(s, now) && l.id != id
  {
    var s1 := UpdateLoan(s, id, p).state;
    assert WellFormed(s1);
    forall l ensures l in GetOverdueLoans(s1, now) <==> l in GetOverdueLoans(s, now) && l.id != id {
      LoanLookupAgreesWithScan(s, l);
      LoanLookupAgreesWithScan(s1, l);
    }
  }

  // -------------------------------------------- declared uniqueness

  /** Appending to a scan never changes an existing first match. */
  lemma {:induction false} FindUserAppend(us: seq<User>, u: User, username: string)
    requires FindUser(us, username).Some?
    ensures FindUser(us + [u], username) == FindUser(us, username)
  {
    if us[0].username != username {
      assert (us + [u])[1..] == us[1..] + [u];
      FindUserAppend(us[1..], u, username);
    }
  }

  /**
   * Creating a user whose name is taken succeeds and breaks the declared
   * uniqueness of usernames, and lookup by that name keeps returning the
   * earlier user.
   */
  lemma CreateUserAcceptsDuplicateName(s: State, x: InsertUser, i: nat)
    requires WellFormed(s) && i < |Values(s.users)| && Values(s.users)[i].username == x.username
    ensures var s1 := CreateUser(s, x).state;
            && !UniqueUsernames(Values(s1.users))
            && GetUserByUsername(s1, x.username) == GetUserByUsername(s, x.username)
  {
    var us := Values(s.users);
    var s1 := CreateUser(s, x).state;
    assert Values(s1.users) == us + [CreateUser(s, x).result];
    assert Values(s1.users)[i] == us[i] && Values(s1.users)[|us|].username == x.username;
    assert us[i] in us;
    FindUserAppend(us, CreateUser(s, x).result, x.username);
  }

  /** A user whose name an earlier user already has can never log in as themselves. */
  lemma ShadowedUserCannotLogIn(s: State, i: nat, j: nat, password: string)
    requires WellFormed(s) && i < j < |Values(s.users)|
    requires Values(s.users)[i].username == Values(s.users)[j].username
    ensures Authenticate(s, Values(s.users)[j].username, password) != Some(Values(s.users)[j])
  {
  }

  /** Creating a book whose ISBN is taken succeeds and breaks the declared ISBN uniqueness. */
  lemma CreateBookAcceptsDuplicateIsbn(s: State, x: InsertBook, i: nat)
    requires WellFormed(s) && i < |GetBooks(s)| && GetBooks(s)[i].isbn == x.isbn
    ensures !UniqueIsbns(GetBooks(CreateBook(s, x).state))
  {
    var bs := GetBooks(CreateBook(s, x).state);
    assert bs[i] == GetBooks(s)[i] && bs[|GetBooks(s)|].isbn == x.isbn;
  }

  /** Creating a member whose email or membership id is taken succeeds and breaks that uniqueness. */
  lemma CreateMemberAcceptsDuplicates(s: State, x: InsertMember, i: nat)
    requires WellFormed(s) && i < |GetMembers(s)|
    ensures GetMembers(s)[i].email == x.email ==> !UniqueEmails(GetMembers(CreateMember(s, x).state))
    ensures GetMembers(s)[i].membershipId == x.membershipId ==>
              !UniqueMembershipIds(GetMembers(CreateMember(s, x).state))
  {
    var ms := GetMembers(CreateMember(s, x).state);
    assert ms[i] == GetMembers(s)[i] && ms[|GetMembers(s)|] == CreateMember(s, x).result;
  }
}
