/**
 * `MemStorage` of server/storage.ts: the four tables and the id counters are
 * fields that its methods update in place. `Model()` reads the fields as a
 * `Lending.State`, and every method is proved to do to that state exactly
 * what the corresponding `Lending` function does, so the properties proved
 * about `Lending` (and in `StoreProperties`, `Traces` and `Availability`)
 * hold of the object too.
 */
module Storage {
  import opened Wrappers
  import opened Schema
  import opened OrderedMaps
  import Lending

  class MemStorage {
    var users: OrderedMap<User>
    var books: OrderedMap<Book>
    var members: OrderedMap<Member>
    var loans: OrderedMap<Loan>
    var nextUserId: nat
    var nextBookId: nat
    var nextMemberId: nat
    var nextLoanId: nat

    /** The fields, read as a value of the state machine. */
    function Model(): Lending.State
      reads this
    {
      Lending.State(users, books, members, loans, nextUserId, nextBookId, nextMemberId, nextLoanId)
    }

    ghost predicate Valid()
      reads this
    {
      Lending.WellFormed(Model())
    }

    /** Empty tables, every counter at 1, then the administrator is created. */
    constructor ()
      ensures Valid()
      ensures Model() == Lending.Init()
    {
      users, books, members, loans := Empty(), Empty(), Empty(), Empty();
      nextUserId, nextBookId, nextMemberId, nextLoanId := 1, 1, 1, 1;
      new;
      var _ := CreateUser(Lending.AdminUser);
    }

    // ---------------------------------------------------------- users

    method GetUser(id: int) returns (r: Option<User>)
      requires Valid()
      ensures r == Lending.GetUser(Model(), id)
      ensures r.Some? ==> r.value.id == id
    {
      r := Get(users, id);
    }

    method GetUserByUsername(username: string) returns (r: Option<User>)
      ensures r == Lending.GetUserByUsername(Model(), username)
      ensures r.None? <==> forall u :: u in Values(users) ==> u.username != username
      ensures r.Some? ==> Lending.FirstMatch(Values(users), username, r.value)
    {
      r := Lending.FindUser(Values(users), username);
    }

    method CreateUser(x: InsertUser) returns (user: User)
      requires Valid()
      modifies this
      ensures Valid()
      ensures Lending.CreateUser(old(Model()), x) == Lending.Step(Model(), user)
    {
      var id := nextUserId;
      nextUserId := nextUserId + 1;
      user := User(id, x.username, x.password, x.role);
      users := Put(users, id, user);
    }

    // ---------------------------------------------------------- books

    method GetBooks() returns (r: seq<Book>)
      requires Valid()
      ensures r == Lending.GetBooks(Model())
      ensures forall i, j :: 0 <= i < j < |r| ==> r[i].id < r[j].id
    {
      r := Values(books);
    }

    method GetBook(id: int) returns (r: Option<Book>)
      requires Valid()
      ensures r == Lending.GetBook(Model(), id)
      ensures r.Some? ==> r.value.id == id
    {
      r := Get(books, id);
    }

    method CreateBook(x: InsertBook) returns (book: Book)
      requires Valid()
      modifies this
      ensures Valid()
      ensures Lending.CreateBook(old(Model()), x) == Lending.Step(Model(), book)
    {
      var id := nextBookId;
      nextBookId := nextBookId + 1;
      book := Book(id, x.title, x.author, x.isbn, x.publishDate, true);
      books := Put(books, id, book);
    }

    method UpdateBook(id: int, p: BookPatch) returns (r: Lending.Result<Book>)
      requires Valid()
      modifies this
      ensures Valid()
      ensures Lending.UpdateBook(old(Model()), id, p) == Lending.Step(Model(), r)
    {
      var book := Get(books, id);
      if book.None? {
        return Lending.Err(Lending.BookNotFound);
      }
      var updated := MergeBook(book.value, p);
      books := Put(books, id, updated);
      r := Lending.Ok(updated);
    }

    method DeleteBook(id: int)
      requires Valid()
      modifies this
      ensures Valid()
      ensures Model() == Lending.DeleteBook(old(Model()), id)
    {
      books := Delete(books, id);
    }

    // ---------------------------------------------------------- members

    method GetMembers() returns (r: seq<Member>)
      requires Valid()
      ensures r == Lending.GetMembers(Model())
      ensures forall i, j :: 0 <= i < j < |r| ==> r[i].id < r[j].id
    {
      r := Values(members);
    }

    method GetMember(id: int) returns (r: Option<Member>)
      requires Valid()
      ensures r == Lending.GetMember(Model(), id)
      ensures r.Some? ==> r.value.id == id
    {
      r := Get(members, id);
    }

    method CreateMember(x: InsertMember) returns (member: Member)
      requires Valid()
      modifies this
      ensures Valid()
      ensures Lending.CreateMember(old(Model()), x) == Lending.Step(Model(), member)
    {
      var id := nextMemberId;
      nextMemberId := nextMemberId + 1;
      member := Member(id, x.name, x.email, x.phone, x.membershipId);
      members := Put(members, id, member);
    }

    method UpdateMember(id: int, p: MemberPatch) returns (r: Lending.Result<Member>)
      requires Valid()
      modifies this
      ensures Valid()
      ensures Lending.UpdateMember(old(Model()), id, p) == Lending.Step(Model(), r)
    {
      var member := Get(members, id);
      if member.None? {
        return Lending.Err(Lending.MemberNotFound);
      }
      var updated := MergeMember(member.value, p);
      members := Put(members, id, updated);
      r := Lending.Ok(updated);
    }

    method DeleteMember(id: int)
      requires Valid()
      modifies this
      ensures Valid()
      ensures Model() == Lending.DeleteMember(old(Model()), id)
    {
      members := Delete(members, id);
    }

    // ---------------------------------------------------------- loans

    method GetLoans() returns (r: seq<Loan>)
      requires Valid()
      ensures r == Lending.GetLoans(Model())
      ensures Lending.LoanIdsAscending(r)
    {
      r := Values(loans);
    }

    method GetLoan(id: int) returns (r: Option<Loan>)
      requires Valid()
      ensures r == Lending.GetLoan(Model(), id)
      ensures r.Some? ==> r.value.id == id
    {
      r := Get(loans, id);
    }

    /** The counter advances first, so a call that fails still uses up a loan id. */
    method CreateLoan(x: InsertLoan) returns (r: Lending.Result<Loan>)
      requires Valid()
      modifies this
      ensures Valid()
      ensures Lending.CreateLoan(old(Model()), x) == Lending.Step(Model(), r)
    {
      var id := nextLoanId;
      nextLoanId := nextLoanId + 1;
      var book := Get(books, x.bookId);
      if book.None? {
        return Lending.Err(Lending.BookNotFound);
      }
      if !book.value.available {
        return Lending.Err(Lending.BookUnavailable);
      }
      var member := Get(members, x.memberId);
      if member.None? {
        return Lending.Err(Lending.MemberNotFound);
      }
      var loan := Loan(id, x.bookId, x.memberId, x.loanDate, x.dueDate, None);
      loans := Put(loans, id, loan);
      books := Put(books, book.value.id, book.value.(available := false));
      r := Lending.Ok(loan);
    }

    /** A patch with a return date re-opens the book the loan named before the patch. */
    method UpdateLoan(id: int, p: LoanPatch) returns (r: Lending.Result<Loan>)
      requires Valid()
      modifies this
      ensures Valid()
      ensures Lending.UpdateLoan(old(Model()), id, p) == Lending.Step(Model(), r)
    {
      var loan := Get(loans, id);
      if loan.None? {
        return Lending.Err(Lending.LoanNotFound);
      }
      var updated := MergeLoan(loan.value, p);
      loans := Put(loans, id, updated);
      if SetsReturnDate(p) {
        var book := Get(books, loan.value.bookId);
        if book.Some? {
          books := Put(books, book.value.id, book.value.(available := true));
        }
      }
      r := Lending.Ok(updated);
    }

    /** The overdue loans at `now`, which the store reads from the clock. */
    method GetOverdueLoans(now: Timestamp) returns (r: seq<Loan>)
      requires Valid()
      ensures r == Lending.GetOverdueLoans(Model(), now)
      ensures forall l :: l in r <==> l in Values(loans) && Lending.IsOverdue(l, now)
      ensures Lending.LoanIdsAscending(r)
    {
      r := Lending.OverdueIn(Values(loans), now);
    }
  }
}
