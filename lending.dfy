/**
 * The lending store of server/storage.ts as a state machine over values.
 *
 * A `State` holds the four id-keyed tables (users, books, members, loans),
 * each an insertion-ordered map, and one id counter per table. Every
 * operation of the store is a function here: a mutating one maps a state to
 * a `Step` (the next state and what the call returns or throws), a query maps
 * a state to its answer. The class `Storage.MemStorage` performs the same
 * operations in place and is proved to agree with these functions.
 */
module Lending {
  import opened Wrappers
  import opened Schema
  import opened OrderedMaps

  /** The errors the store throws. */
  datatype Error = BookNotFound | BookUnavailable | MemberNotFound | LoanNotFound

  datatype Result<T> = Ok(value: T) | Err(error: Error)

  datatype State = State(users: OrderedMap<User>, books: OrderedMap<Book>,
                         members: OrderedMap<Member>, loans: OrderedMap<Loan>,
                         nextUserId: nat, nextBookId: nat, nextMemberId: nat, nextLoanId: nat)

  /** The state after a call, and the call's outcome. */
  datatype Step<T> = Step(state: State, result: T)

  // ------------------------------------------------------------ invariant

  /** Keys are listed once, in increasing order, and each is below the table's counter. */
  predicate TableOk<V>(m: OrderedMap<V>, next: nat) {
    1 <= next && Valid(m) && Increasing(m.keys) && forall k :: k in m.entries ==> 1 <= k < next
  }

  predicate UsersOk(m: OrderedMap<User>, next: nat) {
    TableOk(m, next) && forall k :: k in m.entries ==> m.entries[k].id == k
  }

  predicate BooksOk(m: OrderedMap<Book>, next: nat) {
    TableOk(m, next) && forall k :: k in m.entries ==> m.entries[k].id == k
  }

  predicate MembersOk(m: OrderedMap<Member>, next: nat) {
    TableOk(m, next) && forall k :: k in m.entries ==> m.entries[k].id == k
  }

  predicate LoansOk(m: OrderedMap<Loan>, next: nat) {
    TableOk(m, next) && forall k :: k in m.entries ==> m.entries[k].id == k
  }

  /** What every operation keeps: sound tables whose rows carry their own key as id. */
  predicate WellFormed(s: State) {
    UsersOk(s.users, s.nextUserId) && BooksOk(s.books, s.nextBookId) &&
    MembersOk(s.members, s.nextMemberId) && LoansOk(s.loans, s.nextLoanId)
  }

  /** Every stored key, and so every listed key, is below the counter. */
  lemma TableOkBelow<V>(m: OrderedMap<V>, next: nat)
    requires TableOk(m, next)
    ensures next !in m.entries && forall j :: j in m.keys ==> j < next
  {
  }

  /** Storing under the counter and advancing it keeps a table sound. */
  lemma TableOkPutNew<V>(m: OrderedMap<V>, next: nat, v: V)
    requires TableOk(m, next)
    ensures TableOk(Put(m, next, v), next + 1)
  {
    TableOkBelow(m, next);
  }

  /** Overwriting a present key keeps a table sound. */
  lemma TableOkPutExisting<V>(m: OrderedMap<V>, next: nat, k: int, v: V)
    requires TableOk(m, next) && k in m.entries
    ensures TableOk(Put(m, k, v), next)
  {
  }

  lemma TableOkDelete<V>(m: OrderedMap<V>, next: nat, k: int)
    requires TableOk(m, next)
    ensures TableOk(Delete(m, k), next)
  {
  }

  // ------------------------------------------------------------ constructor

  /** The seeded administrator account. */
  const AdminUser := InsertUser("admin", "admin123", "admin")

  /** Empty tables, every counter at 1, then `createUser` of the administrator. */
  function Init(): (s: State)
    ensures WellFormed(s)
    ensures Values(s.users) == [User(1, "admin", "admin123", "admin")]
    ensures s.books == Empty() && s.members == Empty() && s.loans == Empty()
    ensures s.nextUserId == 2 && s.nextBookId == 1 && s.nextMemberId == 1 && s.nextLoanId == 1
  {
    var blank := State(Empty(), Empty(), Empty(), Empty(), 1, 1, 1, 1);
    CreateUser(blank, AdminUser).state
  }

  // ------------------------------------------------------------ users

  function GetUser(s: State, id: int): (r: Option<User>)
    ensures WellFormed(s) && r.Some? ==> r.value.id == id
  {
    Get(s.users, id)
  }

  /** `find` over the user scan: the earliest-inserted user with that name. */
  function GetUserByUsername(s: State, username: string): (r: Option<User>)
    ensures r.None? <==> forall u :: u in Values(s.users) ==> u.username != username
    ensures r.Some? ==> FirstMatch(Values(s.users), username, r.value)
  {
    FindUser(Values(s.users), username)
  }

  /** `u` occurs in `us` under `username`, and no earlier user has that name. */
  predicate FirstMatch(us: seq<User>, username: string, u: User) {
    exists i :: 0 <= i < |us| && us[i] == u && u.username == username &&
                forall j :: 0 <= j < i ==> us[j].username != username
  }

  function FindUser(us: seq<User>, username: string): (r: Option<User>)
    ensures r.None? <==> forall u :: u in us ==> u.username != username
    ensures r.Some? ==> FirstMatch(us, username, r.value)
  {
    if us == [] then None
    else if us[0].username == username then
      assert FirstMatch(us, username, us[0]) by { assert us[0] == us[0]; }
      Some(us[0])
    else
      var r := FindUser(us[1..], username);
      assert r.Some? ==> FirstMatch(us, username, r.value) by {
        if r.Some? {
          var i :| 0 <= i < |us[1..]| && us[1..][i] == r.value && r.value.username == username &&
                   forall j :: 0 <= j < i ==> us[1..][j].username != username;
          assert us[i + 1] == r.value;
          forall j | 0 <= j < i + 1 ensures us[j].username != username {
            if j > 0 { assert us[j] == us[1..][j - 1]; }
          }
        }
      }
      assert r.None? ==> forall u :: u in us ==> u.username != username by {
        if r.None? {
          forall u | u in us ensures u.username != username {
            if u != us[0] { assert u in us[1..]; }
          }
        }
      }
      r
  }

  /** `createUser`: takes the user counter as id, stores the row under it. */
  function CreateUser(s: State, x: InsertUser): (r: Step<User>)
    ensures r.result == User(s.nextUserId, x.username, x.password, x.role)
    ensures r.state == s.(users := r.state.users, nextUserId := s.nextUserId + 1)
    ensures GetUser(r.state, r.result.id) == Some(r.result)
    ensures forall id :: id != r.result.id ==> GetUser(r.state, id) == GetUser(s, id)
    ensures WellFormed(s) ==> WellFormed(r.state) && GetUser(s, r.result.id) == None
    ensures WellFormed(s) ==> Values(r.state.users) == Values(s.users) + [r.result]
  {
    var id := s.nextUserId;
    var user := User(id, x.username, x.password, x.role);
    assert WellFormed(s) ==> Values(Put(s.users, id, user)) == Values(s.users) + [user] by {
      if WellFormed(s) { ValuesPutNew(s.users, id, user); }
    }
    Step(s.(users := Put(s.users, id, user), nextUserId := id + 1), user)
  }

  /** The credential check the login route applies: first user by name, then an exact password match. */
  function Authenticate(s: State, username: string, password: string): (r: Option<User>)
    ensures r.Some? ==> r.value.username == username && r.value.password == password
    ensures r.Some? ==> FirstMatch(Values(s.users), username, r.value)
    ensures r.None? ==> forall u :: FirstMatch(Values(s.users), username, u) ==> u.password != password
  {
    var u := GetUserByUsername(s, username);
    if u.Some? && u.value.password == password then
      u
    else
      assert forall v :: FirstMatch(Values(s.users), username, v) ==> u == Some(v) by {
        forall v | FirstMatch(Values(s.users), username, v) ensures u == Some(v) {
          FirstMatchUnique(Values(s.users), username, u.value, v);
        }
      }
      None
  }

  lemma FirstMatchUnique(us: seq<User>, username: string, u: User, v: User)
    requires FirstMatch(us, username, u) && FirstMatch(us, username, v)
    ensures u == v
  {
    var i :| 0 <= i < |us| && us[i] == u && u.username == username &&
             forall j :: 0 <= j < i ==> us[j].username != username;
    var k :| 0 <= k < |us| && us[k] == v && v.username == username &&
             forall j :: 0 <= j < k ==> us[j].username != username;
    assert !(i < k) && !(k < i);
  }

  // ------------------------------------------------------------ books

  function GetBooks(s: State): (r: seq<Book>)
    ensures WellFormed(s) ==> forall i, j :: 0 <= i < j < |r| ==> r[i].id < r[j].id
  {
    Values(s.books)
  }

  function GetBook(s: State, id: int): (r: Option<Book>)
    ensures WellFormed(s) && r.Some? ==> r.value.id == id
  {
    Get(s.books, id)
  }

  /** `createBook`: counter as id, `available` forced to true whatever the input. */
  function CreateBook(s: State, x: InsertBook): (r: Step<Book>)
    ensures r.result == Book(s.nextBookId, x.title, x.author, x.isbn, x.publishDate, true)
    ensures r.state == s.(books := r.state.books, nextBookId := s.nextBookId + 1)
    ensures GetBook(r.state, r.result.id) == Some(r.result)
    ensures forall id :: id != r.result.id ==> GetBook(r.state, id) == GetBook(s, id)
    ensures WellFormed(s) ==> WellFormed(r.state) && GetBook(s, r.result.id) == None
    ensures WellFormed(s) ==> GetBooks(r.state) == GetBooks(s) + [r.result]
  {
    var id := s.nextBookId;
    var book := Book(id, x.title, x.author, x.isbn, x.publishDate, true);
    assert WellFormed(s) ==> Values(Put(s.books, id, book)) == Values(s.books) + [book] by {
      if WellFormed(s) { ValuesPutNew(s.books, id, book); }
    }
    Step(s.(books := Put(s.books, id, book), nextBookId := id + 1), book)
  }

  /** `updateBook`: not-found when absent, else the shallow merge is stored under `id`. */
  function UpdateBook(s: State, id: int, p: BookPatch): (r: Step<Result<Book>>)
    ensures GetBook(s, id).None? ==> r == Step(s, Err(BookNotFound))
    ensures GetBook(s, id).Some? ==>
              && r.result == Ok(MergeBook(GetBook(s, id).value, p))
              && r.state == s.(books := r.state.books)
              && GetBook(r.state, id) == Some(r.result.value)
              && (forall k :: k != id ==> GetBook(r.state, k) == GetBook(s, k))
              && r.state.books.keys == s.books.keys
    ensures WellFormed(s) ==> WellFormed(r.state)
  {
    match Get(s.books, id)
    case None => Step(s, Err(BookNotFound))
    case Some(book) =>
      var updated := MergeBook(book, p);
      Step(s.(books := Put(s.books, id, updated)), Ok(updated))
  }

  /** `deleteBook`: never fails; loans that reference the book are left as they are. */
  function DeleteBook(s: State, id: int): (r: State)
    ensures r == s.(books := r.books)
    ensures GetBook(r, id) == None
    ensures forall k :: k != id ==> GetBook(r, k) == GetBook(s, k)
    ensures r.books.keys == Without(s.books.keys, id)
    ensures WellFormed(s) ==> WellFormed(r)
  {
    s.(books := Delete(s.books, id))
  }

  // ------------------------------------------------------------ members

  function GetMembers(s: State): (r: seq<Member>)
    ensures WellFormed(s) ==> forall i, j :: 0 <= i < j < |r| ==> r[i].id < r[j].id
  {
    Values(s.members)
  }

  function GetMember(s: State, id: int): (r: Option<Member>)
    ensures WellFormed(s) && r.Some? ==> r.value.id == id
  {
    Get(s.members, id)
  }

  function CreateMember(s: State, x: InsertMember): (r: Step<Member>)
    ensures r.result == Member(s.nextMemberId, x.name, x.email, x.phone, x.membershipId)
    ensures r.state == s.(members := r.state.members, nextMemberId := s.nextMemberId + 1)
    ensures GetMember(r.state, r.result.id) == Some(r.result)
    ensures forall id :: id != r.result.id ==> GetMember(r.state, id) == GetMember(s, id)
    ensures WellFormed(s) ==> WellFormed(r.state) && GetMember(s, r.result.id) == None
    ensures WellFormed(s) ==> GetMembers(r.state) == GetMembers(s) + [r.result]
  {
    var id := s.nextMemberId;
    var member := Member(id, x.name, x.email, x.phone, x.membershipId);
    assert WellFormed(s) ==> Values(Put(s.members, id, member)) == Values(s.members) + [member] by {
      if WellFormed(s) { ValuesPutNew(s.members, id, member); }
    }
    Step(s.(members := Put(s.members, id, member), nextMemberId := id + 1), member)
  }

  function UpdateMember(s: State, id: int, p: MemberPatch): (r: Step<Result<Member>>)
    ensures GetMember(s, id).None? ==> r == Step(s, Err(MemberNotFound))
    ensures GetMember(s, id).Some? ==>
              && r.result == Ok(MergeMember(GetMember(s, id).value, p))
              && r.state == s.(members := r.state.members)
              && GetMember(r.state, id) == Some(r.result.value)
              && (forall k :: k != id ==> GetMember(r.state, k) == GetMember(s, k))
              && r.state.members.keys == s.members.keys
    ensures WellFormed(s) ==> WellFormed(r.state)
  {
    match Get(s.members, id)
    case None => Step(s, Err(MemberNotFound))
    case Some(member) =>
      var updated := MergeMember(member, p);
      Step(s.(members := Put(s.members, id, updated)), Ok(updated))
  }

  function DeleteMember(s: State, id: int): (r: State)
    ensures r == s.(members := r.members)
    ensures GetMember(r, id) == None
    ensures forall k :: k != id ==> GetMember(r, k) == GetMember(s, k)
    ensures r.members.keys == Without(s.members.keys, id)
    ensures WellFormed(s) ==> WellFormed(r)
  {
    s.(members := Delete(s.members, id))
  }

  // ------------------------------------------------------------ loans

  function GetLoans(s: State): (r: seq<Loan>)
    ensures WellFormed(s) ==> LoanIdsAscending(r)
  {
    Values(s.loans)
  }

  function GetLoan(s: State, id: int): (r: Option<Loan>)
    ensures WellFormed(s) && r.Some? ==> r.value.id == id
  {
    Get(s.loans, id)
  }

  predicate LoanIdsAscending(ls: seq<Loan>) {
    forall i, j :: 0 <= i < j < |ls| ==> ls[i].id < ls[j].id
  }

  /**
   * `createLoan`. The loan counter advances before any check, so a failed
   * call still uses up an id. Checks run in order: the book exists, the book
   * is available, the member exists. On success the loan is stored active and
   * the book is marked unavailable.
   */
  function CreateLoan(s: State, x: InsertLoan): (r: Step<Result<Loan>>)
    ensures r.state.nextLoanId == s.nextLoanId + 1
    ensures GetBook(s, x.bookId).None? ==>
              r == Step(s.(nextLoanId := s.nextLoanId + 1), Err(BookNotFound))
    ensures GetBook(s, x.bookId).Some? && !GetBook(s, x.bookId).value.available ==>
              r == Step(s.(nextLoanId := s.nextLoanId + 1), Err(BookUnavailable))
    ensures GetBook(s, x.bookId).Some? && GetBook(s, x.bookId).value.available &&
            GetMember(s, x.memberId).None? ==>
              r == Step(s.(nextLoanId := s.nextLoanId + 1), Err(MemberNotFound))
    ensures r.result.Ok? <==>
              GetBook(s, x.bookId).Some? && GetBook(s, x.bookId).value.available &&
              GetMember(s, x.memberId).Some?
    ensures r.result.Ok? ==>
              && r.result.value == Loan(s.nextLoanId, x.bookId, x.memberId, x.loanDate, x.dueDate, None)
              && r.state == s.(loans := r.state.loans, books := r.state.books, nextLoanId := s.nextLoanId + 1)
              && GetLoan(r.state, s.nextLoanId) == Some(r.result.value)
              && (forall k :: k != s.nextLoanId ==> GetLoan(r.state, k) == GetLoan(s, k))
    ensures r.result.Ok? && WellFormed(s) ==>
              && GetBook(r.state, x.bookId) == Some(GetBook(s, x.bookId).value.(available := false))
              && (forall k :: k != x.bookId ==> GetBook(r.state, k) == GetBook(s, k))
              && r.state.books.keys == s.books.keys
              && GetLoans(r.state) == GetLoans(s) + [r.result.value]
    ensures WellFormed(s) ==> WellFormed(r.state)
  {
    var id := s.nextLoanId;
    var counted := s.(nextLoanId := id + 1);
    match Get(s.books, x.bookId)
    case None => Step(counted, Err(BookNotFound))
    case Some(book) =>
      if !book.available then Step(counted, Err(BookUnavailable))
      else if Get(s.members, x.memberId).None? then Step(counted, Err(MemberNotFound))
      else
        var loan := Loan(id, x.bookId, x.memberId, x.loanDate, x.dueDate, None);
        assert WellFormed(s) ==> Values(Put(s.loans, id, loan)) == Values(s.loans) + [loan] by {
          if WellFormed(s) { ValuesPutNew(s.loans, id, loan); }
        }
        Step(counted.(loans := Put(s.loans, id, loan),
                      books := Put(s.books, book.id, book.(available := false))),
             Ok(loan))
  }

  /**
   * `updateLoan`. Not-found when absent; otherwise the merge is stored, and
   * if the patch carries a truthy `returnDate` the book under the loan's
   * pre-patch `bookId` (when it still exists) is marked available -- whether
   * or not the loan had already been returned.
   */
  function UpdateLoan(s: State, id: int, p: LoanPatch): (r: Step<Result<Loan>>)
    ensures GetLoan(s, id).None? ==> r == Step(s, Err(LoanNotFound))
    ensures GetLoan(s, id).Some? ==>
              var prior := GetLoan(s, id).value;
              && r.result == Ok(MergeLoan(prior, p))
              && r.state == s.(loans := r.state.loans, books := r.state.books)
              && GetLoan(r.state, id) == Some(MergeLoan(prior, p))
              && (forall k :: k != id ==> GetLoan(r.state, k) == GetLoan(s, k))
              && r.state.loans.keys == s.loans.keys
              && (!SetsReturnDate(p) ==> r.state.books == s.books)
    ensures GetLoan(s, id).Some? && SetsReturnDate(p) && WellFormed(s) ==>
              var prior := GetLoan(s, id).value;
              && r.state.books.keys == s.books.keys
              && forall k :: GetBook(r.state, k) ==
                   if k == prior.bookId && GetBook(s, k).Some?
                   then Some(GetBook(s, k).value.(available := true))
                   else GetBook(s, k)
    ensures WellFormed(s) ==> WellFormed(r.state)
  {
    match Get(s.loans, id)
    case None => Step(s, Err(LoanNotFound))
    case Some(loan) =>
      var updated := MergeLoan(loan, p);
      var loans' := Put(s.loans, id, updated);
      var books' :=
        if SetsReturnDate(p) then
          match Get(s.books, loan.bookId)
          case None => s.books
          case Some(book) => Put(s.books, book.id, book.(available := true))
        else s.books;
      Step(s.(loans := loans', books := books'), Ok(updated))
  }

  /** An active loan whose due date is strictly before `now`. */
  predicate IsOverdue(l: Loan, now: Timestamp) {
    l.returnDate.None? && l.dueDate < now
  }

  /** `filter` keeping overdue loans, in their original order. */
  function OverdueIn(ls: seq<Loan>, now: Timestamp): (r: seq<Loan>)
    ensures forall l :: l in r <==> l in ls && IsOverdue(l, now)
  {
    if ls == [] then []
    else
      assert forall l :: l in ls <==> l == ls[0] || l in ls[1..];
      (if IsOverdue(ls[0], now) then [ls[0]] else []) + OverdueIn(ls[1..], now)
  }

  /** The filter keeps the scan's order, so ascending ids stay ascending. */
  lemma {:induction false} OverdueInAscending(ls: seq<Loan>, now: Timestamp)
    requires LoanIdsAscending(ls)
    ensures LoanIdsAscending(OverdueIn(ls, now))
  {
    if ls != [] {
      var rest := OverdueIn(ls[1..], now);
      OverdueInAscending(ls[1..], now);
      if IsOverdue(ls[0], now) {
        var r := [ls[0]] + rest;
        forall i, j | 0 <= i < j < |r| ensures r[i].id < r[j].id {
          if i == 0 {
            assert r[j] in rest;
            var k :| 0 <= k < |ls[1..]| && ls[1..][k] == r[j];
            assert ls[k + 1] == r[j];
          } else {
            assert r[i] == rest[i - 1] && r[j] == rest[j - 1];
          }
        }
      }
    }
  }

  /** `getOverdueLoans` with the clock passed in. */
  function GetOverdueLoans(s: State, now: Timestamp): (r: seq<Loan>)
    ensures forall l :: l in r <==> l in GetLoans(s) && IsOverdue(l, now)
    ensures WellFormed(s) ==> LoanIdsAscending(r)
  {
    assert WellFormed(s) ==> LoanIdsAscending(OverdueIn(Values(s.loans), now)) by {
      if WellFormed(s) { OverdueInAscending(GetLoans(s), now); }
    }
    OverdueIn(Values(s.loans), now)
  }
}
