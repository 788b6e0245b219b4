/**
 * Record shapes of the lending store (shared/schema.ts): the four table rows,
 * the insert inputs picked from them, and the partial patches that updates
 * accept. A patch with every field optional is merged onto a row the way the
 * object spread `{ ...row, ...patch }` does: a supplied field overrides, a
 * missing one keeps the row's value.
 */
module Schema {
  import opened Wrappers

  /** Timestamp columns are modelled as integer instants (e.g. milliseconds). */
  type Timestamp = int

  // ---------------------------------------------------------------- rows

  datatype User = User(id: int, username: string, password: string, role: string)

  datatype Book = Book(id: int, title: string, author: string, isbn: string,
                       publishDate: string, available: bool)

  datatype Member = Member(id: int, name: string, email: string, phone: string,
                           membershipId: string)

  /** `returnDate` is the only nullable column: `None` means the loan is active. */
  datatype Loan = Loan(id: int, bookId: int, memberId: int, loanDate: Timestamp,
                       dueDate: Timestamp, returnDate: Option<Timestamp>)

  // ------------------------------------------------------- insert inputs

  datatype InsertUser = InsertUser(username: string, password: string, role: string)

  /** Neither `id` nor `available` can be supplied when a book is created. */
  datatype InsertBook = InsertBook(title: string, author: string, isbn: string, publishDate: string)

  datatype InsertMember = InsertMember(name: string, email: string, phone: string, membershipId: string)

  /** Neither `id` nor `returnDate` can be supplied when a loan is created. */
  datatype InsertLoan = InsertLoan(bookId: int, memberId: int, loanDate: Timestamp, dueDate: Timestamp)

  // ------------------------------------------------------------ patches

  /** `Partial<InsertBook>`: the same four fields, each optional. */
  datatype BookPatch = BookPatch(title: Option<string>, author: Option<string>,
                                 isbn: Option<string>, publishDate: Option<string>)

  /** `Partial<InsertMember>`. */
  datatype MemberPatch = MemberPatch(name: Option<string>, email: Option<string>,
                                     phone: Option<string>, membershipId: Option<string>)

  /**
   * `Partial<UpdateLoan>`. A nullable optional field has three states, so
   * `returnDate` is `None` (absent), `Some(None)` (an explicit null) or
   * `Some(Some(t))` (a date).
   */
  datatype LoanPatch = LoanPatch(bookId: Option<int>, memberId: Option<int>,
                                 loanDate: Option<Timestamp>, dueDate: Option<Timestamp>,
                                 returnDate: Option<Option<Timestamp>>)

  /** Does the patch carry a truthy `returnDate` (a date, not null and not absent)? */
  predicate SetsReturnDate(p: LoanPatch) {
    p.returnDate.Some? && p.returnDate.value.Some?
  }

  // -------------------------------------------------------------- merges

  /** `{ ...b, ...p }`: supplied fields override; id and availability are not patchable. */
  function MergeBook(b: Book, p: BookPatch): (r: Book)
    ensures r.id == b.id && r.available == b.available
    ensures r.title == (if p.title.Some? then p.title.value else b.title)
    ensures r.author == (if p.author.Some? then p.author.value else b.author)
    ensures r.isbn == (if p.isbn.Some? then p.isbn.value else b.isbn)
    ensures r.publishDate == (if p.publishDate.Some? then p.publishDate.value else b.publishDate)
  {
    b.(title := p.title.GetOr(b.title), author := p.author.GetOr(b.author),
       isbn := p.isbn.GetOr(b.isbn), publishDate := p.publishDate.GetOr(b.publishDate))
  }

  /** `{ ...m, ...p }` for members; the id is not patchable. */
  function MergeMember(m: Member, p: MemberPatch): (r: Member)
    ensures r.id == m.id
    ensures r.name == (if p.name.Some? then p.name.value else m.name)
    ensures r.email == (if p.email.Some? then p.email.value else m.email)
    ensures r.phone == (if p.phone.Some? then p.phone.value else m.phone)
    ensures r.membershipId == (if p.membershipId.Some? then p.membershipId.value else m.membershipId)
  {
    m.(name := p.name.GetOr(m.name), email := p.email.GetOr(m.email),
       phone := p.phone.GetOr(m.phone), membershipId := p.membershipId.GetOr(m.membershipId))
  }

  /** `{ ...l, ...p }` for loans; an explicit null `returnDate` re-opens the loan. */
  function MergeLoan(l: Loan, p: LoanPatch): (r: Loan)
    ensures r.id == l.id
    ensures r.bookId == (if p.bookId.Some? then p.bookId.value else l.bookId)
    ensures r.memberId == (if p.memberId.Some? then p.memberId.value else l.memberId)
    ensures r.loanDate == (if p.loanDate.Some? then p.loanDate.value else l.loanDate)
    ensures r.dueDate == (if p.dueDate.Some? then p.dueDate.value else l.dueDate)
    ensures r.returnDate == (if p.returnDate.Some? then p.returnDate.value else l.returnDate)
    ensures SetsReturnDate(p) ==> r.returnDate.Some?
  {
    l.(bookId := p.bookId.GetOr(l.bookId), memberId := p.memberId.GetOr(l.memberId),
       loanDate := p.loanDate.GetOr(l.loanDate), dueDate := p.dueDate.GetOr(l.dueDate),
       returnDate := p.returnDate.GetOr(l.returnDate))
  }

  // ------------------------------------------------ patch composition

  /** The single patch equivalent to applying `p` and then `q`. */
  function ThenBook(p: BookPatch, q: BookPatch): BookPatch {
    BookPatch(if q.title.Some? then q.title else p.title,
              if q.author.Some? then q.author else p.author,
              if q.isbn.Some? then q.isbn else p.isbn,
              if q.publishDate.Some? then q.publishDate else p.publishDate)
  }

  function ThenMember(p: MemberPatch, q: MemberPatch): MemberPatch {
    MemberPatch(if q.name.Some? then q.name else p.name,
                if q.email.Some? then q.email else p.email,
                if q.phone.Some? then q.phone else p.phone,
                if q.membershipId.Some? then q.membershipId else p.membershipId)
  }

  function ThenLoan(p: LoanPatch, q: LoanPatch): LoanPatch {
    LoanPatch(if q.bookId.Some? then q.bookId else p.bookId,
              if q.memberId.Some? then q.memberId else p.memberId,
              if q.loanDate.Some? then q.loanDate else p.loanDate,
              if q.dueDate.Some? then q.dueDate else p.dueDate,
              if q.returnDate.Some? then q.returnDate else p.returnDate)
  }

  /** Two successive shallow merges are one merge of the combined patch; the empty patch changes nothing. */
  lemma MergeBookComposes(b: Book, p: BookPatch, q: BookPatch)
    ensures MergeBook(MergeBook(b, p), q) == MergeBook(b, ThenBook(p, q))
    ensures MergeBook(b, BookPatch(None, None, None, None)) == b
    ensures MergeBook(MergeBook(b, p), p) == MergeBook(b, p)
  {
  }

  lemma MergeMemberComposes(m: Member, p: MemberPatch, q: MemberPatch)
    ensures MergeMember(MergeMember(m, p), q) == MergeMember(m, ThenMember(p, q))
    ensures MergeMember(m, MemberPatch(None, None, None, None)) == m
    ensures MergeMember(MergeMember(m, p), p) == MergeMember(m, p)
  {
  }

  lemma MergeLoanComposes(l: Loan, p: LoanPatch, q: LoanPatch)
    ensures MergeLoan(MergeLoan(l, p), q) == MergeLoan(l, ThenLoan(p, q))
    ensures MergeLoan(l, LoanPatch(None, None, None, None, None)) == l
    ensures MergeLoan(MergeLoan(l, p), p) == MergeLoan(l, p)
  {
  }

  // ------------------------------------------- declared uniqueness

  /**
   * The `.unique()` column constraints. The in-memory store never checks
   * them, so they are predicates over a table scan, not invariants.
   */
  predicate UniqueUsernames(us: seq<User>) {
    forall i, j :: 0 <= i < j < |us| ==> us[i].username != us[j].username
  }

  predicate UniqueIsbns(bs: seq<Book>) {
    forall i, j :: 0 <= i < j < |bs| ==> bs[i].isbn != bs[j].isbn
  }

  predicate UniqueEmails(ms: seq<Member>) {
    forall i, j :: 0 <= i < j < |ms| ==> ms[i].email != ms[j].email
  }

  predicate UniqueMembershipIds(ms: seq<Member>) {
    forall i, j :: 0 <= i < j < |ms| ==> ms[i].membershipId != ms[j].membershipId
  }
}
