/**
 * Sequences of store calls. A trace is the list of mutating calls a client
 * makes; `Run` replays it from a state. Over traces the id discipline of the
 * store becomes visible: each table's counter advances by exactly the number
 * of creations in that table (failed loan creations included), and no id below
 * the counter is ever handed out again.
 */
module Traces {
  import opened Wrappers
  import opened Schema
  import opened OrderedMaps
  import opened Lending

  /** One mutating call of the store. */
  datatype Op =
    | CreateUserOp(user: InsertUser)
    | CreateBookOp(book: InsertBook)
    | UpdateBookOp(bookId: int, bookPatch: BookPatch)
    | DeleteBookOp(bookId: int)
    | CreateMemberOp(member: InsertMember)
    | UpdateMemberOp(memberId: int, memberPatch: MemberPatch)
    | DeleteMemberOp(memberId: int)
    | CreateLoanOp(loan: InsertLoan)
    | UpdateLoanOp(loanId: int, loanPatch: LoanPatch)

  function Apply(s: State, op: Op): State {
    match op
    case CreateUserOp(x) => CreateUser(s, x).state
    case CreateBookOp(x) => CreateBook(s, x).state
    case UpdateBookOp(id, p) => UpdateBook(s, id, p).state
    case DeleteBookOp(id) => DeleteBook(s, id)
    case CreateMemberOp(x) => CreateMember(s, x).state
    case UpdateMemberOp(id, p) => UpdateMember(s, id, p).state
    case DeleteMemberOp(id) => DeleteMember(s, id)
    case CreateLoanOp(x) => CreateLoan(s, x).state
    case UpdateLoanOp(id, p) => UpdateLoan(s, id, p).state
  }

  /** The state after performing `ops` in order, starting from `s`. */
  function Run(s: State, ops: seq<Op>): State
    decreases |ops|
  {
    if ops == [] then s else Run(Apply(s, ops[0]), ops[1..])
  }

  lemma {:induction false} RunKeepsWellFormed(s: State, ops: seq<Op>)
    requires WellFormed(s)
    ensures WellFormed(Run(s, ops))
    decreases |ops|
  {
    if ops != [] {
      RunKeepsWellFormed(Apply(s, ops[0]), ops[1..]);
    }
  }

  // ------------------------------------------------------ id counters

  datatype Table = Users | Books | Members | Loans

  function Counter(s: State, t: Table): nat {
    match t
    case Users => s.nextUserId
    case Books => s.nextBookId
    case Members => s.nextMemberId
    case Loans => s.nextLoanId
  }

  /** The ids present in a table. */
  function Ids(s: State, t: Table): set<int> {
    match t
    case Users => s.users.entries.Keys
    case Books => s.books.entries.Keys
    case Members => s.members.entries.Keys
    case Loans => s.loans.entries.Keys
  }

  /** Does the call create a row of table `t` (or, for loans, try to)? */
  predicate Creates(op: Op, t: Table) {
    match t
    case Users => op.CreateUserOp?
    case Books => op.CreateBookOp?
    case Members => op.CreateMemberOp?
    case Loans => op.CreateLoanOp?
  }

  function CreatesIn(ops: seq<Op>, t: Table): nat {
    if ops == [] then 0 else (if Creates(ops[0], t) then 1 else 0) + CreatesIn(ops[1..], t)
  }

  /** A call advances exactly the counter of the table it creates in, by one, and no other. */
  lemma ApplyCounter(s: State, op: Op, t: Table)
    ensures Counter(Apply(s, op), t) == Counter(s, t) + (if Creates(op, t) then 1 else 0)
  {
  }

  /** Over a trace, each counter advances by the number of creations in its table. */
  lemma {:induction false} RunCounter(s: State, ops: seq<Op>, t: Table)
    ensures Counter(Run(s, ops), t) == Counter(s, t) + CreatesIn(ops, t)
    decreases |ops|
  {
    if ops != [] {
      ApplyCounter(s, ops[0], t);
      RunCounter(Apply(s, ops[0]), ops[1..], t);
    }
  }

  /** A call adds at most one id to a table: the table's counter, and only when it creates there. */
  lemma ApplyIds(s: State, op: Op, t: Table)
    requires WellFormed(s)
    ensures Ids(Apply(s, op), t) <= Ids(s, t) + (if Creates(op, t) then {Counter(s, t)} else {})
  {
    var r := Apply(s, op);
    var extra: set<int> := if Creates(op, t) then {Counter(s, t)} else {};
    forall k | k in Ids(r, t) ensures k in Ids(s, t) + extra {
      match t
      case Users => assert Get(r.users, k).Some?;
      case Books => assert Get(r.books, k).Some?;
      case Members => assert Get(r.members, k).Some?;
      case Loans => assert Get(r.loans, k).Some?;
    }
  }

  /**
   * Every id present after a trace was either present before it or taken from
   * the counter during it: ids are never reused, even after a delete.
   */
  lemma {:induction false} RunIds(s: State, ops: seq<Op>, t: Table)
    requires WellFormed(s)
    ensures Counter(s, t) <= Counter(Run(s, ops), t)
    ensures forall k :: k in Ids(Run(s, ops), t) ==>
              k in Ids(s, t) || Counter(s, t) <= k < Counter(Run(s, ops), t)
    decreases |ops|
  {
    if ops != [] {
      var s1 := Apply(s, ops[0]);
      ApplyIds(s, ops[0], t);
      ApplyCounter(s, ops[0], t);
      RunIds(s1, ops[1..], t);
    }
  }
}
