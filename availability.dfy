/**
 * The coupling between a book's `available` flag and the loans that
 * reference it: a present book is unavailable exactly when exactly one active
 * loan references it. The store keeps this under every call except
 * `updateLoan` in general: that call re-opens the book under the loan's old
 * `bookId` whenever the patch carries a return date, even for a loan that was
 * already returned, and an explicit null `returnDate` or a new `bookId`
 * re-activates or moves a loan without touching any book.
 */
module Availability {
  import opened Wrappers
  import opened Schema
  import opened OrderedMaps
  import opened Lending
  import opened Traces

  /** Ids of the active loans that reference `bookId`. */
  ghost function ActiveLoans(s: State, bookId: int): set<int> {
    set id | id in s.loans.entries && s.loans.entries[id].bookId == bookId &&
             s.loans.entries[id].returnDate.None?
  }

  /** A present book is unavailable exactly when exactly one active loan references it. */
  ghost predicate Coupled(s: State) {
    forall b :: b in s.books.entries ==> (!s.books.entries[b].available <==> |ActiveLoans(s, b)| == 1)
  }

  /**
   * The inductive form: an available book has no active loan, an unavailable
   * one exactly one, and every active loan names an id the book counter has
   * already handed out.
   */
  ghost predicate Consistent(s: State) {
    && WellFormed(s)
    && (forall b :: b in s.books.entries ==>
          |ActiveLoans(s, b)| == if s.books.entries[b].available then 0 else 1)
    && (forall id :: id in s.loans.entries && s.loans.entries[id].returnDate.None? ==>
          s.loans.entries[id].bookId < s.nextBookId)
  }

  /**
   * The calls that keep the coupling: all of them, except that an
   * `updateLoan` on a present loan must either be the first return of an
   * active loan or leave both `bookId` and `returnDate` alone.
   */
  predicate Safe(s: State, op: Op) {
    match op
    case UpdateLoanOp(id, p) =>
      || GetLoan(s, id).None?
      || (GetLoan(s, id).value.returnDate.None? && SetsReturnDate(p))
      || (p.bookId.None? && p.returnDate.None?)
    case _ => true
  }

  predicate SafeRun(s: State, ops: seq<Op>)
    decreases |ops|
  {
    ops == [] || (Safe(s, ops[0]) && SafeRun(Apply(s, ops[0]), ops[1..]))
  }

  lemma ConsistentIsCoupled(s: State)
    requires Consistent(s)
    ensures Coupled(s)
  {
  }

  lemma InitConsistent()
    ensures Consistent(Init())
  {
    var s := Init();
    assert s.loans.entries == map[] && s.books.entries == map[];
  }

  // ----------------------------------------------------- preservation

  /** Calls that change neither the loans nor any book's availability keep the invariant. */
  lemma SameLoansKeepConsistent(s: State, r: State)
    requires Consistent(s) && WellFormed(r)
    requires r.loans == s.loans && r.nextBookId >= s.nextBookId
    requires forall b :: b in r.books.entries ==>
               b in s.books.entries && r.books.entries[b].available == s.books.entries[b].available
    ensures Consistent(r)
  {
    forall b | b in r.books.entries
      ensures |ActiveLoans(r, b)| == if r.books.entries[b].available then 0 else 1
    {
      assert ActiveLoans(r, b) == ActiveLoans(s, b);
    }
  }

  lemma CreateBookKeepsConsistent(s: State, x: InsertBook)
    requires Consistent(s)
    ensures Consistent(CreateBook(s, x).state)
  {
    var r := CreateBook(s, x).state;
    var id := s.nextBookId;
    forall b | b in r.books.entries
      ensures |ActiveLoans(r, b)| == if r.books.entries[b].available then 0 else 1
    {
      assert ActiveLoans(r, b) == ActiveLoans(s, b);
      if b == id {
        forall k | k in s.loans.entries && s.loans.entries[k].returnDate.None?
          ensures k !in ActiveLoans(s, b)
        {
          assert s.loans.entries[k].bookId < s.nextBookId;
        }
        assert ActiveLoans(s, b) == {};
      } else {
        assert Get(r.books, b) == Get(s.books, b);
      }
    }
  }

  /** A successful loan creation adds the new loan to its book's active set and to no other. */
  lemma CreateLoanActive(s: State, x: InsertLoan, b: int)
    requires WellFormed(s) && CreateLoan(s, x).result.Ok?
    ensures ActiveLoans(CreateLoan(s, x).state, b) ==
              if b == x.bookId then ActiveLoans(s, b) + {s.nextLoanId} else ActiveLoans(s, b)
  {
    var r := CreateLoan(s, x).state;
    forall k ensures k in ActiveLoans(r, b) <==> k in (if b == x.bookId then ActiveLoans(s, b) + {s.nextLoanId} else ActiveLoans(s, b)) {
      assert k in r.loans.entries <==> Get(r.loans, k).Some?;
      assert k in s.loans.entries <==> Get(s.loans, k).Some?;
    }
  }

  lemma CreateLoanKeepsConsistent(s: State, x: InsertLoan)
    requires Consistent(s)
    ensures Consistent(CreateLoan(s, x).state)
  {
    var step := CreateLoan(s, x);
    var r := step.state;
    if step.result.Err? {
      SameLoansKeepConsistent(s, r);
    } else {
      var id := s.nextLoanId;
      assert id !in s.loans.entries;
      forall b | b in r.books.entries
        ensures |ActiveLoans(r, b)| == if r.books.entries[b].available then 0 else 1
      {
        assert Get(r.books, b).Some?;
        CreateLoanActive(s, x, b);
        if b != x.bookId {
          assert Get(r.books, b) == Get(s.books, b);
        }
      }
      forall k | k in r.loans.entries && r.loans.entries[k].returnDate.None?
        ensures r.loans.entries[k].bookId < r.nextBookId
      {
        assert Get(r.loans, k).Some?;
        if k != id { assert Get(r.loans, k) == Get(s.loans, k); }
      }
    }
  }

  /** The first return of an active loan frees exactly its book. */
  lemma FirstReturnKeepsConsistent(s: State, id: int, p: LoanPatch)
    requires Consistent(s) && GetLoan(s, id).Some?
    requires GetLoan(s, id).value.returnDate.None? && SetsReturnDate(p)
    ensures Consistent(UpdateLoan(s, id, p).state)
  {
    var r := UpdateLoan(s, id, p).state;
    var b0 := GetLoan(s, id).value.bookId;
    forall b | b in r.books.entries
      ensures |ActiveLoans(r, b)| == if r.books.entries[b].available then 0 else 1
    {
      assert Get(r.books, b).Some?;
      if b == b0 {
        assert id in ActiveLoans(s, b);
        assert ActiveLoans(r, b) == ActiveLoans(s, b) - {id};
      } else {
        assert ActiveLoans(r, b) == ActiveLoans(s, b);
      }
    }
    forall k | k in r.loans.entries && r.loans.entries[k].returnDate.None?
      ensures r.loans.entries[k].bookId < r.nextBookId
    {
      assert Get(r.loans, k).Some?;
      assert k != id;
      assert Get(r.loans, k) == Get(s.loans, k);
    }
  }

  /** A patch that leaves `bookId` and `returnDate` alone changes no loan's book or activity. */
  lemma QuietPatchKeepsConsistent(s: State, id: int, p: LoanPatch)
    requires Consistent(s) && p.bookId.None? && p.returnDate.None?
    ensures Consistent(UpdateLoan(s, id, p).state)
  {
    var r := UpdateLoan(s, id, p).state;
    forall b ensures ActiveLoans(r, b) == ActiveLoans(s, b) {
      forall k ensures k in ActiveLoans(r, b) <==> k in ActiveLoans(s, b) {
        assert k in r.loans.entries <==> Get(r.loans, k).Some?;
        assert k in s.loans.entries <==> Get(s.loans, k).Some?;
      }
    }
    forall k | k in r.loans.entries && r.loans.entries[k].returnDate.None?
      ensures r.loans.entries[k].bookId < r.nextBookId
    {
      assert Get(r.loans, k).Some?;
    }
  }

  lemma SafeStepKeepsConsistent(s: State, op: Op)
    requires Consistent(s) && Safe(s, op)
    ensures Consistent(Apply(s, op))
  {
    match op
    case CreateUserOp(x) => SameLoansKeepConsistent(s, Apply(s, op));
    case CreateBookOp(x) => CreateBookKeepsConsistent(s, x);
    case UpdateBookOp(id, p) =>
      forall b | b in Apply(s, op).books.entries ensures b in s.books.entries {
        assert Get(Apply(s, op).books, b).Some?;
      }
      SameLoansKeepConsistent(s, Apply(s, op));
    case DeleteBookOp(id) =>
      forall b | b in Apply(s, op).books.entries ensures b in s.books.entries {
        assert Get(Apply(s, op).books, b).Some?;
      }
      SameLoansKeepConsistent(s, Apply(s, op));
    case CreateMemberOp(x) => SameLoansKeepConsistent(s, Apply(s, op));
    case UpdateMemberOp(id, p) => SameLoansKeepConsistent(s, Apply(s, op));
    case DeleteMemberOp(id) => SameLoansKeepConsistent(s, Apply(s, op));
    case CreateLoanOp(x) => CreateLoanKeepsConsistent(s, x);
    case UpdateLoanOp(id, p) =>
      if GetLoan(s, id).None? {
        assert Apply(s, op) == s;
      } else if GetLoan(s, id).value.returnDate.None? && SetsReturnDate(p) {
        FirstReturnKeepsConsistent(s, id, p);
      } else {
        QuietPatchKeepsConsistent(s, id, p);
      }
  }

  lemma {:induction false} SafeRunKeepsConsistent(s: State, ops: seq<Op>)
    requires Consistent(s) && SafeRun(s, ops)
    ensures Consistent(Run(s, ops))
    decreases |ops|
  {
    if ops != [] {
      SafeStepKeepsConsistent(s, ops[0]);
      SafeRunKeepsConsistent(Apply(s, ops[0]), ops[1..]);
    }
  }

  /** Every state reachable from the constructor through safe calls is coupled. */
  lemma ReachableIsCoupled(ops: seq<Op>)
    requires SafeRun(Init(), ops)
    ensures Coupled(Run(Init(), ops))
  {
    InitConsistent();
    SafeRunKeepsConsistent(Init(), ops);
  }

  // --------------------------------------------------- counterexample

  /** A patch carrying only a return date. */
  function ReturnedAt(t: Timestamp): LoanPatch {
    LoanPatch(None, None, None, None, Some(Some(t)))
  }

  lemma {:induction false} RunSnoc(s: State, ops: seq<Op>, op: Op)
    ensures Run(s, ops + [op]) == Apply(Run(s, ops), op)
    decreases |ops|
  {
    if ops != [] {
      assert (ops + [op])[1..] == ops[1..] + [op];
      RunSnoc(Apply(s, ops[0]), ops[1..], op);
    }
  }

  const SampleBook := InsertBook("Title", "Author", "ISBN", "2020")
  const SampleMember := InsertMember("Name", "name@example.org", "555", "M1")

  /**
   * From `s`: create a book and a member, lend the book, return it, and lend
   * it again. The ids are the ones the counters of `s` will hand out.
   */
  function SafePrefix(s: State): seq<Op> {
    var lend := InsertLoan(s.nextBookId, s.nextMemberId, 0, 14);
    var lendAgain := InsertLoan(s.nextBookId, s.nextMemberId, 6, 20);
    [ CreateBookOp(SampleBook), CreateMemberOp(SampleMember), CreateLoanOp(lend),
      UpdateLoanOp(s.nextLoanId, ReturnedAt(5)), CreateLoanOp(lendAgain) ]
  }

  /** Then patch the first loan's return date once more. */
  function Rereturn(s: State): Op {
    UpdateLoanOp(s.nextLoanId, ReturnedAt(7))
  }

  function Counterexample(s: State): seq<Op> {
    SafePrefix(s) + [Rereturn(s)]
  }

  /** How the safe prefix leaves book `b`: lent out again, while loan `l` is returned. */
  predicate LentAgain(r: State, b: int, l: int) {
    && WellFormed(r)
    && GetLoan(r, l).Some? && GetLoan(r, l).value.returnDate.Some? && GetLoan(r, l).value.bookId == b
    && GetBook(r, b).Some? && !GetBook(r, b).value.available
  }

  /** Replaying a non-empty trace is one call followed by the rest. */
  lemma RunCons(s: State, ops: seq<Op>)
    requires ops != []
    ensures Run(s, ops) == Run(Apply(s, ops[0]), ops[1..])
    ensures SafeRun(s, ops) <==> Safe(s, ops[0]) && SafeRun(Apply(s, ops[0]), ops[1..])
  {
  }

  /** The second loan of book `b`, once loan `l` is back. */
  lemma LendAgainStep(t: State, b: int, m: int, l: int)
    requires WellFormed(t) && GetMember(t, m).Some? && t.nextLoanId == l + 1
    requires GetBook(t, b).Some? && GetBook(t, b).value.available
    requires GetLoan(t, l) == Some(Loan(l, b, m, 0, 14, Some(5)))
    ensures var ops := [CreateLoanOp(InsertLoan(b, m, 6, 20))];
            SafeRun(t, ops) && LentAgain(Run(t, ops), b, l)
  {
    var ops := [CreateLoanOp(InsertLoan(b, m, 6, 20))];
    RunCons(t, ops);
    assert ops[1..] == [];
  }

  /** The return of loan `l`, then the second loan. */
  lemma ReturnStep(t: State, b: int, m: int, l: int)
    requires WellFormed(t) && GetMember(t, m).Some? && t.nextLoanId == l + 1
    requires GetBook(t, b).Some?
    requires GetLoan(t, l) == Some(Loan(l, b, m, 0, 14, None))
    ensures var ops := [UpdateLoanOp(l, ReturnedAt(5)), CreateLoanOp(InsertLoan(b, m, 6, 20))];
            SafeRun(t, ops) && LentAgain(Run(t, ops), b, l)
  {
    var ops := [UpdateLoanOp(l, ReturnedAt(5)), CreateLoanOp(InsertLoan(b, m, 6, 20))];
    RunCons(t, ops);
    LendAgainStep(Apply(t, ops[0]), b, m, l);
  }

  /** The first loan of book `b` to member `m`, as loan `l`, and what follows. */
  lemma LendStep(t: State, b: int, m: int)
    requires WellFormed(t) && GetMember(t, m).Some?
    requires GetBook(t, b).Some? && GetBook(t, b).value.available
    ensures var l := t.nextLoanId;
            var ops := [CreateLoanOp(InsertLoan(b, m, 0, 14)), UpdateLoanOp(l, ReturnedAt(5)),
                        CreateLoanOp(InsertLoan(b, m, 6, 20))];
            SafeRun(t, ops) && LentAgain(Run(t, ops), b, l)
  {
    var l := t.nextLoanId;
    var ops := [CreateLoanOp(InsertLoan(b, m, 0, 14)), UpdateLoanOp(l, ReturnedAt(5)),
                CreateLoanOp(InsertLoan(b, m, 6, 20))];
    RunCons(t, ops);
    ReturnStep(Apply(t, ops[0]), b, m, l);
  }

  /** Creating the member, then the loans. */
  lemma MemberStep(t: State, b: int)
    requires WellFormed(t) && GetBook(t, b).Some? && GetBook(t, b).value.available
    ensures var m, l := t.nextMemberId, t.nextLoanId;
            var ops := [CreateMemberOp(SampleMember), CreateLoanOp(InsertLoan(b, m, 0, 14)),
                        UpdateLoanOp(l, ReturnedAt(5)), CreateLoanOp(InsertLoan(b, m, 6, 20))];
            SafeRun(t, ops) && LentAgain(Run(t, ops), b, l)
  {
    var m, l := t.nextMemberId, t.nextLoanId;
    var ops := [CreateMemberOp(SampleMember), CreateLoanOp(InsertLoan(b, m, 0, 14)),
                UpdateLoanOp(l, ReturnedAt(5)), CreateLoanOp(InsertLoan(b, m, 6, 20))];
    RunCons(t, ops);
    LendStep(Apply(t, ops[0]), b, m);
  }

  /** The prefix from `s` lends the book twice, and the first loan is returned in between. */
  lemma SafePrefixOutcome(s: State)
    requires WellFormed(s)
    ensures SafeRun(s, SafePrefix(s)) && LentAgain(Run(s, SafePrefix(s)), s.nextBookId, s.nextLoanId)
  {
    var ops := SafePrefix(s);
    RunCons(s, ops);
    MemberStep(Apply(s, ops[0]), s.nextBookId);
  }

  /** Re-returning loan `l` frees book `b` although another loan of it is active. */
  lemma RereturnStep(t: State, b: int, l: int)
    requires Consistent(t) && LentAgain(t, b, l)
    ensures !Safe(t, UpdateLoanOp(l, ReturnedAt(7)))
    ensures !Coupled(Apply(t, UpdateLoanOp(l, ReturnedAt(7))))
  {
    var r := Apply(t, UpdateLoanOp(l, ReturnedAt(7)));
    assert GetBook(r, b).Some? && GetBook(r, b).value.available;
    assert |ActiveLoans(t, b)| == 1 by { assert b in t.books.entries; }
    // Loan `l` was already returned and stays returned, so the book keeps its one active loan.
    assert ActiveLoans(r, b) == ActiveLoans(t, b) by {
      forall k ensures k in ActiveLoans(r, b) <==> k in ActiveLoans(t, b) {
        assert k in r.loans.entries <==> Get(r.loans, k).Some?;
        assert k in t.loans.entries <==> Get(t.loans, k).Some?;
      }
    }
    assert b in r.books.entries;
  }

  /**
   * From any consistent state (the initial one included) the prefix is made
   * of safe calls and ends coupled, but the final re-return of the first
   * loan is not safe and leaves the book marked available while the second
   * loan is still its one active loan.
   */
  lemma CouplingNotPreservedByUpdateLoan(s: State)
    requires Consistent(s)
    ensures SafeRun(s, SafePrefix(s))
    ensures Coupled(Run(s, SafePrefix(s)))
    ensures !Safe(Run(s, SafePrefix(s)), Rereturn(s))
    ensures !Coupled(Run(s, Counterexample(s)))
  {
    SafePrefixOutcome(s);
    SafeRunKeepsConsistent(s, SafePrefix(s));
    var t := Run(s, SafePrefix(s));
    ConsistentIsCoupled(t);
    RunSnoc(s, SafePrefix(s), Rereturn(s));
    RereturnStep(t, s.nextBookId, s.nextLoanId);
  }

  /** In particular the freshly constructed store admits the counterexample. */
  lemma CouplingFailsFromInit()
    ensures SafeRun(Init(), SafePrefix(Init())) && !Coupled(Run(Init(), Counterexample(Init())))
  {
    InitConsistent();
    CouplingNotPreservedByUpdateLoan(Init());
  }
}
