/** What the loan service keeps true from one request to the next, how its
    operations combine, and the behaviours it shows as written: a renewed
    loan does not block a new loan of the same book, and a cancelled loan
    can give its copy back again. */
module LoanServiceProperties {
  import opened Common
  import opened Seqs
  import Books
  import Users
  import opened Loans
  import Repo = LoanRepository
  import opened LoanService

  /** The facts every state reached through the service keeps: referential
      integrity, every loan in the consistent shape (so `ATRASADO` never
      appears), no negative shelf count, at most one `ATIVO` loan per user
      and book, and at most three `ATIVO` loans per user. */
  ghost predicate Invariant(lib: Library) {
    && lib.Valid()
    && (forall i :: 0 <= i < |lib.loans| ==> lib.loans[i].Consistent())
    && (forall b :: b in lib.books ==> lib.books[b].available >= 0)
    && (forall u: UserId, b: BookId :: |Repo.ActiveLoansOfPair(lib.loans, u, b)| <= 1)
    && (forall u: UserId :: |Repo.ActiveLoansOfUser(lib.loans, u)| <= MaxActiveLoans)
  }

  /** An empty library with any users and well-stocked books satisfies the
      invariant. */
  lemma EmptyLibraryIsInvariant(users: map<UserId, Users.User>, books: map<BookId, Books.Book>)
    requires forall b :: b in books ==> books[b].available >= 0
    ensures Invariant(Library(users, books, []))
  {
  }

  /** Issuing a loan keeps the invariant. */
  lemma IssuePreservesInvariant(lib: Library, user: UserId, book: BookId, today: Day)
    requires Invariant(lib)
    requires Issue(lib, user, book, today).Ok?
    ensures Invariant(Issue(lib, user, book, today).value.state)
  {
    var rc := Issue(lib, user, book, today).value;
    var loans := rc.state.loans;
    forall u: UserId, b: BookId
      ensures |Repo.ActiveLoansOfPair(loans, u, b)| <= 1
    {
      FilterAppend(lib.loans, [rc.loan], Repo.ActiveOfPair(u, b));
      FilterSingleton(rc.loan, Repo.ActiveOfPair(u, b));
      assert Repo.ActiveLoansOfPair(loans, u, b) == Repo.ActiveLoansOfPair(lib.loans, u, b) + Filter([rc.loan], Repo.ActiveOfPair(u, b));
      if u == user && b == book {
        assert !HasActiveLoan(lib, user, book);
        assert |Repo.ActiveLoansOfPair(lib.loans, u, b)| == 0;
      } else {
        assert !Repo.ActiveOfPair(u, b)(rc.loan);
      }
    }
    forall u: UserId
      ensures |Repo.ActiveLoansOfUser(loans, u)| <= MaxActiveLoans
    {
      FilterAppend(lib.loans, [rc.loan], Repo.ActiveOfUser(u));
      FilterSingleton(rc.loan, Repo.ActiveOfUser(u));
      assert Repo.ActiveLoansOfUser(loans, u) == Repo.ActiveLoansOfUser(lib.loans, u) + Filter([rc.loan], Repo.ActiveOfUser(u));
      if u != user {
        assert !Repo.ActiveOfUser(u)(rc.loan);
      }
    }
  }

  /** Replacing one loan by a loan that is not `ATIVO` (or by itself) never
      adds to any active count, so both limits of the invariant survive it. */
  lemma ReplaceKeepsActiveLimits(loans: seq<Loan>, id: nat, x: Loan, updated: seq<Loan>)
    requires id < |loans| && updated == loans[id := x]
    requires x.status == Ativo ==> x == loans[id]
    requires forall u: UserId, b: BookId :: |Repo.ActiveLoansOfPair(loans, u, b)| <= 1
    requires forall u: UserId :: |Repo.ActiveLoansOfUser(loans, u)| <= MaxActiveLoans
    ensures forall u: UserId, b: BookId :: |Repo.ActiveLoansOfPair(updated, u, b)| <= 1
    ensures forall u: UserId :: |Repo.ActiveLoansOfUser(updated, u)| <= MaxActiveLoans
  {
    forall u: UserId, b: BookId
      ensures |Repo.ActiveLoansOfPair(updated, u, b)| <= 1
    {
      FilterUpdateLength(loans, id, x, Repo.ActiveOfPair(u, b));
      assert Repo.ActiveOfPair(u, b)(x) ==> Repo.ActiveOfPair(u, b)(loans[id]);
      assert |Repo.ActiveLoansOfPair(loans, u, b)| <= 1;
    }
    forall u: UserId
      ensures |Repo.ActiveLoansOfUser(updated, u)| <= MaxActiveLoans
    {
      FilterUpdateLength(loans, id, x, Repo.ActiveOfUser(u));
      assert Repo.ActiveOfUser(u)(x) ==> Repo.ActiveOfUser(u)(loans[id]);
      assert |Repo.ActiveLoansOfUser(loans, u)| <= MaxActiveLoans;
    }
  }

  /** Returning a loan keeps the invariant. */
  lemma ReturnPreservesInvariant(lib: Library, id: nat, today: Day)
    requires Invariant(lib)
    requires ReturnLoan(lib, id, today).Ok?
    ensures Invariant(ReturnLoan(lib, id, today).value.state)
  {
    var rc := ReturnLoan(lib, id, today).value;
    ReplaceKeepsActiveLimits(lib.loans, id, rc.loan, rc.state.loans);
  }

  /** Renewing a loan keeps the invariant. */
  lemma RenewPreservesInvariant(lib: Library, id: nat, today: Day)
    requires Invariant(lib)
    requires RenewLoan(lib, id, today).Ok?
    ensures Invariant(RenewLoan(lib, id, today).value.state)
  {
    var rc := RenewLoan(lib, id, today).value;
    ReplaceKeepsActiveLimits(lib.loans, id, rc.loan, rc.state.loans);
  }

  /** Cancelling a loan keeps the invariant. */
  lemma CancelPreservesInvariant(lib: Library, id: nat)
    requires Invariant(lib)
    requires CancelLoan(lib, id).Ok?
    ensures Invariant(CancelLoan(lib, id).value)
  {
    ReplaceKeepsActiveLimits(lib.loans, id, lib.loans[id].(status := Cancelado), CancelLoan(lib, id).value.loans);
  }

  /** After a successful issue the user holds one more `ATIVO` loan, at most
      three in all, and now holds the book. */
  lemma IssueRespectsLimit(lib: Library, user: UserId, book: BookId, today: Day)
    requires Issue(lib, user, book, today).Ok?
    ensures var after := Issue(lib, user, book, today).value.state;
      && |Repo.ActiveLoansOfUser(after.loans, user)| == |Repo.ActiveLoansOfUser(lib.loans, user)| + 1
      && |Repo.ActiveLoansOfUser(after.loans, user)| <= MaxActiveLoans
      && HasActiveLoan(after, user, book)
  {
    var rc := Issue(lib, user, book, today).value;
    FilterAppend(lib.loans, [rc.loan], Repo.ActiveOfUser(user));
    FilterSingleton(rc.loan, Repo.ActiveOfUser(user));
    assert rc.state.loans[|lib.loans|] == rc.loan;
  }

  /** Issuing a loan and cancelling it at once gives the copy back: every
      book is exactly as before, and the loan stays in the table as
      `CANCELADO`. */
  lemma IssueThenCancel(lib: Library, user: UserId, book: BookId, today: Day)
    requires lib.Valid()
    requires Issue(lib, user, book, today).Ok?
    ensures var rc := Issue(lib, user, book, today).value;
      var cancelled := CancelLoan(rc.state, rc.id);
      && cancelled.Ok?
      && cancelled.value.books == lib.books
      && cancelled.value.users == lib.users
      && cancelled.value.loans == lib.loans + [rc.loan.(status := Cancelado)]
  {
    var rc := Issue(lib, user, book, today).value;
    Books.LendThenTakeBack(lib.books[book]);
    assert rc.state.books[book] == Books.Lend(lib.books[book]);
  }

  /** No overselling: once the last copy of a book is lent, every further
      request for it by an existing active user is refused as unavailable. */
  lemma LastCopyIsLentOnce(lib: Library, first: UserId, second: UserId, book: BookId, today: Day, later: Day)
    requires Issue(lib, first, book, today).Ok?
    requires book in lib.books && lib.books[book].available == 1
    ensures var after := Issue(lib, first, book, today).value.state;
      second in after.users && after.users[second].active ==>
        Issue(after, second, book, later) == Err(BookUnavailable)
  {
  }

  /** A loan renewed once is refused a second renewal: as already renewed
      while it is not yet due, as overdue once it is. */
  lemma SecondRenewalRefused(lib: Library, id: nat, today: Day, later: Day)
    requires RenewLoan(lib, id, today).Ok?
    requires lib.loans[id].status == Ativo
    ensures var rc := RenewLoan(lib, id, today).value;
      RenewLoan(rc.state, id, later) == Err(if later > rc.loan.due then CurrentlyOverdue else AlreadyRenewed)
  {
  }

  /** As written, renewing a cancelled loan that is not overdue is accepted
      and changes nothing. */
  lemma RenewOfCancelledLoanIsNoOp(lib: Library, id: nat, today: Day)
    requires id < |lib.loans| && lib.loans[id].status == Cancelado && today <= lib.loans[id].due
    ensures RenewLoan(lib, id, today) == Ok(Receipt(lib, id, lib.loans[id]))
  {
    assert lib.loans[id := lib.loans[id]] == lib.loans;
  }

  /** As written, a cancelled loan can be cancelled again or returned, and
      each time its book takes a copy back. */
  lemma CancelledLoanGivesBackAgain(lib: Library, id: nat, today: Day)
    requires lib.Valid()
    requires CancelLoan(lib, id).Ok?
    ensures var once, book := CancelLoan(lib, id).value, lib.loans[id].book;
      && CancelLoan(once, id).Ok?
      && CancelLoan(once, id).value.books[book].available == lib.books[book].available + 2
      && ReturnLoan(once, id, today).Ok?
      && ReturnLoan(once, id, today).value.state.books[book].available == lib.books[book].available + 2
  {
  }

  /** As written, the shelf count is not bounded by the total: one copy,
      lent once and cancelled twice, leaves two copies on the shelf. */
  lemma StockCanExceedTotal()
    ensures var lib := Library(map[0 := Users.User(0, true)],
                               map[0 := Books.Book(0, 1, 1, Books.Disponivel, 0)], []);
      var issued := Issue(lib, 0, 0, 0);
      && issued.Ok?
      && CancelLoan(issued.value.state, 0).Ok?
      && CancelLoan(CancelLoan(issued.value.state, 0).value, 0).Ok?
      && var twice := CancelLoan(CancelLoan(issued.value.state, 0).value, 0).value;
         twice.books[0].available == 2 > twice.books[0].total
  {
    var lib := Library(map[0 := Users.User(0, true)],
                       map[0 := Books.Book(0, 1, 1, Books.Disponivel, 0)], []);
    assert Repo.ActiveLoansOfPair([], 0, 0) == [];
    assert Repo.ActiveLoansOfUser([], 0) == [];
    var issued := Issue(lib, 0, 0, 0);
    assert issued.Ok?;
  }

  /** As written, only `ATIVO` loans block a new loan of the same book: once
      a user renews their active loan of a book, the duplicate check no longer
      sees it, and a new loan of the same book is refused only for the
      reasons that have nothing to do with the renewed one. */
  lemma RenewedLoanDoesNotBlockReissue(lib: Library, id: nat, today: Day, later: Day)
    requires Invariant(lib)
    requires RenewLoan(lib, id, today).Ok?
    requires lib.loans[id].status == Ativo
    ensures var after, l := RenewLoan(lib, id, today).value.state, lib.loans[id];
      && after.loans[id].status == Renovado
      && !HasActiveLoan(after, l.user, l.book)
      && (Issue(after, l.user, l.book, later).Ok? <==>
            && l.user in after.users && after.users[l.user].active
            && l.book in after.books && after.books[l.book].IsAvailable()
            && |Repo.ActiveLoansOfUser(after.loans, l.user)| < MaxActiveLoans)
  {
    var rc := RenewLoan(lib, id, today).value;
    var l := lib.loans[id];
    var p := Repo.ActiveOfPair(l.user, l.book);
    FilterUpdateLength(lib.loans, id, rc.loan, p);
    assert p(lib.loans[id]) && !p(rc.loan);
    assert |Repo.ActiveLoansOfPair(lib.loans, l.user, l.book)| <= 1;
    assert |Repo.ActiveLoansOfPair(rc.state.loans, l.user, l.book)| == 0;
  }
}
